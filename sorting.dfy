/** The table's sort: the selected column and direction, the three-way
    comparator built from `<` and `>` on the selected field, the header
    click that toggles the direction, and the sort of the revealed rows.
    `Array.prototype.sort` is stable, so `Sort` is a stable insertion sort
    on a copy; the rows it is given are never changed. */
module Sorting {
  import opened Values

  datatype Direction = Asc | Desc

  datatype SortConfig = SortConfig(key: Key, direction: Direction)

  /** The comparator: negative when `a` goes first, positive when `b` goes
      first, zero when the selected fields are equal. */
  function Compare(a: Row, b: Row, cfg: SortConfig): (c: int)
    ensures c == -1 || c == 0 || c == 1
    ensures c == 0 <==> Field(a, cfg.key) == Field(b, cfg.key)
    ensures cfg.direction == Asc ==> (c < 0 <==> Less(Field(a, cfg.key), Field(b, cfg.key)))
    ensures cfg.direction == Desc ==> (c < 0 <==> Less(Field(b, cfg.key), Field(a, cfg.key)))
  {
    var x, y := Field(a, cfg.key), Field(b, cfg.key);
    LessTrichotomy(x, y);
    if Less(x, y) then (if cfg.direction == Asc then -1 else 1)
    else if Less(y, x) then (if cfg.direction == Asc then 1 else -1)
    else 0
  }

  lemma CompareAntisymmetric(a: Row, b: Row, cfg: SortConfig)
    ensures Compare(a, b, cfg) == -Compare(b, a, cfg)
  {
    LessTrichotomy(Field(a, cfg.key), Field(b, cfg.key));
  }

  lemma CompareTransitive(a: Row, b: Row, c: Row, cfg: SortConfig)
    requires Compare(a, b, cfg) <= 0 && Compare(b, c, cfg) <= 0
    ensures Compare(a, c, cfg) <= 0
  {
    var x, y, z := Field(a, cfg.key), Field(b, cfg.key), Field(c, cfg.key);
    if Compare(a, c, cfg) > 0 {
      if cfg.direction == Asc {
        assert Less(z, x);
        if x != y { LessTransitive(z, x, y); LessAsymmetric(z, y); }
      } else {
        assert Less(x, z);
        if x != y { LessTransitive(y, x, z); LessAsymmetric(y, z); }
      }
    }
  }

  /** Descending order is ascending order reversed. */
  lemma CompareDescIsAscReversed(a: Row, b: Row, key: Key)
    ensures Compare(a, b, SortConfig(key, Desc)) == Compare(b, a, SortConfig(key, Asc))
  {
  }

  /** `handleSort(column)`: always the clicked column; descending only when
      that column was already sorted ascending. */
  function NextSortConfig(cfg: Option<SortConfig>, column: Key): (r: SortConfig)
    ensures r.key == column
    ensures r.direction == Desc <==> cfg == Some(SortConfig(column, Asc))
  {
    var direction := if cfg.Some? && cfg.value.key == column && cfg.value.direction == Asc then Desc else Asc;
    SortConfig(column, direction)
  }

  /** Clicking the same column again flips the direction. */
  lemma ClickAgainFlips(cfg: Option<SortConfig>, column: Key)
    ensures NextSortConfig(Some(NextSortConfig(cfg, column)), column).direction
         != NextSortConfig(cfg, column).direction
  {
  }

  ghost predicate Sorted(s: seq<Row>, cfg: SortConfig) {
    forall i, j :: 0 <= i < j < |s| ==> Compare(s[i], s[j], cfg) <= 0
  }

  /** The rows of `s` whose selected field is `v`, in their order in `s`. */
  function WithValue(s: seq<Row>, key: Key, v: Value): seq<Row> {
    if s == [] then []
    else (if Field(s[0], key) == v then [s[0]] else []) + WithValue(s[1..], key, v)
  }

  /** Puts `x` before the first row that does not compare below it. */
  function Insert(x: Row, t: seq<Row>, cfg: SortConfig): (r: seq<Row>)
    ensures multiset(r) == multiset(t) + multiset{x}
  {
    if t == [] then [x]
    else if Compare(x, t[0], cfg) <= 0 then [x] + t
    else
      assert t == [t[0]] + t[1..];
      [t[0]] + Insert(x, t[1..], cfg)
  }

  function Sort(s: seq<Row>, cfg: SortConfig): (r: seq<Row>)
    ensures multiset(r) == multiset(s)
  {
    if s == [] then []
    else
      assert s == [s[0]] + s[1..];
      Insert(s[0], Sort(s[1..], cfg), cfg)
  }

  lemma InsertMembers(x: Row, t: seq<Row>, cfg: SortConfig, y: Row)
    requires y in Insert(x, t, cfg)
    ensures y == x || y in t
  {
  }

  lemma SortedCons(h: Row, u: seq<Row>, cfg: SortConfig)
    requires Sorted(u, cfg)
    requires forall y :: y in u ==> Compare(h, y, cfg) <= 0
    ensures Sorted([h] + u, cfg)
  {
  }

  lemma {:induction false} InsertSorted(x: Row, t: seq<Row>, cfg: SortConfig)
    requires Sorted(t, cfg)
    ensures Sorted(Insert(x, t, cfg), cfg)
  {
    if t == [] {
    } else if Compare(x, t[0], cfg) <= 0 {
      forall y | y in t
        ensures Compare(x, y, cfg) <= 0
      {
        var k :| 0 <= k < |t| && t[k] == y;
        if k > 0 {
          CompareTransitive(x, t[0], y, cfg);
        }
      }
      SortedCons(x, t, cfg);
    } else {
      var rest := Insert(x, t[1..], cfg);
      assert Sorted(t[1..], cfg) by {
        forall i, j | 0 <= i < j < |t[1..]|
          ensures Compare(t[1..][i], t[1..][j], cfg) <= 0
        {
          assert t[1..][i] == t[i + 1] && t[1..][j] == t[j + 1];
        }
      }
      InsertSorted(x, t[1..], cfg);
      CompareAntisymmetric(x, t[0], cfg);
      forall y | y in rest
        ensures Compare(t[0], y, cfg) <= 0
      {
        InsertMembers(x, t[1..], cfg, y);
        if y != x {
          var k :| 0 <= k < |t[1..]| && t[1..][k] == y;
          assert t[k + 1] == y;
        }
      }
      SortedCons(t[0], rest, cfg);
    }
  }

  /** The result of the sort is in the order the comparator asks for. */
  lemma {:induction false} SortSorted(s: seq<Row>, cfg: SortConfig)
    ensures Sorted(Sort(s, cfg), cfg)
  {
    if s != [] {
      SortSorted(s[1..], cfg);
      InsertSorted(s[0], Sort(s[1..], cfg), cfg);
    }
  }

  lemma WithValueCons(h: Row, u: seq<Row>, key: Key, v: Value)
    ensures WithValue([h] + u, key, v) == (if Field(h, key) == v then [h] else []) + WithValue(u, key, v)
  {
  }

  lemma {:induction false} InsertWithValue(x: Row, t: seq<Row>, cfg: SortConfig, v: Value)
    ensures WithValue(Insert(x, t, cfg), cfg.key, v)
         == (if Field(x, cfg.key) == v then [x] else []) + WithValue(t, cfg.key, v)
  {
    if t == [] {
      WithValueCons(x, [], cfg.key, v);
    } else if Compare(x, t[0], cfg) <= 0 {
      WithValueCons(x, t, cfg.key, v);
    } else {
      InsertWithValue(x, t[1..], cfg, v);
      InsertWithValueSkip(x, t, cfg, v);
    }
  }

  /** The step of `InsertWithValue` where `x` goes past `t[0]`. */
  lemma InsertWithValueSkip(x: Row, t: seq<Row>, cfg: SortConfig, v: Value)
    requires t != [] && Compare(x, t[0], cfg) > 0
    requires WithValue(Insert(x, t[1..], cfg), cfg.key, v)
          == (if Field(x, cfg.key) == v then [x] else []) + WithValue(t[1..], cfg.key, v)
    ensures WithValue(Insert(x, t, cfg), cfg.key, v)
         == (if Field(x, cfg.key) == v then [x] else []) + WithValue(t, cfg.key, v)
  {
    var k := cfg.key;
    var rest := Insert(x, t[1..], cfg);
    var tail := WithValue(t[1..], k, v);
    assert Field(x, k) != Field(t[0], k);
    assert Insert(x, t, cfg) == [t[0]] + rest;
    WithValueCons(t[0], rest, k, v);
    assert t == [t[0]] + t[1..];
    WithValueCons(t[0], t[1..], k, v);
    if Field(x, k) == v {
      assert WithValue(rest, k, v) == [x] + tail;
      assert WithValue([t[0]] + rest, k, v) == [x] + tail;
      assert WithValue(t, k, v) == tail;
    } else if Field(t[0], k) == v {
      assert WithValue(rest, k, v) == tail;
      assert WithValue([t[0]] + rest, k, v) == [t[0]] + tail;
      assert WithValue(t, k, v) == [t[0]] + tail;
    } else {
      assert WithValue(rest, k, v) == tail;
      assert WithValue(t, k, v) == tail;
    }
  }

  /** Stability: rows with equal keys keep their relative order. */
  lemma {:induction false} SortStable(s: seq<Row>, cfg: SortConfig, v: Value)
    ensures WithValue(Sort(s, cfg), cfg.key, v) == WithValue(s, cfg.key, v)
  {
    if s != [] {
      SortStable(s[1..], cfg, v);
      InsertWithValue(s[0], Sort(s[1..], cfg), cfg, v);
    }
  }

  /** `sortedData`: the revealed rows as they are when nothing is selected,
      otherwise a stable permutation of them ordered by the selected field,
      non-decreasing for `asc` and non-increasing for `desc`. */
  function SortedData(displayed: seq<Row>, cfg: Option<SortConfig>): (r: seq<Row>)
    ensures cfg.None? ==> r == displayed
    ensures multiset(r) == multiset(displayed) && |r| == |displayed|
    ensures cfg.Some? && cfg.value.direction == Asc ==>
      forall i, j :: 0 <= i < j < |r| ==> LessEq(Field(r[i], cfg.value.key), Field(r[j], cfg.value.key))
    ensures cfg.Some? && cfg.value.direction == Desc ==>
      forall i, j :: 0 <= i < j < |r| ==> LessEq(Field(r[j], cfg.value.key), Field(r[i], cfg.value.key))
    ensures cfg.Some? ==>
      forall v :: WithValue(r, cfg.value.key, v) == WithValue(displayed, cfg.value.key, v)
  {
    match cfg
    case None => displayed
    case Some(c) =>
      var r := Sort(displayed, c);
      SortSorted(displayed, c);
      assert |r| == |multiset(r)| == |displayed|;
      forall v ensures WithValue(r, c.key, v) == WithValue(displayed, c.key, v) {
        SortStable(displayed, c, v);
      }
      r
  }
}
