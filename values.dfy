/** The field values a table row holds and the order JavaScript's `<` puts
    them in within one kind, which is what the table's comparator uses.  A row is a record
    from column keys to values; a key the record lacks reads as `undefined`
    (`Absent` here), as `actions?` does on a todo item. */
module Values {
  import Decimal

  datatype Option<T> = None | Some(value: T)

  /** A column key (`keyof T` in the source). */
  type Key = string

  datatype Value = Absent | Flag(b: bool) | Num(n: int) | Text(s: string)

  type Row = map<Key, Value>

  /** `item[key]`. */
  function Field(row: Row, key: Key): (v: Value)
    ensures key in row ==> v == row[key]
    ensures key !in row ==> v == Absent
  {
    if key in row then row[key] else Absent
  }

  /** Values of different kinds are ordered by kind here, so that the
      comparator stays a total preorder; within a kind the order is
      JavaScript's.  JavaScript itself compares a boolean with a number
      numerically (`false` as 0, `true` as 1) and has no consistent order
      between the other kinds; the two agree when a column's values share
      one kind. */
  function Rank(v: Value): nat {
    match v
    case Absent => 0
    case Flag(_) => 1
    case Num(_) => 2
    case Text(_) => 3
  }

  /** String `<`: lexicographic by character, a proper prefix first. */
  predicate TextLess(s: string, t: string) {
    if s == [] then t != []
    else if t == [] then false
    else if s[0] < t[0] then true
    else if s[0] == t[0] then TextLess(s[1..], t[1..])
    else false
  }

  /** Within a kind, JavaScript's `<`: `false < true`, numeric order,
      string order; across kinds, the rank. */
  predicate Less(a: Value, b: Value): (r: bool)
    ensures Rank(a) != Rank(b) ==> (r <==> Rank(a) < Rank(b))
    ensures a.Flag? && b.Flag? ==> (r <==> !a.b && b.b)
    ensures a.Num? && b.Num? ==> (r <==> a.n < b.n)
    ensures a.Text? && b.Text? ==> (r <==> TextLess(a.s, b.s))
    ensures a.Absent? && b.Absent? ==> !r
  {
    if Rank(a) != Rank(b) then Rank(a) < Rank(b)
    else match (a, b)
      case (Flag(x), Flag(y)) => !x && y
      case (Num(x), Num(y)) => x < y
      case (Text(x), Text(y)) => TextLess(x, y)
      case _ => false
  }

  predicate LessEq(a: Value, b: Value) {
    a == b || Less(a, b)
  }

  lemma {:induction false} TextLessIrreflexive(s: string)
    ensures !TextLess(s, s)
  {
    if s != [] {
      TextLessIrreflexive(s[1..]);
    }
  }

  lemma {:induction false} TextLessTransitive(s: string, t: string, u: string)
    requires TextLess(s, t) && TextLess(t, u)
    ensures TextLess(s, u)
  {
    if s != [] && s[0] == t[0] && t[0] == u[0] {
      TextLessTransitive(s[1..], t[1..], u[1..]);
    }
  }

  lemma {:induction false} TextLessTotal(s: string, t: string)
    requires s != t
    ensures TextLess(s, t) || TextLess(t, s)
  {
    if s != [] && t != [] && s[0] == t[0] {
      assert s == [s[0]] + s[1..] && t == [t[0]] + t[1..];
      TextLessTotal(s[1..], t[1..]);
    }
  }

  /** `Less` is a strict total order on values. */
  lemma LessIrreflexive(a: Value)
    ensures !Less(a, a)
  {
    if a.Text? {
      TextLessIrreflexive(a.s);
    }
  }

  lemma LessTransitive(a: Value, b: Value, c: Value)
    requires Less(a, b) && Less(b, c)
    ensures Less(a, c)
  {
    if a.Text? && b.Text? && c.Text? {
      TextLessTransitive(a.s, b.s, c.s);
    }
  }

  lemma LessTotal(a: Value, b: Value)
    requires a != b
    ensures Less(a, b) || Less(b, a)
  {
    if a.Text? && b.Text? {
      TextLessTotal(a.s, b.s);
    }
  }

  lemma LessAsymmetric(a: Value, b: Value)
    requires Less(a, b)
    ensures !Less(b, a)
  {
    if Less(b, a) {
      LessTransitive(a, b, a);
      LessIrreflexive(a);
    }
  }

  /** Exactly one of `a < b`, `a == b` and `b < a` holds. */
  lemma LessTrichotomy(a: Value, b: Value)
    ensures Less(a, b) || a == b || Less(b, a)
    ensures !(Less(a, b) && Less(b, a))
    ensures !Less(a, a)
  {
    LessIrreflexive(a);
    if a != b { LessTotal(a, b); }
    if Less(a, b) { LessAsymmetric(a, b); }
  }

  /** `String(value)`. */
  function ValueToString(v: Value): (s: string)
    ensures v.Absent? ==> s == "undefined"
    ensures v.Flag? ==> s == (if v.b then "true" else "false")
    ensures v.Text? ==> s == v.s
    ensures v.Num? ==> s == Decimal.IntToString(v.n)
    ensures v.Num? ==> Decimal.IsDecimal(s) && Decimal.ParseInt(s) == v.n
  {
    match v
    case Absent => "undefined"
    case Flag(b) => if b then "true" else "false"
    case Num(n) => Decimal.IntRoundTrip(n); Decimal.IntToString(n)
    case Text(t) => t
  }
}
