/** Column configuration and what the table derives from it: the content
    of a body cell, the `left` offset of a sticky column, and the state of
    a sortable header's sort label.  `Node` stands for whatever a custom
    renderer produces (a React node). */
module Columns {
  import opened Values
  import Decimal
  import opened Sorting

  datatype Column<Node> = Column(
    key: Key,
    heading: string,
    sortable: bool,
    sticky: bool,
    width: Option<int>,
    render: Option<Row -> Node>)

  /** What a body cell shows: the renderer's output, or text. */
  datatype Cell<Node> = Custom(node: Node) | Plain(text: string)

  /** `renderCellValue(column, item)`: the renderer when the column has
      one; otherwise "Yes"/"No" for a boolean field and `String(value)` for
      anything else. */
  function RenderCellValue<Node>(column: Column<Node>, item: Row): (c: Cell<Node>)
    ensures column.render.Some? ==> c == Custom(column.render.value(item))
    ensures column.render.None? ==> c.Plain?
    ensures column.render.None? && Field(item, column.key).Flag? ==>
      c.text == (if Field(item, column.key).b then "Yes" else "No")
    ensures column.render.None? && Field(item, column.key).Num? ==>
      Decimal.IsDecimal(c.text) && Decimal.ParseInt(c.text) == Field(item, column.key).n
    ensures column.render.None? && Field(item, column.key).Text? ==>
      c.text == Field(item, column.key).s
    ensures column.render.None? && Field(item, column.key).Absent? ==>
      c.text == "undefined"
    ensures column.render.None? && !Field(item, column.key).Flag? ==>
      c.text == ValueToString(Field(item, column.key))
  {
    if column.render.Some? then Custom(column.render.value(item))
    else
      var value := Field(item, column.key);
      if value.Flag? then Plain(if value.b then "Yes" else "No")
      else Plain(ValueToString(value))
  }

  /** `column.width || 100`: a missing or zero width counts as 100. */
  function EffectiveWidth(width: Option<int>): (w: int)
    ensures w != 0
    ensures width.Some? && width.value != 0 ==> w == width.value
    ensures width.None? || width == Some(0) ==> w == 100
  {
    if width.Some? && width.value != 0 then width.value else 100
  }

  /** A cell's `left` style: `auto`, or a length in pixels. */
  datatype Left = Auto | Px(px: int)

  /** `left` of a header cell: `index * width` pixels for a sticky column,
      `auto` otherwise. */
  function HeaderLeft<Node>(column: Column<Node>, index: nat): (l: Left)
    ensures column.sticky <==> l.Px?
    ensures column.sticky ==> l.px == index * EffectiveWidth(column.width)
  {
    if column.sticky then Px(index * EffectiveWidth(column.width)) else Auto
  }

  /** `left` of a body cell: as in the header for a sticky column, `0`
      otherwise. */
  function BodyLeft<Node>(column: Column<Node>, index: nat): (l: Left)
    ensures l.Px?
    ensures column.sticky ==> l == HeaderLeft(column, index)
    ensures !column.sticky ==> l.px == 0
  {
    if column.sticky then Px(index * EffectiveWidth(column.width)) else Px(0)
  }

  /** The total width of the columns before `columns[i]`: where a sticky
      column would have to sit to start just right of them. */
  function PrecedingWidth<Node>(columns: seq<Column<Node>>, i: nat): int
    requires i <= |columns|
  {
    if i == 0 then 0 else PrecedingWidth(columns, i - 1) + EffectiveWidth(columns[i - 1].width)
  }

  /** The offset `index * width` is the width of the preceding columns
      exactly when these all have the column's own width (the case for a
      sticky first column); it does not look at the others' widths. */
  lemma {:induction false} UniformOffsetIsPrecedingWidth<Node>(columns: seq<Column<Node>>, i: nat)
    requires i < |columns| && columns[i].sticky
    requires forall j :: 0 <= j < i ==> EffectiveWidth(columns[j].width) == EffectiveWidth(columns[i].width)
    ensures HeaderLeft(columns[i], i) == Px(PrecedingWidth(columns, i))
  {
    PrecedingWidthUniform(columns, i, EffectiveWidth(columns[i].width));
  }

  lemma {:induction false} PrecedingWidthUniform<Node>(columns: seq<Column<Node>>, k: nat, w: int)
    requires k <= |columns|
    requires forall j :: 0 <= j < k ==> EffectiveWidth(columns[j].width) == w
    ensures PrecedingWidth(columns, k) == k * w
  {
    if k > 0 {
      PrecedingWidthUniform(columns, k - 1, w);
      assert k * w == (k - 1) * w + w;
    }
  }

  /** Two sticky columns, 300 then 50 pixels wide: the second is placed at
      50 pixels, inside the first. */
  lemma OffsetIgnoresOtherWidths(render: Option<Row -> int>)
    ensures var columns := [Column("todo", "Task", true, true, Some(300), render),
                            Column("userId", "User ID", true, true, Some(50), render)];
            HeaderLeft(columns[1], 1) == Px(50) && PrecedingWidth(columns, 1) == 300
  {
  }

  /** The state a sortable header gives its sort label: `active` when the
      table is sorted by this column, and the current direction (`asc`
      when unsorted). */
  datatype LabelState = LabelState(active: bool, direction: Direction)

  function SortLabel<Node>(cfg: Option<SortConfig>, column: Column<Node>): (s: LabelState)
    ensures s.active <==> cfg.Some? && cfg.value.key == column.key
    ensures cfg.Some? ==> s.direction == cfg.value.direction
    ensures cfg.None? ==> s.direction == Asc
  {
    LabelState(cfg.Some? && cfg.value.key == column.key,
               if cfg.Some? then cfg.value.direction else Asc)
  }

  /** After a click on a header, exactly the columns with the clicked key
      show an active label, all in the new direction; a second click on
      the same header turns that direction round. */
  lemma LabelAfterClick<Node>(cfg: Option<SortConfig>, clicked: Column<Node>, other: Column<Node>)
    ensures var after := Some(NextSortConfig(cfg, clicked.key));
            && SortLabel(after, clicked).active
            && (SortLabel(after, other).active <==> other.key == clicked.key)
            && SortLabel(after, other).direction == SortLabel(after, clicked).direction
            && SortLabel(Some(NextSortConfig(after, clicked.key)), clicked).direction
               != SortLabel(after, clicked).direction
  {
    ClickAgainFlips(cfg, clicked.key);
  }

  /** The footer text `1 - <showing> of <total>`. */
  function FooterText(showing: int, total: int): (s: string)
    ensures var a := Decimal.IntToString(showing);
            && |s| > 4 + |a| && s[..4] == "1 - "
            && Decimal.IsDecimal(s[4..4 + |a|]) && Decimal.ParseInt(s[4..4 + |a|]) == showing
    ensures var b := Decimal.IntToString(total);
            && |s| >= |b| && Decimal.IsDecimal(s[|s| - |b|..]) && Decimal.ParseInt(s[|s| - |b|..]) == total
    ensures var a, b := Decimal.IntToString(showing), Decimal.IntToString(total);
            && |s| == 4 + |a| + 4 + |b| && s[4 + |a|..|s| - |b|] == " of "
  {
    var a, b := Decimal.IntToString(showing), Decimal.IntToString(total);
    var s := "1 - " + a + " of " + b;
    assert s[4..4 + |a|] == a;
    assert s[|s| - |b|..] == b;
    assert s[4 + |a|..|s| - |b|] == " of ";
    Decimal.IntRoundTrip(showing);
    Decimal.IntRoundTrip(total);
    s
  }

  predicate NoSpace(s: string) {
    forall i :: 0 <= i < |s| ==> s[i] != ' '
  }

  lemma DecimalNoSpace(n: int)
    ensures NoSpace(Decimal.IntToString(n))
  {
  }

  lemma SpaceAfter(u: string, x: string)
    requires NoSpace(u)
    ensures (u + " " + x)[|u|] == ' '
    ensures forall i :: 0 <= i < |u| ==> (u + " " + x)[i] != ' '
  {
  }

  /** Text with no space ends where the first space begins. */
  lemma SplitAtSpace(u: string, v: string, x: string, y: string)
    requires NoSpace(u) && NoSpace(v)
    requires u + " " + x == v + " " + y
    ensures u == v && x == y
  {
    var l := u + " " + x;
    SpaceAfter(u, x);
    SpaceAfter(v, y);
    assert |u| == |v|;
    assert u == l[..|u|] && v == l[..|v|];
    assert x == l[|u| + 1..] && y == l[|v| + 1..];
  }

  /** The footer names both numbers: different counts or totals give
      different footers. */
  lemma FooterTail(showing: int, total: int)
    ensures FooterText(showing, total)[4..]
         == Decimal.IntToString(showing) + " " + ("of " + Decimal.IntToString(total))
  {
  }

  lemma FooterTextDetermines(showing: int, total: int, showing': int, total': int)
    ensures FooterText(showing, total) == FooterText(showing', total')
        <==> showing == showing' && total == total'
  {
    if FooterText(showing, total) == FooterText(showing', total') {
      FooterTextDecodes(showing, total, showing', total');
    }
  }

  lemma FooterTextDecodes(showing: int, total: int, showing': int, total': int)
    requires FooterText(showing, total) == FooterText(showing', total')
    ensures showing == showing' && total == total'
  {
    var a, b := Decimal.IntToString(showing), Decimal.IntToString(showing');
    var c, d := Decimal.IntToString(total), Decimal.IntToString(total');
    DecimalNoSpace(showing);
    DecimalNoSpace(showing');
    FooterTail(showing, total);
    FooterTail(showing', total');
    SplitAtSpace(a, b, "of " + c, "of " + d);
    assert c == ("of " + c)[3..] && d == ("of " + d)[3..];
    Decimal.IntRoundTrip(showing);
    Decimal.IntRoundTrip(showing');
    Decimal.IntRoundTrip(total);
    Decimal.IntRoundTrip(total');
  }
}
