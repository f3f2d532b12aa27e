/** The enum branch of `computeElementsPositions`, after dagre has run: table
    nodes keep dagre's position (converted from centre to top-left), and the
    enums are packed into columns, tallest first, each column a vertical
    stack. The first column starts eight horizontal gaps right of the
    rightmost table's left edge, which clears the tables only when they are
    narrow (see `EnumOverlapsWideTable`). dagre's node list is an input. */
module EnumLayout {
  import opened Common
  import opened JsMap
  import opened EnumSort
  import opened EnumColumns

  /** A laid-out dagre node: its id, centre and size. */
  datatype DagreNode = DagreNode(id: string, cx: real, cy: real, width: real, height: real)

  /** An enum of the schema: its name, its number of values and the width of
      its detail box (`computeEnumDetailBoxMaxW`, not part of this model). */
  datatype EnumNode = EnumNode(name: string, valueCount: nat, detailBoxW: real)

  /** dagre's centre converted to the top-left corner. */
  function TopLeft(n: DagreNode): XY {
    XY(n.cx - n.width / 2.0, n.cy - n.height / 2.0)
  }

  predicate IsEnum(enums: seq<EnumNode>, id: string) {
    exists i :: 0 <= i < |enums| && enums[i].name == id
  }

  /** The `tablePositions.set` calls of the node loop, in node order. */
  function TableEntries(nodes: seq<DagreNode>, enums: seq<EnumNode>): (r: Entries<XY>)
    ensures forall k :: 0 <= k < |r| ==> !IsEnum(enums, r[k].0)
  {
    if nodes == [] then []
    else
      var n := nodes[|nodes| - 1];
      TableEntries(nodes[..|nodes| - 1], enums) + (if IsEnum(enums, n.id) then [] else [(n.id, TopLeft(n))])
  }

  function TablePositions(nodes: seq<DagreNode>, enums: seq<EnumNode>): Entries<XY> {
    FromEntries(TableEntries(nodes, enums))
  }

  function EnumWidth(e: EnumNode): (w: real)
    ensures w >= 200.0 && w >= e.detailBoxW + 64.0
  {
    Max(e.detailBoxW + 64.0, 200.0)
  }

  function EnumHeight(e: EnumNode): (h: real)
    ensures h >= 120.0 && h >= 60.0 + 28.0 * e.valueCount as real
  {
    Max(60.0 + 28.0 * e.valueCount as real, 120.0)
  }

  /** The `enumSizes.set` calls, in enum order. */
  function SizeEntries(enums: seq<EnumNode>): (r: Entries<(real, real)>)
    ensures |r| == |enums|
    ensures forall i :: 0 <= i < |enums| ==> r[i] == (enums[i].name, (EnumWidth(enums[i]), EnumHeight(enums[i])))
  {
    if enums == [] then []
    else SizeEntries(enums[..|enums| - 1]) + [(enums[|enums| - 1].name, (EnumWidth(enums[|enums| - 1]), EnumHeight(enums[|enums| - 1])))]
  }

  /** `enumEntries`: each enum with the size the size map holds for its name;
      an enum whose name the map lacks would be filtered out. */
  function SizedEntries(enums: seq<EnumNode>, sizes: Entries<(real, real)>): seq<Sized>
  {
    if enums == [] then []
    else
      var e := enums[|enums| - 1];
      var s := Get(sizes, e.name);
      SizedEntries(enums[..|enums| - 1], sizes) + (if s.Some? then [Sized(e.name, s.value.0, s.value.1)] else [])
  }

  function EnumEntries(enums: seq<EnumNode>): seq<Sized> {
    SizedEntries(enums, FromEntries(SizeEntries(enums)))
  }

  /** `Math.max(...s, d)`. */
  function MaxOr(s: seq<real>, d: real): (r: real)
    ensures r >= d && forall i :: 0 <= i < |s| ==> r >= s[i]
  {
    if s == [] then d else Max(MaxOr(s[..|s| - 1], d), s[|s| - 1])
  }

  /** `Math.min(...s)` of a non-empty list. */
  function MinOf(s: seq<real>): (r: real)
    requires s != []
    ensures forall i :: 0 <= i < |s| ==> r <= s[i]
    ensures exists i :: 0 <= i < |s| && r == s[i]
  {
    if |s| == 1 then s[0]
    else
      var m := MinOf(s[..|s| - 1]);
      assert forall i :: 0 <= i < |s| - 1 ==> s[..|s| - 1][i] == s[i];
      Min(m, s[|s| - 1])
  }

  function Xs(m: Entries<XY>): (r: seq<real>)
    ensures |r| == |m| && forall i :: 0 <= i < |m| ==> r[i] == m[i].1.x
  {
    if m == [] then [] else Xs(m[..|m| - 1]) + [m[|m| - 1].1.x]
  }

  function Ys(m: Entries<XY>): (r: seq<real>)
    ensures |r| == |m| && forall i :: 0 <= i < |m| ==> r[i] == m[i].1.y
  {
    if m == [] then [] else Ys(m[..|m| - 1]) + [m[|m| - 1].1.y]
  }

  function Widths(s: seq<Sized>): (r: seq<real>)
    ensures |r| == |s| && forall i :: 0 <= i < |s| ==> r[i] == s[i].width
  {
    if s == [] then [] else Widths(s[..|s| - 1]) + [s[|s| - 1].width]
  }

  /** `Math.ceil` on a real. */
  function Ceil(r: real): (n: int)
    ensures r <= n as real < r + 1.0
  {
    if r.Floor as real == r then r.Floor else r.Floor + 1
  }

  /** `maxColumnHeight`: 90% of the estimated available height, at least 600. */
  function MaxColumnHeight(tableYs: seq<real>, totalHeight: real): (r: real)
    ensures r >= 600.0
  {
    var available := if |tableYs| > 0 then MaxOr(tableYs[1..], tableYs[0]) * 2.0 else Max(totalHeight, 800.0);
    Max(available * 0.9, 600.0)
  }

  /** `columns`: one, unless the stacked height exceeds the column height. */
  function ColumnCount(totalHeight: real, maxColumnHeight: real): (c: nat)
    requires maxColumnHeight > 0.0
    ensures c >= 1
    ensures c == 1 <==> totalHeight <= maxColumnHeight
    ensures totalHeight <= c as real * maxColumnHeight
    ensures c > 1 ==> (c - 1) as real * maxColumnHeight < totalHeight
  {
    if totalHeight > maxColumnHeight then
      var c := Ceil(totalHeight / maxColumnHeight);
      CeilBounds(totalHeight, maxColumnHeight, c);
      c
    else 1
  }

  lemma CeilBounds(t: real, m: real, c: int)
    requires m > 0.0 && t > m
    requires t / m <= c as real < t / m + 1.0
    ensures c >= 2
    ensures t <= (c as real) * m && ((c - 1) as real) * m < t
  {
    var q := t / m;
    assert q * m == t;
    assert q > 1.0 by {
      if q <= 1.0 {
        MulMono(q, 1.0, m);
      }
    }
    MulMono(q, c as real, m);
    var d := c as real - 1.0;
    MulStrict(d, q, m);
    calc {
      d * m;
    <
      q * m;
    ==
      t;
    }
  }

  lemma MulMono(a: real, b: real, m: real)
    requires a <= b && m >= 0.0
    ensures a * m <= b * m
  {
  }

  lemma MulStrict(a: real, b: real, m: real)
    requires a < b && m > 0.0
    ensures a * m < b * m
  {
  }

  /** The positions of one column: stacked from `startY`, each top one gap
      below the previous box. */
  function ColumnPlacement(col: seq<Sized>, colX: real, startY: real, gap: real): (r: Entries<XY>)
    ensures |r| == |col|
  {
    seq(|col|, k requires 0 <= k < |col| => (col[k].name, XY(colX, startY + gap + StackHeight(col[..k], gap))))
  }

  /** The placements of the first `n` columns, column by column. */
  function Placements(cols: seq<seq<Sized>>, n: nat, x0: real, stride: real, startY: real, gap: real): Entries<XY>
    requires n <= |cols|
  {
    if n == 0 then []
    else Placements(cols, n - 1, x0, stride, startY, gap) + ColumnPlacement(cols[n - 1], x0 + (n - 1) as real * stride, startY, gap)
  }

  /** The layout quantities the placement reads. */
  datatype Frame = Frame(columns: nat, x0: real, stride: real, startY: real, gap: real, maxEnumWidth: real)

  function LayoutFrame(tables: Entries<XY>, entries: seq<Sized>, sz: Sizing): (f: Frame)
    ensures f.columns >= 1
    ensures f.maxEnumWidth >= 200.0 && forall i :: 0 <= i < |entries| ==> f.maxEnumWidth >= entries[i].width
    ensures sz.tablesGapX >= 0.0 ==> f.stride >= f.maxEnumWidth
  {
    var gap := sz.tablesGapY * 1.2;
    var total := StackHeight(entries, gap);
    var ys := Ys(tables);
    var columns := ColumnCount(total, MaxColumnHeight(ys, total));
    var maxW := MaxOr(Widths(entries), 200.0);
    var startY := if |ys| > 0 then MinOf(ys) - sz.tablesGapY * 2.0 else sz.tablesGapY * 2.0;
    Frame(columns, MaxOr(Xs(tables), 0.0) + sz.tablesGapX * 8.0, maxW + sz.tablesGapX * 3.0, startY, gap, maxW)
  }

  /** The enum placements, in column order, with the first column at `x0`. */
  function EnumPlacements(tables: Entries<XY>, entries: seq<Sized>, sz: Sizing, x0: real): Entries<XY> {
    var f := LayoutFrame(tables, entries, sz);
    var cols := Distribute(SortDesc(entries), f.columns, f.gap).0;
    Placements(cols, f.columns, x0, f.stride, f.startY, f.gap)
  }

  /** The map the enum branch returns: every enum placement in column order,
      then every table position. */
  function Layout(nodes: seq<DagreNode>, enums: seq<EnumNode>, sz: Sizing): Entries<XY> {
    var tables := TablePositions(nodes, enums);
    var entries := EnumEntries(enums);
    var f := LayoutFrame(tables, entries, sz);
    FromEntries(EnumPlacements(tables, entries, sz, f.x0) + tables)
  }

  /** The right edge of every table node, in node order. */
  function TableRightEdges(nodes: seq<DagreNode>, enums: seq<EnumNode>): (r: seq<real>)
    ensures forall i :: 0 <= i < |nodes| && !IsEnum(enums, nodes[i].id) ==> TopLeft(nodes[i]).x + nodes[i].width in r
  {
    if nodes == [] then []
    else
      var n := nodes[|nodes| - 1];
      var r := TableRightEdges(nodes[..|nodes| - 1], enums) + (if IsEnum(enums, n.id) then [] else [TopLeft(n).x + n.width]);
      assert forall i :: 0 <= i < |nodes| - 1 ==> nodes[..|nodes| - 1][i] == nodes[i];
      r
  }

  /** The first enum column the comment on the post-processing step promises,
      "to the right of tables so they don't overlap": eight horizontal gaps
      past the rightmost table edge rather than the rightmost left edge. */
  function IntendedX0(nodes: seq<DagreNode>, enums: seq<EnumNode>, sz: Sizing): real {
    MaxOr(TableRightEdges(nodes, enums), 0.0) + sz.tablesGapX * 8.0
  }

  function IntendedLayout(nodes: seq<DagreNode>, enums: seq<EnumNode>, sz: Sizing): Entries<XY> {
    var tables := TablePositions(nodes, enums);
    FromEntries(EnumPlacements(tables, EnumEntries(enums), sz, IntendedX0(nodes, enums, sz)) + tables)
  }

  /** True when two boxes share interior points. */
  predicate BoxesOverlap(a: Box, b: Box) {
    a.x < b.x + b.width && b.x < a.x + a.width && a.y < b.y + b.height && b.y < a.y + a.height
  }

  // ---------------------------------------------------------------- lemmas

  /** Every enum yields exactly one entry, in order, with the size recorded
      for its name (the last enum of that name decides it). */
  lemma {:induction false} EnumEntriesComplete(enums: seq<EnumNode>, sizes: Entries<(real, real)>)
    requires forall i :: 0 <= i < |enums| ==> Has(sizes, enums[i].name)
    ensures |SizedEntries(enums, sizes)| == |enums|
    ensures forall i :: 0 <= i < |enums| ==>
      && SizedEntries(enums, sizes)[i].name == enums[i].name
      && (SizedEntries(enums, sizes)[i].width, SizedEntries(enums, sizes)[i].height) == Get(sizes, enums[i].name).value
  {
    if enums != [] {
      var n := |enums| - 1;
      EnumEntriesComplete(enums[..n], sizes);
    }
  }

  lemma {:induction false} LastValueOfKey<V>(s: Entries<V>, i: nat)
    requires i < |s|
    ensures LastValue(s, s[i].0).Some?
  {
    if i < |s| - 1 {
      LastValueOfKey(s[..|s| - 1], i);
    }
  }

  /** Every enum box is at least 200 wide and 120 tall, and every enum of
      the schema is packed. */
  lemma EnumBoxes(enums: seq<EnumNode>)
    ensures |EnumEntries(enums)| == |enums|
    ensures forall i :: 0 <= i < |enums| ==> EnumEntries(enums)[i].name == enums[i].name
    ensures forall e :: e in EnumEntries(enums) ==> e.width >= 200.0 && e.height >= 120.0
  {
    var se := SizeEntries(enums);
    var sizes := FromEntries(se);
    forall i | 0 <= i < |enums|
      ensures Has(sizes, enums[i].name)
    {
      HasFromEntries(se, i);
    }
    EnumEntriesComplete(enums, sizes);
    forall i | 0 <= i < |enums|
      ensures EnumEntries(enums)[i].width >= 200.0 && EnumEntries(enums)[i].height >= 120.0
    {
      GetFromEntries(se, enums[i].name);
      LastValueSizes(se, enums[i].name);
    }
  }

  lemma {:induction false} LastValueSizes(s: Entries<(real, real)>, k: string)
    requires forall i :: 0 <= i < |s| ==> s[i].1.0 >= 200.0 && s[i].1.1 >= 120.0
    ensures LastValue(s, k).Some? ==> LastValue(s, k).value.0 >= 200.0 && LastValue(s, k).value.1 >= 120.0
  {
    if s != [] {
      LastValueSizes(s[..|s| - 1], k);
    }
  }

  lemma {:induction false} LastValueConcat<V>(a: Entries<V>, b: Entries<V>, k: string)
    ensures LastValue(a + b, k) == if LastValue(b, k).Some? then LastValue(b, k) else LastValue(a, k)
  {
    if b != [] {
      var n := |b| - 1;
      assert (a + b)[..|a| + n] == a + b[..n];
      LastValueConcat(a, b[..n], k);
    } else {
      assert a + b == a;
    }
  }

  /** Table positions are written last: every name classified as a table
      keeps dagre's top-left position. A name that an enum also bears is one
      dagre node, classified as an enum, so it is not among these names. */
  lemma TablesWin(nodes: seq<DagreNode>, enums: seq<EnumNode>, sz: Sizing, t: string)
    requires Has(TablePositions(nodes, enums), t)
    ensures Get(Layout(nodes, enums, sz), t) == Get(TablePositions(nodes, enums), t)
  {
    var tables := TablePositions(nodes, enums);
    var entries := EnumEntries(enums);
    var f := LayoutFrame(tables, entries, sz);
    var cols := Distribute(SortDesc(entries), f.columns, f.gap).0;
    var pl := Placements(cols, f.columns, f.x0, f.stride, f.startY, f.gap);
    GetFromEntries(pl + tables, t);
    LastValueConcat(pl, tables, t);
    FromEntriesNoDup(TableEntries(nodes, enums));
    LastValueUnique(tables, t);
  }

  /** A table node's position is its centre moved by half its size; enum
      nodes yield no table position. */
  lemma {:induction false} TableTopLeft(nodes: seq<DagreNode>, enums: seq<EnumNode>, i: nat)
    requires i < |nodes|
    requires forall j :: 0 <= j < |nodes| && j != i ==> nodes[j].id != nodes[i].id
    ensures Get(TablePositions(nodes, enums), nodes[i].id) ==
      if IsEnum(enums, nodes[i].id) then None else Some(TopLeft(nodes[i]))
  {
    GetFromEntries(TableEntries(nodes, enums), nodes[i].id);
    LastValueTableEntries(nodes, enums, i);
  }

  lemma {:induction false} LastValueTableEntries(nodes: seq<DagreNode>, enums: seq<EnumNode>, i: nat)
    requires i < |nodes|
    requires forall j :: 0 <= j < |nodes| && j != i ==> nodes[j].id != nodes[i].id
    ensures LastValue(TableEntries(nodes, enums), nodes[i].id) ==
      if IsEnum(enums, nodes[i].id) then None else Some(TopLeft(nodes[i]))
  {
    var n := |nodes| - 1;
    var prefix := TableEntries(nodes[..n], enums);
    var last := if IsEnum(enums, nodes[n].id) then [] else [(nodes[n].id, TopLeft(nodes[n]))];
    LastValueConcat(prefix, last, nodes[i].id);
    if i < n {
      LastValueTableEntries(nodes[..n], enums, i);
    } else {
      LastValueAbsent(nodes[..n], enums, nodes[i].id);
    }
  }

  lemma {:induction false} LastValueAbsent(nodes: seq<DagreNode>, enums: seq<EnumNode>, id: string)
    requires forall j :: 0 <= j < |nodes| ==> nodes[j].id != id
    ensures LastValue(TableEntries(nodes, enums), id).None?
  {
    if nodes != [] {
      var n := |nodes| - 1;
      LastValueAbsent(nodes[..n], enums, id);
      var last := if IsEnum(enums, nodes[n].id) then [] else [(nodes[n].id, TopLeft(nodes[n]))];
      LastValueConcat(TableEntries(nodes[..n], enums), last, id);
    }
  }

  lemma {:induction false} FlattenMember(cols: seq<seq<Sized>>, e: Sized)
    requires e in Flatten(cols)
    ensures exists ci, k :: 0 <= ci < |cols| && 0 <= k < |cols[ci]| && cols[ci][k] == e
  {
    if e !in cols[0] {
      FlattenMember(cols[1..], e);
      var ci, k :| 0 <= ci < |cols[1..]| && 0 <= k < |cols[1..][ci]| && cols[1..][ci][k] == e;
      assert cols[ci + 1][k] == e;
    } else {
      var k :| 0 <= k < |cols[0]| && cols[0][k] == e;
    }
  }

  lemma {:induction false} PlacementsCover(cols: seq<seq<Sized>>, n: nat, x0: real, stride: real, startY: real, gap: real, ci: nat, k: nat)
    requires ci < n <= |cols| && k < |cols[ci]|
    ensures exists j ::
      && 0 <= j < |Placements(cols, n, x0, stride, startY, gap)|
      && Placements(cols, n, x0, stride, startY, gap)[j].0 == cols[ci][k].name
  {
    var prev := Placements(cols, n - 1, x0, stride, startY, gap);
    var column := ColumnPlacement(cols[n - 1], x0 + (n - 1) as real * stride, startY, gap);
    assert Placements(cols, n, x0, stride, startY, gap) == prev + column;
    if ci == n - 1 {
      assert column[k].0 == cols[ci][k].name;
      assert (prev + column)[|prev| + k] == column[k];
    } else {
      PlacementsCover(cols, n - 1, x0, stride, startY, gap, ci, k);
      var j :| 0 <= j < |prev| && prev[j].0 == cols[ci][k].name;
      assert (prev + column)[j] == prev[j];
    }
  }

  /** Every distributed entry has a placement. */
  lemma DistributedPlaced(entries: seq<Sized>, f: Frame, i: nat)
    requires f.columns >= 1 && i < |entries|
    ensures exists j ::
      && 0 <= j < |Placements(Distribute(SortDesc(entries), f.columns, f.gap).0, f.columns, f.x0, f.stride, f.startY, f.gap)|
      && Placements(Distribute(SortDesc(entries), f.columns, f.gap).0, f.columns, f.x0, f.stride, f.startY, f.gap)[j].0 == entries[i].name
  {
    var sorted := SortDesc(entries);
    var cols := Distribute(sorted, f.columns, f.gap).0;
    var e := entries[i];
    SortDescCorrect(entries);
    DistributePermutes(sorted, f.columns, f.gap);
    assert e in multiset(entries);
    assert e in multiset(Flatten(cols));
    FlattenMember(cols, e);
    var ci, k :| 0 <= ci < |cols| && 0 <= k < |cols[ci]| && cols[ci][k] == e;
    PlacementsCover(cols, f.columns, f.x0, f.stride, f.startY, f.gap, ci, k);
  }

  /** A key written by some entry is present after `Object.fromEntries`. */
  lemma HasFromEntries<V>(s: Entries<V>, j: nat)
    requires j < |s|
    ensures Has(FromEntries(s), s[j].0)
  {
    LastValueOfKey(s, j);
    GetFromEntries(s, s[j].0);
  }

  /** Every enum of the schema receives a position. */
  lemma EnumsPlaced(nodes: seq<DagreNode>, enums: seq<EnumNode>, sz: Sizing, i: nat)
    requires i < |enums|
    ensures Has(Layout(nodes, enums, sz), enums[i].name)
  {
    var tables := TablePositions(nodes, enums);
    var entries := EnumEntries(enums);
    var f := LayoutFrame(tables, entries, sz);
    var pl := Placements(Distribute(SortDesc(entries), f.columns, f.gap).0, f.columns, f.x0, f.stride, f.startY, f.gap);
    assert Layout(nodes, enums, sz) == FromEntries(pl + tables);
    assert i < |entries| && entries[i].name == enums[i].name by {
      EnumBoxes(enums);
    }
    assert exists j :: 0 <= j < |pl| && pl[j].0 == enums[i].name by {
      DistributedPlaced(entries, f, i);
    }
    var j :| 0 <= j < |pl| && pl[j].0 == enums[i].name;
    assert (pl + tables)[j] == pl[j];
    HasFromEntries(pl + tables, j);
  }

  /** Within a column, each enum's top is the previous top plus the previous
      height plus the gap. */
  lemma ColumnStacking(col: seq<Sized>, colX: real, startY: real, gap: real, k: nat)
    requires k + 1 < |col|
    ensures ColumnPlacement(col, colX, startY, gap)[k + 1].1.y ==
            ColumnPlacement(col, colX, startY, gap)[k].1.y + col[k].height + gap
  {
    assert col[..k + 1][..k] == col[..k];
  }

  lemma {:induction false} StackHeightGrows(col: seq<Sized>, gap: real, k: nat, l: nat)
    requires k < l <= |col| && gap >= 0.0
    requires forall e :: e in col ==> e.height >= 0.0
    ensures StackHeight(col[..l], gap) >= StackHeight(col[..k], gap) + col[k].height + gap
  {
    assert col[..l][..l - 1] == col[..l - 1];
    if k < l - 1 {
      StackHeightGrows(col, gap, k, l - 1);
      assert col[l - 1] in col;
    } else {
      assert col[..k + 1][..k] == col[..k];
    }
  }

  /** Enums of one column never overlap: a later box starts at least one gap
      below the bottom of any earlier one. */
  lemma ColumnNoOverlap(col: seq<Sized>, colX: real, startY: real, gap: real, k: nat, l: nat)
    requires k < l < |col| && gap > 0.0
    requires forall e :: e in col ==> e.height >= 0.0
    ensures ColumnPlacement(col, colX, startY, gap)[l].1.y > ColumnPlacement(col, colX, startY, gap)[k].1.y + col[k].height
  {
    StackHeightGrows(col, gap, k, l);
  }

  /** Enums of different columns never overlap horizontally: the stride is at
      least the widest enum. */
  lemma ColumnsApart(f: Frame, ci: nat, cj: nat, w: real)
    requires ci < cj && 0.0 <= w <= f.maxEnumWidth <= f.stride
    ensures f.x0 + ci as real * f.stride + w <= f.x0 + cj as real * f.stride
  {
    assert cj as real * f.stride == ci as real * f.stride + (cj - ci) as real * f.stride;
    MulMono(1.0, (cj - ci) as real, f.stride);
  }

  /** With a non-negative stride no placement lies left of the first column. */
  lemma {:induction false} PlacementsXAtLeast(cols: seq<seq<Sized>>, n: nat, x0: real, stride: real, startY: real, gap: real)
    requires n <= |cols| && stride >= 0.0
    ensures forall j :: 0 <= j < |Placements(cols, n, x0, stride, startY, gap)| ==>
      Placements(cols, n, x0, stride, startY, gap)[j].1.x >= x0
  {
    if n > 0 {
      PlacementsXAtLeast(cols, n - 1, x0, stride, startY, gap);
      MulMono(0.0, (n - 1) as real, stride);
      var prev := Placements(cols, n - 1, x0, stride, startY, gap);
      var column := ColumnPlacement(cols[n - 1], x0 + (n - 1) as real * stride, startY, gap);
      assert Placements(cols, n, x0, stride, startY, gap) == prev + column;
    }
  }

  /** As written, every enum lies at least eight horizontal gaps right of
      every table's left edge; the tables' widths play no part. */
  lemma EnumsRightOfTableCorners(nodes: seq<DagreNode>, enums: seq<EnumNode>, sz: Sizing, i: nat)
    requires sz.tablesGapX >= 0.0 && i < |nodes| && !IsEnum(enums, nodes[i].id)
    requires forall j :: 0 <= j < |nodes| && j != i ==> nodes[j].id != nodes[i].id
    ensures var tables := TablePositions(nodes, enums);
      var entries := EnumEntries(enums);
      var pl := EnumPlacements(tables, entries, sz, LayoutFrame(tables, entries, sz).x0);
      forall j :: 0 <= j < |pl| ==> pl[j].1.x >= TopLeft(nodes[i]).x + sz.tablesGapX * 8.0
  {
    var tables := TablePositions(nodes, enums);
    var entries := EnumEntries(enums);
    var f := LayoutFrame(tables, entries, sz);
    TableTopLeft(nodes, enums, i);
    var m :| 0 <= m < |tables| && tables[m] == (nodes[i].id, TopLeft(nodes[i]));
    assert Xs(tables)[m] == TopLeft(nodes[i]).x;
    PlacementsXAtLeast(Distribute(SortDesc(entries), f.columns, f.gap).0, f.columns, f.x0, f.stride, f.startY, f.gap);
  }

  /** As intended, every enum lies at least eight horizontal gaps right of
      every table's right edge, so no enum overlaps a table. */
  lemma IntendedEnumsClearTables(nodes: seq<DagreNode>, enums: seq<EnumNode>, sz: Sizing, i: nat)
    requires sz.tablesGapX >= 0.0 && i < |nodes| && !IsEnum(enums, nodes[i].id)
    ensures var pl := EnumPlacements(TablePositions(nodes, enums), EnumEntries(enums), sz, IntendedX0(nodes, enums, sz));
      forall j :: 0 <= j < |pl| ==> pl[j].1.x >= TopLeft(nodes[i]).x + nodes[i].width + sz.tablesGapX * 8.0
  {
    var tables := TablePositions(nodes, enums);
    var entries := EnumEntries(enums);
    var f := LayoutFrame(tables, entries, sz);
    var edges := TableRightEdges(nodes, enums);
    var m :| 0 <= m < |edges| && edges[m] == TopLeft(nodes[i]).x + nodes[i].width;
    PlacementsXAtLeast(Distribute(SortDesc(entries), f.columns, f.gap).0, f.columns, IntendedX0(nodes, enums, sz), f.stride, f.startY, f.gap);
  }

  /** A 400-wide table with its top-left corner at the origin, and an enum. */
  function WideTableNodes(): seq<DagreNode> {
    [DagreNode("t", 200.0, 100.0, 400.0, 200.0), DagreNode("e", 100.0, 400.0, 200.0, 120.0)]
  }

  function OneValueEnum(): seq<EnumNode> {
    [EnumNode("e", 1, 0.0)]
  }

  function TenPixelGaps(): Sizing {
    Sizing(10.0, 10.0, 200.0, 40.0, 30.0, 6.0, 8.0)
  }

  lemma WideTableParts()
    ensures TablePositions(WideTableNodes(), OneValueEnum()) == [("t", XY(0.0, 0.0))]
    ensures EnumEntries(OneValueEnum()) == [Sized("e", 200.0, 120.0)]
  {
    var nodes := WideTableNodes();
    var enums := OneValueEnum();
    assert |enums| == 1 && enums[0].name == "e";
    assert IsEnum(enums, "e") && !IsEnum(enums, "t");
    assert nodes[..1][..0] == [];
    assert TableEntries(nodes, enums) == [("t", XY(0.0, 0.0))];
    var t: Entries<XY> := [("t", XY(0.0, 0.0))];
    assert t[..0] == [];
    var se := SizeEntries(enums);
    assert se == [("e", (200.0, 120.0))];
    assert se[..0] == [];
    assert FromEntries(se) == se;
    assert enums[..0] == [];
  }

  lemma WideTableFrame()
    ensures var f := LayoutFrame([("t", XY(0.0, 0.0))], [Sized("e", 200.0, 120.0)], TenPixelGaps());
      f.columns == 1 && f.x0 == 80.0 && f.startY == -20.0 && f.gap == 12.0
  {
    var tables: Entries<XY> := [("t", XY(0.0, 0.0))];
    var entries := [Sized("e", 200.0, 120.0)];
    assert entries[..0] == [] && tables[..0] == [];
    assert StackHeight(entries, 12.0) == 132.0;
    assert Ys(tables) == [0.0] && Xs(tables) == [0.0];
  }

  lemma WideTablePlacements(stride: real)
    ensures var e := Sized("e", 200.0, 120.0);
      && SortDesc([e]) == [e]
      && Distribute([e], 1, 12.0).0 == [[e]]
      && Placements([[e]], 1, 80.0, stride, -20.0, 12.0) == [("e", XY(80.0, -8.0))]
  {
    var e := Sized("e", 200.0, 120.0);
    assert [e][..0] == [];
    assert EmptyColumns(1) == [[]] && MinIndex(ZeroHeights(1)) == 0;
    assert [] + [e] == [e];
    assert EmptyColumns(1)[0 := [e]] == [[e]];
  }

  lemma WideTableLayout()
    ensures Layout(WideTableNodes(), OneValueEnum(), TenPixelGaps()) == FromEntries([("e", XY(80.0, -8.0)), ("t", XY(0.0, 0.0))])
  {
    var nodes := WideTableNodes();
    var enums := OneValueEnum();
    var sz := TenPixelGaps();
    WideTableParts();
    WideTableFrame();
    var tables := TablePositions(nodes, enums);
    var entries := EnumEntries(enums);
    var e := Sized("e", 200.0, 120.0);
    assert tables == [("t", XY(0.0, 0.0))] && entries == [e];
    var f := LayoutFrame(tables, entries, sz);
    assert f.columns == 1 && f.x0 == 80.0 && f.startY == -20.0 && f.gap == 12.0;
    WideTablePlacements(f.stride);
    var cols := Distribute(SortDesc(entries), f.columns, f.gap).0;
    assert cols == [[e]];
    assert EnumPlacements(tables, entries, sz, f.x0) == [("e", XY(80.0, -8.0))];
    assert Layout(nodes, enums, sz) == FromEntries(EnumPlacements(tables, entries, sz, f.x0) + tables);
    assert [("e", XY(80.0, -8.0))] + tables == [("e", XY(80.0, -8.0)), ("t", XY(0.0, 0.0))];
  }

  /** The overlap, on a table 400 wide with gaps of 10: the one-value enum
      (200 by 120) lands at (80, -8), inside the table's box, while the
      intended first column starts at 480. */
  lemma EnumOverlapsWideTable()
    ensures Get(Layout(WideTableNodes(), OneValueEnum(), TenPixelGaps()), "e") == Some(XY(80.0, -8.0))
    ensures Get(Layout(WideTableNodes(), OneValueEnum(), TenPixelGaps()), "t") == Some(XY(0.0, 0.0))
    ensures BoxesOverlap(Box(80.0, -8.0, 200.0, 120.0), Box(0.0, 0.0, 400.0, 200.0))
    ensures IntendedX0(WideTableNodes(), OneValueEnum(), TenPixelGaps()) == 480.0
  {
    WideTableLayout();
    WideTableLookups();
    WideTableIntendedX0();
  }

  lemma WideTableLookups()
    ensures var m := FromEntries([("e", XY(80.0, -8.0)), ("t", XY(0.0, 0.0))]);
      Get(m, "e") == Some(XY(80.0, -8.0)) && Get(m, "t") == Some(XY(0.0, 0.0))
  {
    var all := [("e", XY(80.0, -8.0)), ("t", XY(0.0, 0.0))];
    FromEntriesOfUnique(all);
    assert Get(all, "e") == Some(XY(80.0, -8.0)) && Get(all, "t") == Some(XY(0.0, 0.0)) by {
      assert all[1..] == [("t", XY(0.0, 0.0))];
    }
  }

  lemma WideTableIntendedX0()
    ensures IntendedX0(WideTableNodes(), OneValueEnum(), TenPixelGaps()) == 480.0
  {
    var nodes := WideTableNodes();
    var enums := OneValueEnum();
    assert |enums| == 1 && enums[0].name == "e";
    assert IsEnum(enums, "e") && !IsEnum(enums, "t");
    assert nodes[..1][..0] == [] && nodes[..1] == [nodes[0]];
    assert TableRightEdges(nodes[..1], enums) == [400.0];
    assert TableRightEdges(nodes, enums) == [400.0];
    assert [400.0][..0] == [];
  }

  // --------------------------------------------------------------- methods

  /** The node loop: top-left positions of the table nodes. */
  method SplitNodes(nodes: seq<DagreNode>, enums: seq<EnumNode>) returns (tablePositions: Entries<XY>)
    ensures tablePositions == TablePositions(nodes, enums)
  {
    tablePositions := [];
    ghost var acc: Entries<XY> := [];
    var i := 0;
    while i < |nodes|
      invariant 0 <= i <= |nodes|
      invariant acc == TableEntries(nodes[..i], enums)
      invariant tablePositions == FromEntries(acc)
    {
      var node := nodes[i];
      assert nodes[..i + 1][..i] == nodes[..i];
      var isEnum := exists j :: 0 <= j < |enums| && enums[j].name == node.id;
      if !isEnum {
        var pos := XY(node.cx - node.width / 2.0, node.cy - node.height / 2.0);
        FromEntriesSnoc(acc, (node.id, pos));
        tablePositions := Set(tablePositions, node.id, pos);
        acc := acc + [(node.id, pos)];
      } else {
        assert acc + [] == acc;
      }
      i := i + 1;
    }
    assert nodes[..|nodes|] == nodes;
  }

  lemma FromEntriesSnoc<V>(acc: Entries<V>, p: (string, V))
    ensures FromEntries(acc + [p]) == Set(FromEntries(acc), p.0, p.1)
  {
    assert (acc + [p])[..|acc|] == acc;
  }

  lemma StackStep(col: seq<Sized>, k: nat, gap: real)
    requires k < |col|
    ensures StackHeight(col[..k + 1], gap) == StackHeight(col[..k], gap) + col[k].height + gap
  {
    assert col[..k + 1][..k] == col[..k];
  }

  /** The inner column loop: a running `yCursor` from `startY`, each enum set
      at the cursor plus the gap. */
  method PlaceColumn(col: seq<Sized>, colX: real, startY: real, gap: real, ghost done: Entries<XY>, positions0: Entries<XY>)
    returns (positions: Entries<XY>)
    requires positions0 == FromEntries(done)
    ensures positions == FromEntries(done + ColumnPlacement(col, colX, startY, gap))
  {
    positions := positions0;
    var yCursor := startY;
    ghost var column := ColumnPlacement(col, colX, startY, gap);
    var k := 0;
    assert done + column[..0] == done;
    while k < |col|
      invariant 0 <= k <= |col|
      invariant yCursor == startY + StackHeight(col[..k], gap)
      invariant positions == FromEntries(done + column[..k])
    {
      var entry := col[k];
      ghost var y0 := yCursor;
      yCursor := yCursor + entry.height / 2.0 + gap;
      var centerX := colX + entry.width / 2.0;
      var pos := XY(centerX - entry.width / 2.0, yCursor - entry.height / 2.0);
      assert (entry.name, pos) == column[k];
      assert Set(positions, entry.name, pos) == FromEntries(done + column[..k + 1]) by {
        FromEntriesSnoc(done + column[..k], column[k]);
        assert done + column[..k + 1] == (done + column[..k]) + [column[k]];
      }
      positions := Set(positions, entry.name, pos);
      yCursor := yCursor + entry.height / 2.0;
      assert yCursor == y0 + entry.height + gap;
      StackStep(col, k, gap);
      k := k + 1;
    }
    assert column[..|col|] == column;
  }

  lemma PlacementsSnoc(cols: seq<seq<Sized>>, n: nat, x0: real, stride: real, startY: real, gap: real)
    requires n < |cols|
    ensures Placements(cols, n + 1, x0, stride, startY, gap)
      == Placements(cols, n, x0, stride, startY, gap) + ColumnPlacement(cols[n], x0 + n as real * stride, startY, gap)
  {
  }

  /** One turn of the outer column loop: the column at index `ci` is placed
      `ci` strides to the right of the first. */
  method PlaceNextColumn(cols: seq<seq<Sized>>, ci: nat, x0: real, stride: real, startY: real, gap: real, positions0: Entries<XY>)
    returns (positions: Entries<XY>)
    requires ci < |cols|
    requires positions0 == FromEntries(Placements(cols, ci, x0, stride, startY, gap))
    ensures positions == FromEntries(Placements(cols, ci + 1, x0, stride, startY, gap))
  {
    PlacementsSnoc(cols, ci, x0, stride, startY, gap);
    positions := PlaceColumn(cols[ci], x0 + ci as real * stride, startY, gap, Placements(cols, ci, x0, stride, startY, gap), positions0);
  }

  /** The outer column loop, one column after the other. */
  method PlaceColumns(cols: seq<seq<Sized>>, x0: real, stride: real, startY: real, gap: real)
    returns (positions: Entries<XY>)
    ensures positions == FromEntries(Placements(cols, |cols|, x0, stride, startY, gap))
  {
    positions := [];
    var ci := 0;
    while ci < |cols|
      invariant 0 <= ci <= |cols|
      invariant positions == FromEntries(Placements(cols, ci, x0, stride, startY, gap))
    {
      positions := PlaceNextColumn(cols, ci, x0, stride, startY, gap, positions);
      ci := ci + 1;
    }
  }

  /** The `enumSizes` loop. */
  method EnumSizes(enums: seq<EnumNode>) returns (enumSizes: Entries<(real, real)>)
    ensures enumSizes == FromEntries(SizeEntries(enums))
  {
    enumSizes := [];
    var i := 0;
    while i < |enums|
      invariant 0 <= i <= |enums|
      invariant enumSizes == FromEntries(SizeEntries(enums[..i]))
    {
      assert enums[..i + 1][..i] == enums[..i];
      assert SizeEntries(enums[..i + 1]) == SizeEntries(enums[..i]) + [(enums[i].name, (EnumWidth(enums[i]), EnumHeight(enums[i])))];
      FromEntriesSnoc(SizeEntries(enums[..i]), (enums[i].name, (EnumWidth(enums[i]), EnumHeight(enums[i]))));
      enumSizes := Set(enumSizes, enums[i].name, (EnumWidth(enums[i]), EnumHeight(enums[i])));
      i := i + 1;
    }
    assert enums[..|enums|] == enums;
  }

  /** The final loop: every table position written over the placements. */
  method WriteTables(ghost placed: Entries<XY>, positions0: Entries<XY>, tablePositions: Entries<XY>)
    returns (positions: Entries<XY>)
    requires positions0 == FromEntries(placed)
    ensures positions == FromEntries(placed + tablePositions)
  {
    positions := positions0;
    var j := 0;
    assert placed + tablePositions[..0] == placed;
    while j < |tablePositions|
      invariant 0 <= j <= |tablePositions|
      invariant positions == FromEntries(placed + tablePositions[..j])
    {
      assert placed + tablePositions[..j + 1] == (placed + tablePositions[..j]) + [tablePositions[j]];
      FromEntriesSnoc(placed + tablePositions[..j], tablePositions[j]);
      positions := Set(positions, tablePositions[j].0, tablePositions[j].1);
      j := j + 1;
    }
    assert tablePositions[..|tablePositions|] == tablePositions;
  }

  /** The enum branch after dagre: split the nodes, size the enums, count and
      fill the columns, place them, then write the table positions. */
  method ComputeEnumLayout(nodes: seq<DagreNode>, enums: seq<EnumNode>, sz: Sizing) returns (positions: Entries<XY>)
    ensures positions == Layout(nodes, enums, sz)
  {
    var tablePositions := SplitNodes(nodes, enums);
    var enumSizes := EnumSizes(enums);
    var entries := SizedEntries(enums, enumSizes);
    var f := LayoutFrame(tablePositions, entries, sz);
    var sorted := SortDesc(entries);
    var cols := DistributeEnums(sorted, f.columns, f.gap);
    positions := PlaceColumns(cols, f.x0, f.stride, f.startY, f.gap);
    positions := WriteTables(Placements(cols, f.columns, f.x0, f.stride, f.startY, f.gap), positions, tablePositions);
  }
}
