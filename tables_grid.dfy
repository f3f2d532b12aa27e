/** `computeTablesPositions`: the deterministic row-major grid layout of the
    tables. The column count comes from `getColsNumber(tables.length)`, which
    is not part of this model; it is the parameter `cols`. The refs argument
    is ignored by the source and is not a parameter here. */
module TablesGrid {
  import opened Common
  import opened JsMap

  function ColWidth(sz: Sizing): real {
    sz.tableDefaultMinWidth + sz.tablesGapX
  }

  function RowHeight(sz: Sizing): real {
    sz.tableHeaderHeight + sz.columnHeight * 5.0 + sz.tablesGapY
  }

  /** The cell of the table at index `idx`: column `idx % cols`, row
      `floor(idx / cols)`. */
  function GridPos(idx: nat, cols: nat, sz: Sizing): XY
    requires cols >= 1
  {
    XY((idx % cols) as real * ColWidth(sz), (idx / cols) as real * RowHeight(sz))
  }

  /** The map the layout builds: `positions.set(name, cell)` replayed over the
      tables in order. */
  function Grid(tables: seq<string>, cols: nat, sz: Sizing): Entries<XY>
    requires cols >= 1
  {
    if tables == [] then []
    else
      var n := |tables| - 1;
      Set(Grid(tables[..n], cols, sz), tables[n], GridPos(n, cols, sz))
  }

  method ComputeTablesPositions(tables: seq<string>, cols: nat, sz: Sizing) returns (positions: Entries<XY>)
    requires cols >= 1
    ensures positions == Grid(tables, cols, sz)
  {
    positions := [];
    var idx := 0;
    while idx < |tables|
      invariant 0 <= idx <= |tables|
      invariant positions == Grid(tables[..idx], cols, sz)
    {
      assert tables[..idx + 1][..idx] == tables[..idx];
      positions := Set(positions, tables[idx], GridPos(idx, cols, sz));
      idx := idx + 1;
    }
    assert tables[..|tables|] == tables;
  }

  /** The index of the last occurrence of `name`, whose cell the map keeps. */
  function LastIndex(tables: seq<string>, name: string): (i: nat)
    requires name in tables
    ensures i < |tables| && tables[i] == name
    ensures forall j :: i < j < |tables| ==> tables[j] != name
  {
    if tables[|tables| - 1] == name then |tables| - 1 else LastIndex(tables[..|tables| - 1], name)
  }

  /** Every input table gets an entry, at the cell of its last index, and no
      other name gets one. */
  lemma {:induction false} GridGet(tables: seq<string>, cols: nat, sz: Sizing, name: string)
    requires cols >= 1
    ensures Get(Grid(tables, cols, sz), name) ==
      if name in tables then Some(GridPos(LastIndex(tables, name), cols, sz)) else None
  {
    if tables != [] {
      var n := |tables| - 1;
      GridGet(tables[..n], cols, sz, name);
      GetSet(Grid(tables[..n], cols, sz), tables[n], GridPos(n, cols, sz), name);
      if name != tables[n] {
        assert name in tables <==> name in tables[..n] by {
          if name in tables {
            var j :| 0 <= j < |tables| && tables[j] == name;
            assert tables[..n][j] == name;
          }
        }
      }
    }
  }

  /** The map is key-unique and lists the distinct table names in order of
      first appearance. */
  lemma {:induction false} GridKeys(tables: seq<string>, cols: nat, sz: Sizing)
    requires cols >= 1
    requires forall i, j :: 0 <= i < j < |tables| ==> tables[i] != tables[j]
    ensures Keys(Grid(tables, cols, sz)) == tables
  {
    if tables != [] {
      var n := |tables| - 1;
      GridKeys(tables[..n], cols, sz);
      KeysSet(Grid(tables[..n], cols, sz), tables[n], GridPos(n, cols, sz));
      assert tables[n] !in tables[..n];
      assert tables[..n] + [tables[n]] == tables;
    }
  }

  /** Distinct indices land in distinct cells when the steps are positive. */
  lemma DistinctCells(i: nat, j: nat, cols: nat, sz: Sizing)
    requires cols >= 1 && sz.Valid() && i != j
    ensures GridPos(i, cols, sz) != GridPos(j, cols, sz)
  {
    assert ColWidth(sz) > 0.0 && RowHeight(sz) > 0.0;
    if i % cols != j % cols {
      assert (i % cols) as real != (j % cols) as real;
      assert (i % cols) as real * ColWidth(sz) != (j % cols) as real * ColWidth(sz);
    } else {
      assert (i / cols) as real * RowHeight(sz) != (j / cols) as real * RowHeight(sz);
    }
  }

  /** With three columns the fourth table starts the second row. */
  lemma ThreeColumns(sz: Sizing)
    ensures Grid(["follows", "users", "bookings", "bookings_1"], 3, sz) ==
      [("follows", XY(0.0, 0.0)), ("users", XY(ColWidth(sz), 0.0)),
       ("bookings", XY(2.0 * ColWidth(sz), 0.0)), ("bookings_1", XY(0.0, RowHeight(sz)))]
  {
    var t := ["follows", "users", "bookings", "bookings_1"];
    var p0, p1, p2, p3 := GridPos(0, 3, sz), GridPos(1, 3, sz), GridPos(2, 3, sz), GridPos(3, 3, sz);
    assert t[..1][..0] == [] && t[..2][..1] == t[..1] && t[..3][..2] == t[..2] && t[..4][..3] == t[..3];
    assert Grid(t[..1], 3, sz) == [("follows", p0)];
    AppendFresh([("follows", p0)], "users", p1);
    assert Grid(t[..2], 3, sz) == [("follows", p0), ("users", p1)];
    AppendFresh([("follows", p0), ("users", p1)], "bookings", p2);
    assert Grid(t[..3], 3, sz) == [("follows", p0), ("users", p1), ("bookings", p2)];
    AppendFresh([("follows", p0), ("users", p1), ("bookings", p2)], "bookings_1", p3);
    assert t[..4] == t;
    assert p0 == XY(0.0, 0.0) && p1 == XY(ColWidth(sz), 0.0) && p2 == XY(2.0 * ColWidth(sz), 0.0);
    assert p3 == XY(0.0, RowHeight(sz));
    assert Grid(t, 3, sz) == [("follows", p0), ("users", p1), ("bookings", p2), ("bookings_1", p3)];
  }

  /** With four columns all four tables sit on the first row. */
  lemma FourColumns(sz: Sizing)
    ensures Grid(["follows", "users", "bookings", "bookings_1"], 4, sz) ==
      [("follows", XY(0.0, 0.0)), ("users", XY(ColWidth(sz), 0.0)),
       ("bookings", XY(2.0 * ColWidth(sz), 0.0)), ("bookings_1", XY(3.0 * ColWidth(sz), 0.0))]
  {
    var t := ["follows", "users", "bookings", "bookings_1"];
    var p0, p1, p2, p3 := GridPos(0, 4, sz), GridPos(1, 4, sz), GridPos(2, 4, sz), GridPos(3, 4, sz);
    assert t[..1][..0] == [] && t[..2][..1] == t[..1] && t[..3][..2] == t[..2] && t[..4][..3] == t[..3];
    assert Grid(t[..1], 4, sz) == [("follows", p0)];
    AppendFresh([("follows", p0)], "users", p1);
    assert Grid(t[..2], 4, sz) == [("follows", p0), ("users", p1)];
    AppendFresh([("follows", p0), ("users", p1)], "bookings", p2);
    assert Grid(t[..3], 4, sz) == [("follows", p0), ("users", p1), ("bookings", p2)];
    AppendFresh([("follows", p0), ("users", p1), ("bookings", p2)], "bookings_1", p3);
    assert t[..4] == t;
    assert p0 == XY(0.0, 0.0) && p1 == XY(ColWidth(sz), 0.0) && p2 == XY(2.0 * ColWidth(sz), 0.0);
    assert p3 == XY(3.0 * ColWidth(sz), 0.0);
    assert Grid(t, 4, sz) == [("follows", p0), ("users", p1), ("bookings", p2), ("bookings_1", p3)];
  }
}
