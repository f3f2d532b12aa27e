/** The anchoring of an enum connection (a line from a table column to the
    enum it uses): the handles `computeConnectionHandlePos` picks, overridden
    so that the enum is always attached on the side facing the table. */
module EnumConnections {
  import opened Common
  import opened HandlePositions

  /** The endpoints handed to the path builder, and the relation owner. */
  datatype EnumLine = EnumLine(source: XY, target: XY, sourceSide: Side, targetSide: Side, owner: string)

  /** The anchor override: an enum left of the table is attached on its
      right side, one right of the table on its left side; equal centres
      keep the computed handles. */
  function Resolve(tableX: real, tableW: real, enumX: real, enumW: real, computed: Handles): (h: Handles)
    ensures h.sourceSide != h.targetSide || h == computed
  {
    var sourceCenter := tableX + tableW / 2.0;
    var targetCenter := enumX + enumW / 2.0;
    if targetCenter < sourceCenter then Handles(Left, Right, tableX, enumX + enumW)
    else if targetCenter > sourceCenter then Handles(Right, Left, tableX + tableW, enumX)
    else computed
  }

  /** The y the line arrives at: the middle of the enum's header, whichever
      side it is attached on and whether or not the enum is known. */
  function TargetY(enumY: real, headerHeight: real, targetSide: Side, enumKnown: bool): real {
    if (targetSide == Left || targetSide == Right) && enumKnown then enumY + headerHeight / 2.0
    else enumY + headerHeight / 2.0
  }

  /** The whole endpoint computation of an enum connection from the source
      table `tableName` (at `table`, `tableW` wide, its column `colY` below its
      top) to the enum at `enumXY`, `enumW` wide. */
  function Line(tableName: string, table: XY, tableW: real, colY: real, enumXY: XY, enumW: real,
                headerHeight: real, enumKnown: bool): EnumLine
  {
    var h := Resolve(table.x, tableW, enumXY.x, enumW, HandlePos(table.x, tableW, enumXY.x, enumW));
    EnumLine(XY(h.sourceX, colY + table.y), XY(h.targetX, TargetY(enumXY.y, headerHeight, h.targetSide, enumKnown)),
             h.sourceSide, h.targetSide, tableName)
  }

  // ---------------------------------------------------------------- lemmas

  /** An enum left of its table: the table leaves from its left edge, the
      line arrives at the enum's right edge. */
  lemma EnumLeftOfTable(tableX: real, tableW: real, enumX: real, enumW: real, computed: Handles)
    requires enumX + enumW / 2.0 < tableX + tableW / 2.0
    ensures Resolve(tableX, tableW, enumX, enumW, computed) == Handles(Left, Right, tableX, enumX + enumW)
  {
  }

  /** An enum right of its table: right edge of the table to left edge of the enum. */
  lemma EnumRightOfTable(tableX: real, tableW: real, enumX: real, enumW: real, computed: Handles)
    requires enumX + enumW / 2.0 > tableX + tableW / 2.0
    ensures Resolve(tableX, tableW, enumX, enumW, computed) == Handles(Right, Left, tableX + tableW, enumX)
  {
  }

  /** Equal centres keep whatever `computeConnectionHandlePos` decided. */
  lemma EqualCentresKeepComputed(tableX: real, tableW: real, enumX: real, enumW: real, computed: Handles)
    requires enumX + enumW / 2.0 == tableX + tableW / 2.0
    ensures Resolve(tableX, tableW, enumX, enumW, computed) == computed
  {
  }

  /** When `computeConnectionHandlePos` reads the positions as top-left
      corners and the widths are not negative, the override changes nothing:
      it only corrects the handles picked under the centre reading. */
  lemma OverrideAgreesWithTopLeft(tableX: real, tableW: real, enumX: real, enumW: real)
    requires tableW >= 0.0 && enumW >= 0.0
    requires !UseCentres(tableX, tableW, enumX, enumW)
    ensures Resolve(tableX, tableW, enumX, enumW, HandlePos(tableX, tableW, enumX, enumW)) == HandlePos(tableX, tableW, enumX, enumW)
  {
    SideFollowsCentres(tableX, tableW, enumX, enumW);
  }

  /** The endpoints: the table end is at the column's y, the enum end at the
      middle of the enum header; the source table owns the relation. */
  lemma LineEndpoints(tableName: string, table: XY, tableW: real, colY: real, enumXY: XY, enumW: real,
                      headerHeight: real, enumKnown: bool)
    ensures var l := Line(tableName, table, tableW, colY, enumXY, enumW, headerHeight, enumKnown);
      && l.source.y == colY + table.y
      && l.target.y == enumXY.y + headerHeight / 2.0
      && l.owner == tableName
      && l.sourceSide != l.targetSide
  {
  }
}
