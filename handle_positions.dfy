/** `computeConnectionHandlePos`: which side of each box a relation line
    leaves from and arrives at, and the x of both anchors. The incoming x
    values may be top-left corners or (in older persisted layouts) centres;
    both readings are evaluated and one is picked. */
module HandlePositions {
  datatype Side = Left | Right

  /** `[sourcePosition, targetPosition, sourceX, targetX]`. */
  datatype Handles = Handles(sourceSide: Side, targetSide: Side, sourceX: real, targetX: real)

  /** The horizontal extent of both boxes under one reading of the x values. */
  datatype Extents = Extents(sourceLeft: real, sourceRight: real, targetLeft: real, targetRight: real,
                             sourceCenter: real, targetCenter: real)

  /** Two boxes closer than this are "overlapping or very close". */
  const IntersectionGap: real := 40.0

  function Sign(r: real): int {
    if r > 0.0 then 1 else if r < 0.0 then -1 else 0
  }

  function Abs(r: real): real {
    if r < 0.0 then -r else r
  }

  /** Reading A: the x values are top-left corners. */
  function TopLeftReading(sourceX: real, sourceW: real, targetX: real, targetW: real): Extents {
    Extents(sourceX, sourceX + sourceW, targetX, targetX + targetW, sourceX + sourceW / 2.0, targetX + targetW / 2.0)
  }

  /** Reading B: the x values are centres. */
  function CentreReading(sourceX: real, sourceW: real, targetX: real, targetW: real): Extents {
    Extents(sourceX - sourceW / 2.0, sourceX + sourceW / 2.0, targetX - targetW / 2.0, targetX + targetW / 2.0, sourceX, targetX)
  }

  /** The gap between the source's right edge and the target's left edge. */
  function Gap(e: Extents): real {
    e.targetLeft - e.sourceRight
  }

  /** Reading B is used only when the two gaps differ in sign and B's gap is
      the larger in magnitude. */
  predicate UseCentres(sourceX: real, sourceW: real, targetX: real, targetW: real) {
    var gapA := Gap(TopLeftReading(sourceX, sourceW, targetX, targetW));
    var gapB := Gap(CentreReading(sourceX, sourceW, targetX, targetW));
    Sign(gapA) != Sign(gapB) && Abs(gapB) > Abs(gapA)
  }

  function Chosen(sourceX: real, sourceW: real, targetX: real, targetW: real): Extents {
    if UseCentres(sourceX, sourceW, targetX, targetW) then CentreReading(sourceX, sourceW, targetX, targetW)
    else TopLeftReading(sourceX, sourceW, targetX, targetW)
  }

  /** Right of the source to left of the target, or the other way round. */
  function RightToLeft(e: Extents): Handles { Handles(Right, Left, e.sourceRight, e.targetLeft) }
  function LeftToRight(e: Extents): Handles { Handles(Left, Right, e.sourceLeft, e.targetRight) }

  function HandlePos(sourceX: real, sourceW: real, targetX: real, targetW: real): (h: Handles)
    ensures h == RightToLeft(Chosen(sourceX, sourceW, targetX, targetW))
         || h == LeftToRight(Chosen(sourceX, sourceW, targetX, targetW))
    ensures h.sourceSide != h.targetSide
  {
    var e := Chosen(sourceX, sourceW, targetX, targetW);
    if e.sourceRight + IntersectionGap < e.targetLeft then RightToLeft(e)
    else if e.targetRight + IntersectionGap < e.sourceLeft then LeftToRight(e)
    else if e.sourceCenter <= e.targetCenter then RightToLeft(e)
    else LeftToRight(e)
  }

  // ---------------------------------------------------------------- lemmas

  /** Boxes clearly apart, source on the left: right to left. */
  lemma SourceClearlyLeft(sourceX: real, sourceW: real, targetX: real, targetW: real)
    requires Chosen(sourceX, sourceW, targetX, targetW).sourceRight + IntersectionGap < Chosen(sourceX, sourceW, targetX, targetW).targetLeft
    ensures HandlePos(sourceX, sourceW, targetX, targetW) == RightToLeft(Chosen(sourceX, sourceW, targetX, targetW))
  {
  }

  /** Boxes clearly apart, target on the left: left to right (the first rule
      takes precedence, which matters only for negative widths). */
  lemma TargetClearlyLeft(sourceX: real, sourceW: real, targetX: real, targetW: real)
    requires !(Chosen(sourceX, sourceW, targetX, targetW).sourceRight + IntersectionGap < Chosen(sourceX, sourceW, targetX, targetW).targetLeft)
    requires Chosen(sourceX, sourceW, targetX, targetW).targetRight + IntersectionGap < Chosen(sourceX, sourceW, targetX, targetW).sourceLeft
    ensures HandlePos(sourceX, sourceW, targetX, targetW) == LeftToRight(Chosen(sourceX, sourceW, targetX, targetW))
  {
  }

  /** With widths that are not negative, all three rules agree with the
      centre comparison: the line leaves the source's right side exactly when
      the source centre is not right of the target centre. */
  lemma SideFollowsCentres(sourceX: real, sourceW: real, targetX: real, targetW: real)
    requires sourceW >= 0.0 && targetW >= 0.0
    ensures var e := Chosen(sourceX, sourceW, targetX, targetW);
      HandlePos(sourceX, sourceW, targetX, targetW) == (if e.sourceCenter <= e.targetCenter then RightToLeft(e) else LeftToRight(e))
  {
  }

  /** Equal widths give equal gaps under both readings, so the top-left
      reading is always the one used. */
  lemma EqualWidthsUseTopLeft(sourceX: real, w: real, targetX: real)
    ensures Chosen(sourceX, w, targetX, w) == TopLeftReading(sourceX, w, targetX, w)
  {
  }

  /** The three examples of the unit tests. */
  lemma UnitTestInputs()
    ensures HandlePos(0.0, 300.0, 300.0, 300.0) == Handles(Right, Left, 300.0, 300.0)
    ensures HandlePos(0.0, 300.0, 500.0, 300.0) == Handles(Right, Left, 300.0, 500.0)
    ensures HandlePos(500.0, 300.0, 0.0, 300.0) == Handles(Left, Right, 500.0, 300.0)
  {
    EqualWidthsUseTopLeft(0.0, 300.0, 300.0);
    EqualWidthsUseTopLeft(0.0, 300.0, 500.0);
    EqualWidthsUseTopLeft(500.0, 300.0, 0.0);
  }
}
