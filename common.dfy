/** Types shared by every part of the diagram engine: optional values,
    positions, rectangles and the sizing constants the layout code reads. */
module Common {

  datatype Option<+T> = None | Some(value: T) {
    function GetOr(default: T): T {
      match this
      case Some(v) => v
      case None => default
    }
  }

  /** A top-left position `{ x, y }` on the canvas. */
  datatype XY = XY(x: real, y: real)

  /** The position returned for an entity that has not been laid out yet
      (the `defaultTableCoord` sentinel of the stores). */
  const DefaultCoord: XY := XY(0.0, 0.0)

  /** An axis-aligned box given by its top-left corner and its size. */
  datatype Box = Box(x: real, y: real, width: real, height: real) {
    function CenterX(): real { x + width / 2.0 }
    function CenterY(): real { y + height / 2.0 }
  }

  /** True when the point lies in the closed rectangle [x, x+w] x [y, y+h]. */
  predicate InClosedRect(px: real, py: real, r: Box) {
    r.x <= px <= r.x + r.width && r.y <= py <= r.y + r.height
  }

  /** The sizing constants of the renderer. Their values are defined outside
      the modelled core, so every layout function takes them as a parameter. */
  datatype Sizing = Sizing(
    tablesGapX: real,
    tablesGapY: real,
    tableDefaultMinWidth: real,
    tableHeaderHeight: real,
    columnHeight: real,
    tableColorHeight: real,
    paddingSm: real)
  {
    /** All constants are non-negative and the grid steps are positive. */
    predicate Valid() {
      && tablesGapX >= 0.0 && tablesGapY >= 0.0
      && tableDefaultMinWidth > 0.0 && tableHeaderHeight > 0.0 && columnHeight > 0.0
      && tableColorHeight >= 0.0 && paddingSm >= 0.0
    }
  }

  function Max(a: real, b: real): (r: real)
    ensures r >= a && r >= b && (r == a || r == b)
  {
    if a >= b then a else b
  }

  function Min(a: real, b: real): (r: real)
    ensures r <= a && r <= b && (r == a || r == b)
  {
    if a <= b then a else b
  }

  predicate StartsWith(s: string, prefix: string) {
    |prefix| <= |s| && s[..|prefix|] == prefix
  }

  /** `Array.prototype.filter((x) => x !== v)`: every occurrence of `v` removed. */
  function Without<T(==,!new)>(s: seq<T>, v: T): (r: seq<T>)
    ensures v !in r
    ensures forall w :: w != v ==> (w in r <==> w in s)
    ensures |r| <= |s|
  {
    if s == [] then []
    else if s[0] == v then Without(s[1..], v)
    else [s[0]] + Without(s[1..], v)
  }

  /** The filter keeps the order of what it keeps: it distributes over
      concatenation. */
  lemma {:induction false} WithoutConcat<T(!new)>(a: seq<T>, b: seq<T>, v: T)
    ensures Without(a + b, v) == Without(a, v) + Without(b, v)
  {
    if a == [] {
      assert a + b == b;
    } else {
      WithoutConcat(a[1..], b, v);
      WithoutConcatStep(a[0], a[1..], b, v);
      assert a == [a[0]] + a[1..];
    }
  }

  lemma WithoutConcatStep<T(!new)>(x: T, t: seq<T>, b: seq<T>, v: T)
    requires Without(t + b, v) == Without(t, v) + Without(b, v)
    ensures Without([x] + t + b, v) == Without([x] + t, v) + Without(b, v)
  {
    ConcatAssoc([x], t, b);
    WithoutCons(x, t, v);
    WithoutCons(x, t + b, v);
    ConcatAssoc([x], Without(t, v), Without(b, v));
  }

  lemma WithoutCons<T(!new)>(x: T, s: seq<T>, v: T)
    ensures Without([x] + s, v) == if x == v then Without(s, v) else [x] + Without(s, v)
  {
    assert ([x] + s)[0] == x && ([x] + s)[1..] == s;
  }

  /** A single element is kept exactly when it is not `v`. */
  lemma WithoutSingle<T(!new)>(w: T, v: T)
    ensures Without([w], v) == if w == v then [] else [w]
  {
    assert [w][1..] == [];
  }

  lemma ConcatNil<T>(x: seq<T>)
    ensures x + [] == x
  {
  }

  lemma ConcatAssoc<T>(x: seq<T>, y: seq<T>, z: seq<T>)
    ensures (x + y) + z == x + (y + z)
  {
  }
}
