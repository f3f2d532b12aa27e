/** `generateDashedPath`: the relation path shown while its control points are
    edited. The SVG path string is cut into space-separated tokens; the main
    segment (everything before the second `M`, which starts the relation
    symbols) gets one `L x y` per control point, and the symbol tokens follow.
    How a number is printed is the parameter `fmt`. */
module DashedPath {
  import opened Common
  import opened ControlPoints

  /** `s.split(' ')`: the pieces between spaces, empty ones included. */
  function Split(s: string): (r: seq<string>)
    ensures |r| >= 1
    ensures forall i :: 0 <= i < |r| ==> ' ' !in r[i]
  {
    if s == [] then [""]
    else
      var parts := Split(s[..|s| - 1]);
      var c := s[|s| - 1];
      if c == ' ' then parts + [""]
      else parts[..|parts| - 1] + [parts[|parts| - 1] + [c]]
  }

  /** `parts.join(' ')`. */
  function Join(parts: seq<string>): string {
    if parts == [] then ""
    else if |parts| == 1 then parts[0]
    else Join(parts[..|parts| - 1]) + " " + parts[|parts| - 1]
  }

  /** `.filter(Boolean)`: the non-empty pieces, in order. */
  function NonEmpty(parts: seq<string>): (r: seq<string>)
    ensures forall i :: 0 <= i < |r| ==> r[i] != "" && r[i] in parts
  {
    if parts == [] then []
    else NonEmpty(parts[..|parts| - 1]) + (if parts[|parts| - 1] == "" then [] else [parts[|parts| - 1]])
  }

  function Tokens(path: string): seq<string> {
    NonEmpty(Split(path))
  }

  /** The end of the main segment: the first `M` token after the first
      token, or the token count when there is none. */
  function MainEnd(parts: seq<string>): (e: nat)
    ensures e <= |parts| && (|parts| > 0 ==> e >= 1)
    ensures forall i :: 1 <= i < e ==> parts[i] != "M"
    ensures e < |parts| ==> parts[e] == "M"
  {
    if |parts| <= 1 then |parts|
    else
      var e := MainEnd(parts[..|parts| - 1]);
      if e < |parts| - 1 then e
      else if parts[|parts| - 1] == "M" then |parts| - 1
      else |parts|
  }

  /** A character `[-\d.]` matches. */
  predicate IsNumeric(c: char) {
    c == '-' || c == '.' || '0' <= c <= '9'
  }

  /** The number of matches of `/[-\d.]+/g`: maximal numeric runs. */
  function NumericRuns(t: string): nat {
    if t == [] then 0
    else
      var n := |t| - 1;
      NumericRuns(t[..n]) + (if IsNumeric(t[n]) && (n == 0 || !IsNumeric(t[n - 1])) then 1 else 0)
  }

  /** Control points are added only when the main segment ends in a token
      with at least two numbers, the last point of the line. */
  predicate EndsAtPoint(main: seq<string>) {
    |main| > 0 && NumericRuns(main[|main| - 1]) >= 2
  }

  /** One ` L x y` per control point, in list order. */
  function Segments(points: seq<ControlPoint>, fmt: real -> string): string {
    if points == [] then ""
    else Segments(points[..|points| - 1], fmt) + " L " + fmt(points[|points| - 1].x) + " " + fmt(points[|points| - 1].y)
  }

  function DashedPath(path: string, points: seq<ControlPoint>, fmt: real -> string): (r: string)
    ensures points == [] ==> r == path
  {
    if points == [] then path
    else
      var parts := Tokens(path);
      var e := MainEnd(parts);
      var main := parts[..e];
      Join(main) + (if EndsAtPoint(main) then Segments(points, fmt) else "") + " " + Join(parts[e..])
  }

  /** The dashed path drawn by a connection: only while it is edited and
      has at least one control point. */
  function ShownDashedPath(isEditing: bool, path: string, points: seq<ControlPoint>, fmt: real -> string): (r: Option<string>)
    ensures r.Some? <==> isEditing && |points| > 0
    ensures r.Some? ==> r.value == DashedPath(path, points, fmt)
  {
    if isEditing && |points| > 0 then Some(DashedPath(path, points, fmt)) else None
  }

  // ---------------------------------------------------------------- lemmas

  /** Joining the pieces of a split gives back the string. */
  lemma {:induction false} JoinSplit(s: string)
    ensures Join(Split(s)) == s
  {
    if s != [] {
      var n := |s| - 1;
      var parts := Split(s[..n]);
      JoinSplit(s[..n]);
      var c := s[n];
      if c == ' ' {
        assert (parts + [""])[..|parts|] == parts;
      } else {
        var k := |parts| - 1;
        var r := parts[..k] + [parts[k] + [c]];
        if k > 0 {
          assert r[..k] == parts[..k];
        }
      }
      assert s == s[..n] + [c];
    }
  }

  /** The tokens are the non-empty, space-free pieces of the path. */
  lemma TokensWellFormed(path: string)
    ensures forall i :: 0 <= i < |Tokens(path)| ==> Tokens(path)[i] != "" && ' ' !in Tokens(path)[i]
  {
  }

  /** The main segment and the symbol part together are all the tokens, and
      the symbol part, when present, starts with `M`. */
  lemma {:induction false} MainAndSymbols(parts: seq<string>)
    ensures parts[..MainEnd(parts)] + parts[MainEnd(parts)..] == parts
    ensures MainEnd(parts) < |parts| ==> parts[MainEnd(parts)..][0] == "M"
  {
    var e := MainEnd(parts);
    assert parts[..e] + parts[e..] == parts;
  }

  /** Segments for a longer list extend those for its prefix. */
  lemma {:induction false} SegmentsAppend(a: seq<ControlPoint>, b: seq<ControlPoint>, fmt: real -> string)
    ensures Segments(a + b, fmt) == Segments(a, fmt) + Segments(b, fmt)
    decreases |b|
  {
    if b == [] {
      assert a + b == a;
      ConcatNil(Segments(a, fmt));
    } else {
      var bp, x := b[..|b| - 1], b[|b| - 1];
      SegmentsAppend(a, bp, fmt);
      SegmentsAppendOne(a, bp, x, fmt);
      assert b == bp + [x];
    }
  }

  lemma SegmentsAppendOne(a: seq<ControlPoint>, bp: seq<ControlPoint>, x: ControlPoint, fmt: real -> string)
    requires Segments(a + bp, fmt) == Segments(a, fmt) + Segments(bp, fmt)
    ensures Segments(a + (bp + [x]), fmt) == Segments(a, fmt) + Segments(bp + [x], fmt)
  {
    var one := " L " + fmt(x.x) + " " + fmt(x.y);
    assert a + (bp + [x]) == (a + bp) + [x];
    SegmentsSnoc(a + bp, x, fmt);
    SegmentsSnoc(bp, x, fmt);
    ConcatAssoc(Segments(a, fmt), Segments(bp, fmt), one);
  }

  lemma SegmentsSnoc(s: seq<ControlPoint>, x: ControlPoint, fmt: real -> string)
    ensures Segments(s + [x], fmt) == Segments(s, fmt) + (" L " + fmt(x.x) + " " + fmt(x.y))
  {
    assert (s + [x])[..|s|] == s;
  }

  /** A token such as `100,200` holds two numbers, the token `M` none. */
  lemma RunsExamples()
    ensures NumericRuns("100,200") == 2
    ensures NumericRuns("M") == 0
  {
    assert "100,200"[..6] == "100,20";
    assert "100,200"[..6][..5] == "100,2";
    assert "100,200"[..6][..5][..4] == "100,";
    assert "100,200"[..6][..5][..4][..3] == "100";
    assert "100"[..2] == "10";
    assert "100"[..2][..1] == "1";
    assert "M"[..0] == "";
  }

  // ---------------------------------------------------------------- method

  /** The index loop looking for the second `M`. */
  method FindMainEnd(parts: seq<string>) returns (mainEnd: nat)
    ensures mainEnd == MainEnd(parts)
  {
    mainEnd := |parts|;
    var i := 1;
    while i < |parts|
      invariant 1 <= i && (|parts| > 0 ==> i <= |parts|)
      invariant mainEnd == |parts|
      invariant forall j :: 1 <= j < i && j < |parts| ==> parts[j] != "M"
    {
      if parts[i] == "M" {
        mainEnd := i;
        break;
      }
      i := i + 1;
    }
    MainEndUnique(parts, mainEnd);
  }

  /** The loop appending ` L x y` for each control point. */
  method AppendSegments(base: string, points: seq<ControlPoint>, fmt: real -> string) returns (modified: string)
    ensures modified == base + Segments(points, fmt)
  {
    modified := base;
    var k := 0;
    while k < |points|
      invariant 0 <= k <= |points|
      invariant modified == base + Segments(points[..k], fmt)
    {
      assert points[..k + 1][..k] == points[..k];
      modified := modified + " L " + fmt(points[k].x) + " " + fmt(points[k].y);
      k := k + 1;
    }
    assert points[..|points|] == points;
  }

  method GenerateDashedPath(path: string, points: seq<ControlPoint>, fmt: real -> string) returns (r: string)
    ensures r == DashedPath(path, points, fmt)
  {
    if |points| == 0 {
      return path;
    }
    var parts := Tokens(path);
    var mainEnd := FindMainEnd(parts);
    var main := parts[..mainEnd];
    var symbols := parts[mainEnd..];
    var modified := Join(main);
    if |main| > 0 && NumericRuns(main[|main| - 1]) >= 2 {
      modified := AppendSegments(modified, points, fmt);
    } else {
      assert modified == Join(main) + "";
    }
    r := modified + " " + Join(symbols);
  }

  /** The first `M` after the first token is the main segment's end. */
  lemma MainEndUnique(parts: seq<string>, e: nat)
    requires e <= |parts| && (|parts| > 0 ==> e >= 1)
    requires forall i :: 1 <= i < e ==> parts[i] != "M"
    requires e < |parts| ==> parts[e] == "M"
    ensures e == MainEnd(parts)
  {
  }
}
