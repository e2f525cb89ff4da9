/**
 * The review page's "potential misconduct" rule: every AI-generated point
 * carries a buffer circle, and a student point that falls inside some AI
 * point's circle (in screen space) is recoloured. The slider of an AI point
 * edits that point's buffer radius.
 *
 * The d3 scales are the function parameters `sx` and `sy`; screen
 * coordinates are reals and distances are compared squared, which avoids the
 * square root.
 */
module Review {
  import opened Wrappers

  /** One plotted point as the page holds it. */
  datatype PlotDatum = PlotDatum(
    id: string,
    x: real,
    y: real,
    content: string,
    isStudentResponse: bool,
    bufferRange: Option<real>)

  /** The fill of a point: green for a student response, red for an AI one, gold for potential misconduct. */
  datatype Fill = StudentGreen | AiRed | MisconductGold

  /** A buffer circle drawn around an AI point. */
  datatype Circle = Circle(cx: real, cy: real, r: real)

  /** The radius used when a point has no (or a zero) buffer range. */
  const DefaultBufferRange: real := 20.0

  /** `d.bufferRange || 20`: `undefined` and `0` are falsy. */
  function EffectiveRadius(d: PlotDatum): (r: real)
    ensures d.bufferRange.None? || d.bufferRange == Some(0.0) ==> r == DefaultBufferRange
    ensures d.bufferRange.Some? && d.bufferRange.value != 0.0 ==> r == d.bufferRange.value
    ensures d.bufferRange.None? || d.bufferRange.value >= 0.0 ==> r > 0.0
  {
    match d.bufferRange
    case Some(range) => if range != 0.0 then range else DefaultBufferRange
    case None => DefaultBufferRange
  }

  /** The squared screen-space distance between two points under the scales `sx` and `sy`. */
  function SquaredScreenDistance(a: PlotDatum, b: PlotDatum, sx: real -> real, sy: real -> real): (d2: real)
    ensures d2 >= 0.0
  {
    (sx(a.x) - sx(b.x)) * (sx(a.x) - sx(b.x)) + (sy(a.y) - sy(b.y)) * (sy(a.y) - sy(b.y))
  }

  /** Comparing a distance with a radius is comparing squares, once a negative radius is ruled out. */
  lemma DistanceComparison(d: real, r: real)
    requires d >= 0.0
    ensures d <= r <==> (r >= 0.0 && d * d <= r * r)
  {
    var dd, dr, rr := d * d, d * r, r * r;
    if d <= r {
      assert dd <= dr;
      assert dr <= rr;
    } else if r >= 0.0 {
      assert rr <= dr;
      var gap := d - r;
      assert d * gap == dd - dr;
      assert d * gap > 0.0;
    }
  }

  /**
   * Lines 153-158 for one AI candidate: it is not a student response and the
   * student point lies within its effective radius (inclusive).
   */
  predicate WithinBuffer(student: PlotDatum, ai: PlotDatum, sx: real -> real, sy: real -> real)
  {
    && !ai.isStudentResponse
    && EffectiveRadius(ai) >= 0.0
    && SquaredScreenDistance(student, ai, sx, sy) <= EffectiveRadius(ai) * EffectiveRadius(ai)
  }

  /**
   * The squared test says what the source's `Math.sqrt(...) <= radius` says:
   * for the distance `d`, the square root of the squared distance.
   */
  lemma WithinBufferIsDistanceTest(student: PlotDatum, ai: PlotDatum, sx: real -> real, sy: real -> real, d: real)
    requires d >= 0.0 && d * d == SquaredScreenDistance(student, ai, sx, sy)
    ensures WithinBuffer(student, ai, sx, sy) <==> !ai.isStudentResponse && d <= EffectiveRadius(ai)
  {
    DistanceComparison(d, EffectiveRadius(ai));
  }

  /** `plotData.some(...)` of lines 152-159: some point of `data` has the student point within its buffer. */
  function AnyBufferContains(data: seq<PlotDatum>, student: PlotDatum, sx: real -> real, sy: real -> real): (r: bool)
    ensures r <==> exists k :: 0 <= k < |data| && WithinBuffer(student, data[k], sx, sy)
  {
    if data == [] then false
    else if WithinBuffer(student, data[0], sx, sy) then true
    else
      var rest := AnyBufferContains(data[1..], student, sx, sy);
      assert forall k :: 1 <= k < |data| ==> data[k] == data[1..][k - 1];
      rest
  }

  /** Line 147: the fill each point gets when it is drawn. */
  function BaseFill(d: PlotDatum): (f: Fill)
    ensures f != MisconductGold
    ensures f == StudentGreen <==> d.isStudentResponse
  {
    if d.isStudentResponse then StudentGreen else AiRed
  }

  /** Some student point among the first `n` has id `id` and lies inside an AI point's buffer. */
  predicate FlaggedAmong(data: seq<PlotDatum>, n: nat, id: string, sx: real -> real, sy: real -> real)
    requires n <= |data|
  {
    n > 0 &&
      (FlaggedAmong(data, n - 1, id, sx, sy) ||
       (data[n - 1].isStudentResponse && data[n - 1].id == id && AnyBufferContains(data, data[n - 1], sx, sy)))
  }

  /** The fill of point `j` once the pass has recoloured every flagged id. */
  function FinalFill(data: seq<PlotDatum>, j: nat, sx: real -> real, sy: real -> real): Fill
    requires j < |data|
  {
    if FlaggedAmong(data, |data|, data[j].id, sx, sy) then MisconductGold else BaseFill(data[j])
  }

  /**
   * Lines 138-166: draw every point with its base fill, then, for each student
   * point inside some AI point's buffer, recolour every point with that
   * student point's id gold.
   */
  method ColourPoints(data: seq<PlotDatum>, sx: real -> real, sy: real -> real) returns (fills: array<Fill>)
    ensures fills.Length == |data|
    ensures forall j :: 0 <= j < |data| ==> fills[j] == FinalFill(data, j, sx, sy)
  {
    fills := new Fill[|data|](j requires 0 <= j < |data| => BaseFill(data[j]));
    for i := 0 to |data|
      invariant forall j :: 0 <= j < |data| ==>
        fills[j] == if FlaggedAmong(data, i, data[j].id, sx, sy) then MisconductGold else BaseFill(data[j])
    {
      if data[i].isStudentResponse {
        var inRange := AnyBufferContains(data, data[i], sx, sy);
        if inRange {
          for j := 0 to |data|
            invariant forall m :: 0 <= m < j ==>
              fills[m] == if FlaggedAmong(data, i + 1, data[m].id, sx, sy) then MisconductGold else BaseFill(data[m])
            invariant forall m :: j <= m < |data| ==>
              fills[m] == if FlaggedAmong(data, i, data[m].id, sx, sy) then MisconductGold else BaseFill(data[m])
          {
            if data[j].id == data[i].id {
              fills[j] := MisconductGold;
            }
          }
        }
      }
    }
  }

  /** The pass flags an id exactly when some student point with that id lies inside an AI point's buffer. */
  lemma {:induction false} FlaggedAmongIff(data: seq<PlotDatum>, n: nat, id: string, sx: real -> real, sy: real -> real)
    requires n <= |data|
    ensures FlaggedAmong(data, n, id, sx, sy) <==>
      exists i :: 0 <= i < n && data[i].isStudentResponse && data[i].id == id && AnyBufferContains(data, data[i], sx, sy)
  {
    if n > 0 {
      FlaggedAmongIff(data, n - 1, id, sx, sy);
    }
  }

  /** No two points share an id (the ids are database keys). */
  predicate UniqueIds(data: seq<PlotDatum>)
  {
    forall i, j :: 0 <= i < |data| && 0 <= j < |data| && data[i].id == data[j].id ==> i == j
  }

  /** Whether point `j` is flagged as potential misconduct: a student point inside some AI point's buffer. */
  predicate NearAiPoint(data: seq<PlotDatum>, j: nat, sx: real -> real, sy: real -> real)
    requires j < |data|
  {
    data[j].isStudentResponse && exists k :: 0 <= k < |data| && WithinBuffer(data[j], data[k], sx, sy)
  }

  /**
   * With distinct ids, a point ends gold exactly when it is a student point
   * inside some AI point's buffer, and otherwise keeps its drawn fill.
   */
  lemma GoldIffNearAiPoint(data: seq<PlotDatum>, j: nat, sx: real -> real, sy: real -> real)
    requires UniqueIds(data) && j < |data|
    ensures FinalFill(data, j, sx, sy) == MisconductGold <==> NearAiPoint(data, j, sx, sy)
    ensures !NearAiPoint(data, j, sx, sy) ==> FinalFill(data, j, sx, sy) == BaseFill(data[j])
  {
    FlaggedAmongIff(data, |data|, data[j].id, sx, sy);
  }

  /** With distinct ids, an AI point is never flagged and keeps its red fill. */
  lemma AiPointStaysRed(data: seq<PlotDatum>, j: nat, sx: real -> real, sy: real -> real)
    requires UniqueIds(data) && j < |data| && !data[j].isStudentResponse
    ensures FinalFill(data, j, sx, sy) == AiRed
  {
    GoldIffNearAiPoint(data, j, sx, sy);
  }

  /** Without AI points nothing is flagged: every point stays green. */
  lemma NoAiPointsNoFlags(data: seq<PlotDatum>, sx: real -> real, sy: real -> real)
    requires forall k :: 0 <= k < |data| ==> data[k].isStudentResponse
    ensures forall j :: 0 <= j < |data| ==> FinalFill(data, j, sx, sy) == StudentGreen
  {
    forall j | 0 <= j < |data| ensures FinalFill(data, j, sx, sy) == StudentGreen {
      FlaggedAmongIff(data, |data|, data[j].id, sx, sy);
    }
  }

  /** The identity scale, for examples stated directly in screen coordinates. */
  function Identity(v: real): real { v }

  /** The example of a student point 5 pixels from an AI point with the default radius: it is flagged. */
  lemma FiveFromDefaultRadiusIsFlagged()
    ensures FinalFill([PlotDatum("s", 100.0, 100.0, "", true, None), PlotDatum("a", 105.0, 100.0, "", false, None)],
                      0, Identity, Identity) == MisconductGold
  {
    var data := [PlotDatum("s", 100.0, 100.0, "", true, None), PlotDatum("a", 105.0, 100.0, "", false, None)];
    assert SquaredScreenDistance(data[0], data[1], Identity, Identity) == 25.0;
    assert WithinBuffer(data[0], data[1], Identity, Identity);
    assert FlaggedAmong(data, 1, data[0].id, Identity, Identity);
  }

  /** A larger non-negative radius contains everything a smaller one does. */
  lemma SquareMonotone(r: real, r': real)
    requires 0.0 <= r <= r'
    ensures r * r <= r' * r'
  {
    var rr, rr', mid := r * r, r' * r', r * r';
    assert rr <= mid;
    assert mid <= rr';
  }

  /** Adding an AI point never unflags a student point. */
  lemma AddingAiPointKeepsFlag(data: seq<PlotDatum>, ai: PlotDatum, student: PlotDatum, sx: real -> real, sy: real -> real)
    requires AnyBufferContains(data, student, sx, sy)
    ensures AnyBufferContains(data + [ai], student, sx, sy)
  {
    var k :| 0 <= k < |data| && WithinBuffer(student, data[k], sx, sy);
    assert (data + [ai])[k] == data[k];
  }

  /** `data'` differs from `data` at most in buffer ranges, and no effective radius shrinks. */
  predicate RadiiEnlarged(data: seq<PlotDatum>, data': seq<PlotDatum>)
  {
    && |data'| == |data|
    && forall k :: 0 <= k < |data| ==> PointEnlarged(data[k], data'[k])
  }

  /** `p'` is `p` with a buffer range whose effective radius is no smaller. */
  predicate PointEnlarged(p: PlotDatum, p': PlotDatum)
  {
    p' == p.(bufferRange := p'.bufferRange) && EffectiveRadius(p') >= EffectiveRadius(p)
  }

  /** One AI point whose radius grows still contains what it contained. */
  lemma EnlargedPointKeepsContaining(student: PlotDatum, p: PlotDatum, p': PlotDatum, sx: real -> real, sy: real -> real)
    requires PointEnlarged(p, p') && WithinBuffer(student, p, sx, sy)
    ensures WithinBuffer(student, p', sx, sy)
  {
    assert p'.x == p.x && p'.y == p.y && p'.isStudentResponse == p.isStudentResponse;
    var r, r' := EffectiveRadius(p), EffectiveRadius(p');
    SquareMonotone(r, r');
    assert SquaredScreenDistance(student, p', sx, sy) == SquaredScreenDistance(student, p, sx, sy);
    assert SquaredScreenDistance(student, p, sx, sy) <= r * r <= r' * r';
  }

  /** Enlarging AI points' radii never unflags a student point. */
  lemma EnlargingRadiiKeepsFlag(data: seq<PlotDatum>, data': seq<PlotDatum>, student: PlotDatum, sx: real -> real, sy: real -> real)
    requires RadiiEnlarged(data, data')
    requires AnyBufferContains(data, student, sx, sy)
    ensures AnyBufferContains(data', student, sx, sy)
  {
    var k :| 0 <= k < |data| && WithinBuffer(student, data[k], sx, sy);
    EnlargedPointKeepsContaining(student, data[k], data'[k], sx, sy);
  }

  /** Lines 123-131: the AI points, in plot order (AiPointsOfConcat); each is drawn with a buffer circle. */
  function AiPoints(data: seq<PlotDatum>): (ai: seq<PlotDatum>)
    ensures forall p :: multiset(ai)[p] == if p.isStudentResponse then 0 else multiset(data)[p]
  {
    if data == [] then []
    else
      assert data == [data[0]] + data[1..];
      if data[0].isStudentResponse then AiPoints(data[1..]) else [data[0]] + AiPoints(data[1..])
  }

  /**
   * The AI points keep plot order: filtering a plot made of two parts gives
   * the AI points of the first part followed by those of the second.
   */
  lemma {:induction false} AiPointsOfConcat(a: seq<PlotDatum>, b: seq<PlotDatum>)
    ensures AiPoints(a + b) == AiPoints(a) + AiPoints(b)
  {
    if a != [] {
      assert (a + b)[1..] == a[1..] + b;
      AiPointsOfConcat(a[1..], b);
    } else {
      assert a + b == b;
    }
  }

  /** The buffer circles: one per AI point, centred on it in screen space, with its effective radius. */
  function BufferCircles(data: seq<PlotDatum>, sx: real -> real, sy: real -> real): (circles: seq<Circle>)
    ensures |circles| == |AiPoints(data)|
    ensures forall k :: 0 <= k < |circles| ==>
      var p := AiPoints(data)[k]; circles[k] == Circle(sx(p.x), sy(p.y), EffectiveRadius(p))
  {
    var ai := AiPoints(data);
    seq(|ai|, k requires 0 <= k < |ai| => Circle(sx(ai[k].x), sy(ai[k].y), EffectiveRadius(ai[k])))
  }

  /**
   * Lines 209-213: a slider edit sets the buffer range of the points whose id
   * matches and leaves every other point, and every other field, as it was.
   */
  function SetBufferRange(data: seq<PlotDatum>, id: string, newRange: int): (updated: seq<PlotDatum>)
    ensures |updated| == |data|
    ensures forall k :: 0 <= k < |data| ==>
      && updated[k].(bufferRange := data[k].bufferRange) == data[k]
      && updated[k].bufferRange == if data[k].id == id then Some(newRange as real) else data[k].bufferRange
  {
    seq(|data|, k requires 0 <= k < |data| =>
      if data[k].id == id then data[k].(bufferRange := Some(newRange as real)) else data[k])
  }

  /** Repeating the same slider edit changes nothing more. */
  lemma SetBufferRangeIdempotent(data: seq<PlotDatum>, id: string, newRange: int)
    ensures SetBufferRange(SetBufferRange(data, id, newRange), id, newRange) == SetBufferRange(data, id, newRange)
  {
  }

  /** After an edit to a non-zero value, the edited point's buffer radius is that value. */
  lemma EditedRadius(data: seq<PlotDatum>, id: string, newRange: int, k: nat)
    requires k < |data| && data[k].id == id && newRange != 0
    ensures EffectiveRadius(SetBufferRange(data, id, newRange)[k]) == newRange as real
  {
  }

  /**
   * A slider edit that does not shrink the edited points' effective radii
   * never unflags a student point.
   */
  lemma WideningEditKeepsFlag(data: seq<PlotDatum>, id: string, newRange: int, student: PlotDatum, sx: real -> real, sy: real -> real)
    requires newRange > 0
    requires forall k :: 0 <= k < |data| && data[k].id == id ==> EffectiveRadius(data[k]) <= newRange as real
    requires AnyBufferContains(data, student, sx, sy)
    ensures AnyBufferContains(SetBufferRange(data, id, newRange), student, sx, sy)
  {
    EnlargingRadiiKeepsFlag(data, SetBufferRange(data, id, newRange), student, sx, sy);
  }
}
