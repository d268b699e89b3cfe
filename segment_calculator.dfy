/** VideoSegmentCalculatorTool.calculate_segments: from a total duration, a
    split method ("equal" or "duration") and a value, the ordered list of
    {start, end} pairs that the splitter later cuts. Times are exact reals. */
module SegmentCalculator {
  import opened Outcomes

  /** The `value` parameter is a Python int or float. */
  datatype Number = Int(i: int) | Float(x: real) {
    function AsReal(): real {
      match this
      case Int(i) => i as real
      case Float(x) => x
    }
  }

  datatype Segment = Segment(start: real, end: real)

  function Min(a: real, b: real): (r: real)
    ensures r <= a && r <= b && (r == a || r == b)
  {
    if a <= b then a else b
  }

  /** Python truthiness of the three inputs: None, 0, 0.0 and "" are falsy.
      (A key left out of the request raises KeyError before this test.) */
  predicate Missing(duration: Option<real>, splitMethod: Option<string>, value: Option<Number>) {
    duration == None || duration == Some(0.0) ||
    splitMethod == None || splitMethod == Some("") ||
    value == None || value.value.AsReal() == 0.0
  }

  /** The "duration" loop steps by `value` while start < duration: a negative
      step with a positive duration never leaves it. Every other request ends. */
  predicate Terminates(duration: Option<real>, splitMethod: Option<string>, value: Option<Number>) {
    !(splitMethod == Some("duration") && duration.Some? && value.Some? &&
      duration.value > 0.0 && value.value.AsReal() < 0.0)
  }

  /** The "equal" plan: `count` parts of length duration / count, segment i
      starting at i times that length, each end clamped to the duration.
      A count below one gives no segments, as range() of it does. */
  function EqualParts(duration: real, count: int): (r: seq<Segment>)
    ensures |r| == if count < 0 then 0 else count
    ensures forall i :: 0 <= i < |r| ==> r[i].end <= duration
  {
    if count <= 0 then []
    else seq(count, i => EqualSegment(duration, count, i))
  }

  /** Segment i of the "equal" plan. */
  function EqualSegment(duration: real, count: int, i: int): (s: Segment)
    requires count != 0
    ensures s.end <= duration
  {
    var len := duration / count as real;
    Segment(i as real * len, Min(i as real * len + len, duration))
  }

  /** Least integer not below x. */
  function Ceil(x: real): int {
    if x.Floor as real == x then x.Floor else x.Floor + 1
  }

  /** How many times the "duration" loop runs: ceil(duration / step), none when
      the duration is not positive (the loop test fails at once). */
  function StepCount(duration: real, step: real): nat {
    if duration <= 0.0 || step <= 0.0 then 0
    else var n := Ceil(duration / step); if n < 0 then 0 else n
  }

  /** The k-th value of the "duration" loop's `start`: k steps from 0. */
  function StartAt(k: int, step: real): real {
    k as real * step
  }

  /** The "duration" plan: segment k starts at k * step (0, step, 2*step, ...)
      and ends at min(start + step, duration), for every start below the duration. */
  function FixedLength(duration: real, step: real): (r: seq<Segment>)
    ensures |r| == StepCount(duration, step)
    ensures forall i :: 0 <= i < |r| ==> r[i].end <= duration
  {
    seq(StepCount(duration, step), k => FixedSegment(duration, step, k))
  }

  /** Segment k of the "duration" plan. */
  function FixedSegment(duration: real, step: real, k: int): (s: Segment)
    ensures s.end <= duration
  {
    Segment(StartAt(k, step), Min(StartAt(k, step) + step, duration))
  }

  /** What calculate_segments returns for a request. */
  function Plan(duration: Option<real>, splitMethod: Option<string>, value: Option<Number>)
    : Result<seq<Segment>, ToolError>
    requires Terminates(duration, splitMethod, value)
  {
    if Missing(duration, splitMethod, value) then Failure(MissingInputs)
    else if splitMethod.value == "equal" then
      match value.value
      case Int(n) => Success(EqualParts(duration.value, n))
      case Float(_) => Failure(CountNotInteger)
    else if splitMethod.value == "duration" then
      Success(FixedLength(duration.value, value.value.AsReal()))
    else Failure(InvalidMethod(splitMethod.value))
  }

  /** calculate_segments, branch by branch. */
  method CalculateSegments(duration: Option<real>, splitMethod: Option<string>, value: Option<Number>)
    returns (r: Result<seq<Segment>, ToolError>)
    requires Terminates(duration, splitMethod, value)
    ensures r == Plan(duration, splitMethod, value)
  {
    if Missing(duration, splitMethod, value) {
      return Failure(MissingInputs);
    }
    var d := duration.value;
    var segments: seq<Segment>;
    if splitMethod.value == "equal" {
      if value.value.Float? {
        return Failure(CountNotInteger);
      }
      segments := EqualLoop(d, value.value.i);
    } else if splitMethod.value == "duration" {
      segments := DurationLoop(d, value.value.AsReal());
    } else {
      return Failure(InvalidMethod(splitMethod.value));
    }
    return Success(segments);
  }

  /** The "equal" loop: for i in range(count), a segment of duration / count
      from i times that length. */
  method EqualLoop(d: real, count: int) returns (segments: seq<Segment>)
    requires count != 0
    ensures segments == EqualParts(d, count)
  {
    segments := [];
    var segmentDuration := d / count as real;
    var i := 0;
    while i < count
      invariant 0 <= i <= |EqualParts(d, count)|
      invariant segments == EqualParts(d, count)[..i]
    {
      var start := i as real * segmentDuration;
      var end := Min(start + segmentDuration, d);
      assert EqualParts(d, count)[i] == EqualSegment(d, count, i) == Segment(start, end);
      segments := segments + [Segment(start, end)];
      i := i + 1;
    }
    assert segments == EqualParts(d, count);
  }

  /** The "duration" loop: from start 0, while start < d, a segment up to
      min(start + step, d), then start advances by the step. */
  method DurationLoop(d: real, segmentDuration: real) returns (segments: seq<Segment>)
    requires d > 0.0 ==> segmentDuration > 0.0
    ensures segments == FixedLength(d, segmentDuration)
  {
    segments := [];
    var start := 0.0;
    ghost var k: nat := 0;
    ghost var n := StepCount(d, segmentDuration);
    ghost var moving := d > 0.0 && segmentDuration > 0.0;
    if moving {
      StepCountBounds(d, segmentDuration);
    }
    while start < d
      invariant start == StartAt(k, segmentDuration)
      invariant k <= n
      invariant segments == FixedLength(d, segmentDuration)[..k]
      invariant moving ==> forall j :: 0 <= j < n ==> StartAt(j, segmentDuration) < d
      invariant moving ==> StartAt(n, segmentDuration) >= d
      invariant !moving ==> n == 0
      decreases n - k
    {
      var end := Min(start + segmentDuration, d);
      segments := segments + [Segment(start, end)];
      start := start + segmentDuration;
      k := k + 1;
    }
    assert k == n;
    assert segments == FixedLength(d, segmentDuration);
  }

  lemma MulStrict(a: real, b: real, c: real)
    requires a < b && c > 0.0
    ensures a * c < b * c
  {
  }

  lemma MulMono(a: real, b: real, c: real)
    requires a <= b && c >= 0.0
    ensures a * c <= b * c
  {
  }

  /** One more step of the "duration" loop adds the step to `start`. */
  lemma StartAtNext(k: int, step: real)
    ensures StartAt(k + 1, step) == StartAt(k, step) + step
  {
  }

  /** The "duration" loop stops at the first multiple of the step that reaches
      the duration: ceil(duration / step) starts lie below it, the next does not. */
  lemma StepCountBounds(duration: real, step: real)
    requires duration > 0.0 && step > 0.0
    ensures StepCount(duration, step) >= 1
    ensures StepCount(duration, step) == Ceil(duration / step)
    ensures StartAt(StepCount(duration, step) - 1, step) < duration
    ensures StartAt(StepCount(duration, step), step) >= duration
    ensures forall j :: 0 <= j < StepCount(duration, step) ==> StartAt(j, step) < duration
  {
    var q := duration / step;
    assert q * step == duration;
    var f := q.Floor;
    assert f as real <= q < f as real + 1.0;
    assert q > 0.0;
    var n := StepCount(duration, step);
    if f as real == q {
      assert n == f;
      assert f >= 1;
      assert n as real == q;
      assert StartAt(n, step) == duration;
      MulStrict((n - 1) as real, q, step);
    } else {
      assert n == f + 1;
      assert f >= 0;
      MulStrict(f as real, q, step);
      MulStrict(q, n as real, step);
      assert StartAt(n, step) > duration;
    }
    assert StartAt(n - 1, step) < duration;
    forall j | 0 <= j < n ensures StartAt(j, step) < duration {
      MulMono(j as real, (n - 1) as real, step);
    }
  }

  /** The segments tile [0, duration]: the first starts at 0, the last ends at
      the duration, none is empty, and each ends where the next one starts. */
  ghost predicate Tiles(segs: seq<Segment>, duration: real) {
    |segs| > 0 && segs[0].start == 0.0 && segs[|segs| - 1].end == duration &&
    (forall i :: 0 <= i < |segs| ==> segs[i].start < segs[i].end) &&
    (forall i :: 0 <= i < |segs| - 1 ==> segs[i].end == segs[i + 1].start)
  }

  /** Tiling segments are in order and do not overlap. */
  lemma {:induction false} TilesOrdered(segs: seq<Segment>, duration: real, i: int, j: int)
    requires Tiles(segs, duration) && 0 <= i < j < |segs|
    ensures segs[i].end <= segs[j].start
    decreases j - i
  {
    if j > i + 1 {
      TilesOrdered(segs, duration, i, j - 1);
      assert segs[j - 1].end == segs[j].start;
    }
  }

  /** Every instant of [k's start, duration) lies in a segment from k on. */
  lemma {:induction false} TilesCoverFrom(segs: seq<Segment>, duration: real, t: real, k: int)
    requires Tiles(segs, duration) && 0 <= k < |segs| && segs[k].start <= t < duration
    ensures exists i :: k <= i < |segs| && segs[i].start <= t < segs[i].end
    decreases |segs| - k
  {
    if t >= segs[k].end {
      assert k < |segs| - 1;
      assert segs[k].end == segs[k + 1].start;
      TilesCoverFrom(segs, duration, t, k + 1);
    }
  }

  /** Tiling segments partition [0, duration): each instant lies in exactly one. */
  lemma TilesPartition(segs: seq<Segment>, duration: real, t: real)
    requires Tiles(segs, duration) && 0.0 <= t < duration
    ensures exists i :: 0 <= i < |segs| && segs[i].start <= t < segs[i].end
    ensures forall i, j ::
      (0 <= i < |segs| && 0 <= j < |segs| &&
       segs[i].start <= t < segs[i].end && segs[j].start <= t < segs[j].end) ==> i == j
  {
    TilesCoverFrom(segs, duration, t, 0);
    forall i, j | 0 <= i < |segs| && 0 <= j < |segs| &&
      segs[i].start <= t < segs[i].end && segs[j].start <= t < segs[j].end
      ensures i == j
    {
      if i < j { TilesOrdered(segs, duration, i, j); }
      if j < i { TilesOrdered(segs, duration, j, i); }
    }
  }

  /** Segment i of an "equal" plan runs from i to i + 1 parts of the duration. */
  lemma EqualSegmentAt(duration: real, count: int, i: int)
    requires duration > 0.0 && 0 <= i < count
    ensures var len := duration / count as real;
      EqualSegment(duration, count, i) == Segment(i as real * len, (i + 1) as real * len)
    ensures EqualSegment(duration, count, i).start == i as real * duration / count as real
    ensures EqualSegment(duration, count, i).end - EqualSegment(duration, count, i).start
      == duration / count as real > 0.0
  {
    var len := duration / count as real;
    assert len * count as real == duration;
    assert len > 0.0;
    MulMono((i + 1) as real, count as real, len);
    MulStrict(i as real, (i + 1) as real, len);
  }

  /** "equal" with a positive duration and count n: segment i starts at
      i * duration / n and is duration / n long. */
  lemma EqualPartsShape(duration: real, count: int)
    requires duration > 0.0 && count >= 1
    ensures var r := EqualParts(duration, count);
      |r| == count &&
      (forall i :: 0 <= i < count ==> r[i].start == i as real * duration / count as real) &&
      (forall i :: 0 <= i < count ==> r[i].end - r[i].start == duration / count as real)
  {
    var r := EqualParts(duration, count);
    forall i | 0 <= i < count
      ensures r[i].start == i as real * duration / count as real
      ensures r[i].end - r[i].start == duration / count as real
    {
      EqualSegmentAt(duration, count, i);
    }
  }

  /** "equal" with a positive duration and count n: the n segments tile [0, duration]. */
  lemma EqualPartsTile(duration: real, count: int)
    requires duration > 0.0 && count >= 1
    ensures Tiles(EqualParts(duration, count), duration)
  {
    var r := EqualParts(duration, count);
    EqualPartsShape(duration, count);
    EqualPartsContiguous(duration, count);
    EqualSegmentAt(duration, count, 0);
    EqualPartsLastEnd(duration, count);
  }

  lemma EqualPartsContiguous(duration: real, count: int)
    requires duration > 0.0 && count >= 1
    ensures var r := EqualParts(duration, count);
      forall i :: 0 <= i < count - 1 ==> r[i].end == r[i + 1].start
  {
    var r := EqualParts(duration, count);
    var len := duration / count as real;
    forall i | 0 <= i < count - 1 ensures r[i].end == r[i + 1].start {
      EqualSegmentAt(duration, count, i);
      EqualSegmentAt(duration, count, i + 1);
      assert r[i].end == (i + 1) as real * len == r[i + 1].start;
    }
  }

  lemma EqualPartsLastEnd(duration: real, count: int)
    requires duration > 0.0 && count >= 1
    ensures EqualParts(duration, count)[count - 1].end == duration
  {
    EqualSegmentAt(duration, count, count - 1);
    var len := duration / count as real;
    assert len * count as real == duration;
  }

  /** Segment k of a "duration" plan of n segments (n as the loop count):
      a full step, except that the last one ends at the duration. */
  lemma FixedSegmentAt(duration: real, step: real, k: int)
    requires duration > 0.0 && step > 0.0 && 0 <= k < StepCount(duration, step)
    ensures var s := FixedSegment(duration, step, k);
      s.start == StartAt(k, step) < duration && s.start < s.end &&
      (k < StepCount(duration, step) - 1 ==> s.end == StartAt(k + 1, step)) &&
      (k == StepCount(duration, step) - 1 ==> s.end == duration)
  {
    StepCountBounds(duration, step);
    var n := StepCount(duration, step);
    StartAtNext(k, step);
    if k < n - 1 {
      assert StartAt(k + 1, step) < duration;
    } else {
      assert StartAt(k + 1, step) >= duration;
    }
  }

  /** "duration" with a positive duration and step: ceil(duration / step)
      segments; the first starts at 0 and each later one a step further. */
  lemma FixedLengthStarts(duration: real, step: real)
    requires duration > 0.0 && step > 0.0
    ensures var r := FixedLength(duration, step);
      |r| == Ceil(duration / step) && |r| >= 1 &&
      r[0].start == 0.0 &&
      (forall k :: 0 <= k < |r| - 1 ==> r[k + 1].start == r[k].start + step)
  {
    var r := FixedLength(duration, step);
    StepCountBounds(duration, step);
    assert r[0] == FixedSegment(duration, step, 0);
    forall k | 0 <= k < |r| - 1 ensures r[k + 1].start == r[k].start + step {
      assert r[k] == FixedSegment(duration, step, k);
      assert r[k + 1] == FixedSegment(duration, step, k + 1);
      StartAtNext(k, step);
    }
  }

  /** "duration" with a positive duration and step: the loop emits a segment
      for every start below the duration and stops at the first start that
      reaches it. */
  lemma FixedLengthStops(duration: real, step: real)
    requires duration > 0.0 && step > 0.0
    ensures var r := FixedLength(duration, step);
      |r| >= 1 &&
      (forall k :: 0 <= k < |r| ==> r[k].start < duration) &&
      r[|r| - 1].start + step >= duration
  {
    var r := FixedLength(duration, step);
    var n := |r|;
    StepCountBounds(duration, step);
    forall k | 0 <= k < n ensures r[k].start < duration {
      FixedSegmentAt(duration, step, k);
    }
    assert r[n - 1] == FixedSegment(duration, step, n - 1);
    StartAtNext(n - 1, step);
  }

  /** "duration" with a positive duration and step: every segment but the last
      is one step long; the last is not empty and at most one step long. */
  lemma FixedLengthLengths(duration: real, step: real)
    requires duration > 0.0 && step > 0.0
    ensures var r := FixedLength(duration, step);
      |r| >= 1 &&
      (forall k :: 0 <= k < |r| - 1 ==> r[k].end - r[k].start == step) &&
      0.0 < r[|r| - 1].end - r[|r| - 1].start <= step
  {
    var r := FixedLength(duration, step);
    var n := |r|;
    StepCountBounds(duration, step);
    forall k | 0 <= k < n - 1 ensures r[k].end - r[k].start == step {
      FixedSegmentAt(duration, step, k);
      StartAtNext(k, step);
    }
    FixedSegmentAt(duration, step, n - 1);
    StartAtNext(n - 1, step);
  }

  /** "duration" with a positive duration and step: the segments tile [0, duration]. */
  lemma FixedLengthTile(duration: real, step: real)
    requires duration > 0.0 && step > 0.0
    ensures Tiles(FixedLength(duration, step), duration)
  {
    var r := FixedLength(duration, step);
    var n := |r|;
    StepCountBounds(duration, step);
    forall k | 0 <= k < n ensures r[k].start < r[k].end {
      FixedSegmentAt(duration, step, k);
    }
    forall k | 0 <= k < n - 1 ensures r[k].end == r[k + 1].start {
      FixedSegmentAt(duration, step, k);
      FixedSegmentAt(duration, step, k + 1);
    }
    FixedSegmentAt(duration, step, 0);
    FixedSegmentAt(duration, step, n - 1);
  }

  /** calculate_segments with valid inputs: "equal" gives the tiling of
      EqualParts, "duration" that of FixedLength. */
  lemma PlanTiles(duration: real, splitMethod: string, value: Number)
    requires duration > 0.0 && value.AsReal() > 0.0
    requires splitMethod == "duration" || (splitMethod == "equal" && value.Int?)
    ensures Plan(Some(duration), Some(splitMethod), Some(value)).Success?
    ensures Tiles(Plan(Some(duration), Some(splitMethod), Some(value)).value, duration)
  {
    if splitMethod == "equal" {
      EqualPartsTile(duration, value.i);
    } else {
      FixedLengthTile(duration, value.AsReal());
    }
  }

  /** The request is refused exactly when an input is missing or zero, the
      method is unknown, or "equal" is given a float count (integral or not). */
  lemma PlanFailures(duration: Option<real>, splitMethod: Option<string>, value: Option<Number>)
    requires Terminates(duration, splitMethod, value)
    ensures Plan(duration, splitMethod, value) == Failure(MissingInputs) <==>
      Missing(duration, splitMethod, value)
    ensures Plan(duration, splitMethod, value).Failure? <==>
      Missing(duration, splitMethod, value) ||
      splitMethod.value !in {"equal", "duration"} ||
      (splitMethod.value == "equal" && value.value.Float?)
    ensures !Missing(duration, splitMethod, value) && splitMethod.value !in {"equal", "duration"} ==>
      Plan(duration, splitMethod, value) == Failure(InvalidMethod(splitMethod.value))
  {
  }

  /** Worked examples: 10 s in two equal parts; 10 s in 4 s steps; 7 s in 7 s steps. */
  lemma PlanExamples()
    ensures Plan(Some(10.0), Some("equal"), Some(Int(2))) ==
      Success([Segment(0.0, 5.0), Segment(5.0, 10.0)])
    ensures Plan(Some(10.0), Some("duration"), Some(Float(4.0))) ==
      Success([Segment(0.0, 4.0), Segment(4.0, 8.0), Segment(8.0, 10.0)])
    ensures Plan(Some(7.0), Some("duration"), Some(Int(7))) ==
      Success([Segment(0.0, 7.0)])
  {
    var e := EqualParts(10.0, 2);
    assert e[0] == EqualSegment(10.0, 2, 0) == Segment(0.0, 5.0);
    assert e[1] == EqualSegment(10.0, 2, 1) == Segment(5.0, 10.0);
    assert e == [Segment(0.0, 5.0), Segment(5.0, 10.0)];
    assert (10.0 / 4.0).Floor == 2;
    assert StepCount(10.0, 4.0) == 3;
    var f := FixedLength(10.0, 4.0);
    assert f[0] == FixedSegment(10.0, 4.0, 0) == Segment(0.0, 4.0);
    assert f[1] == FixedSegment(10.0, 4.0, 1) == Segment(4.0, 8.0);
    assert f[2] == FixedSegment(10.0, 4.0, 2) == Segment(8.0, 10.0);
    assert f == [Segment(0.0, 4.0), Segment(4.0, 8.0), Segment(8.0, 10.0)];
    assert (7.0 / 7.0).Floor == 1;
    assert StepCount(7.0, 7.0) == 1;
    var g := FixedLength(7.0, 7.0);
    assert g[0] == FixedSegment(7.0, 7.0, 0) == Segment(0.0, 7.0);
    assert g == [Segment(0.0, 7.0)];
  }

  /** A negative duration under "duration", or a negative "equal" count, is not
      refused: the loop does not run and the plan is empty. */
  lemma PlanAcceptsNegatives(d: real, v: Number, e: real, n: int)
    requires d < 0.0 && v.AsReal() != 0.0 && e != 0.0 && n < 0
    ensures Plan(Some(d), Some("duration"), Some(v)) == Success([])
    ensures Plan(Some(e), Some("equal"), Some(Int(n))) == Success([])
  {
  }

  /** With a negative duration and a positive count, "equal" still emits
      `count` segments, and every one of them ends before it starts: it runs
      from i * duration / count back to the duration. */
  lemma EqualPartsInverted(duration: real, count: int)
    requires duration < 0.0 && count >= 1
    ensures var r := EqualParts(duration, count);
      |r| == count &&
      forall i :: 0 <= i < count ==> r[i].end == duration < r[i].start
  {
    var r := EqualParts(duration, count);
    var len := duration / count as real;
    assert len * count as real == duration;
    assert len < 0.0;
    forall i | 0 <= i < count ensures r[i].end == duration < r[i].start {
      assert r[i] == EqualSegment(duration, count, i);
      MulMono((i + 1) as real, count as real, -len);
      MulStrict(i as real, count as real, -len);
    }
  }

  /** -10 s in two equal parts: two segments that both end at -10 s. */
  lemma NegativeDurationExample()
    ensures Plan(Some(-10.0), Some("equal"), Some(Int(2))) ==
      Success([Segment(0.0, -10.0), Segment(-5.0, -10.0)])
  {
    var e := EqualParts(-10.0, 2);
    assert e[0] == EqualSegment(-10.0, 2, 0) == Segment(0.0, -10.0);
    assert e[1] == EqualSegment(-10.0, 2, 1) == Segment(-5.0, -10.0);
    assert e == [Segment(0.0, -10.0), Segment(-5.0, -10.0)];
  }

  /** With a positive duration and a negative step, every value `start` takes
      stays below the duration: the "duration" loop never exits. */
  lemma NegativeStepNeverStops(duration: real, step: real)
    requires duration > 0.0 && step < 0.0
    ensures forall k: nat :: StartAt(k, step) < duration
  {
    forall k: nat ensures StartAt(k, step) < duration {
      MulMono(0.0, k as real, -step);
    }
  }

  /** calculate_segments as evidently intended: a negative duration, count or
      step is refused instead of giving inverted segments or a loop that never
      ends. It is defined on every request. */
  function CheckedPlan(duration: Option<real>, splitMethod: Option<string>, value: Option<Number>)
    : Result<seq<Segment>, ToolError>
  {
    if Missing(duration, splitMethod, value) then Failure(MissingInputs)
    else if splitMethod.value != "equal" && splitMethod.value != "duration" then
      Failure(InvalidMethod(splitMethod.value))
    else if splitMethod.value == "equal" && value.value.Float? then Failure(CountNotInteger)
    else if duration.value < 0.0 || value.value.AsReal() < 0.0 then Failure(InvalidInput)
    else if splitMethod.value == "equal" then Success(EqualParts(duration.value, value.value.i))
    else Success(FixedLength(duration.value, value.value.AsReal()))
  }

  /** Whatever the corrected plan accepts tiles [0, duration]. */
  lemma CheckedPlanTiles(duration: Option<real>, splitMethod: Option<string>, value: Option<Number>)
    ensures CheckedPlan(duration, splitMethod, value).Success? ==>
      Tiles(CheckedPlan(duration, splitMethod, value).value, duration.value)
  {
    if CheckedPlan(duration, splitMethod, value).Success? {
      PlanTiles(duration.value, splitMethod.value, value.value);
    }
  }

  /** The correction only adds refusals: it refuses with InvalidInput exactly
      the well-formed requests with a negative input, and otherwise returns
      what calculate_segments returns. */
  lemma CheckedPlanAgrees(duration: Option<real>, splitMethod: Option<string>, value: Option<Number>)
    ensures CheckedPlan(duration, splitMethod, value) == Failure(InvalidInput) <==>
      !Missing(duration, splitMethod, value) &&
      (splitMethod.value == "duration" || (splitMethod.value == "equal" && value.value.Int?)) &&
      (duration.value < 0.0 || value.value.AsReal() < 0.0)
    ensures CheckedPlan(duration, splitMethod, value) != Failure(InvalidInput) ==>
      Terminates(duration, splitMethod, value) &&
      CheckedPlan(duration, splitMethod, value) == Plan(duration, splitMethod, value)
  {
  }
}
