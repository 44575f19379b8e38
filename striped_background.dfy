/** The stripe renderer: from a pattern of coloured stripes, an angle and an
    offset to the CSS background fields that draw it. */
module StripedBackground {
  import opened Wrappers
  import opened JsNumber
  import opened Angle

  /** One entry of the pattern: a colour, passed through untouched, and the
      thickness of its stripe in pixels. */
  datatype Segment = Segment(color: string, length: real)

  /** A colour stop of the gradient: `<color> <offset>px`. */
  type Stop = (string, real)

  /** `linear-gradient(<angle>, <stops>)`. */
  datatype Gradient = Gradient(angle: AngleText, stops: seq<Stop>)

  /** `<width>px <height>px`. */
  datatype Size = Size(width: Num, height: Num)

  /** `top <top>px left <left>px`. */
  datatype Position = Position(top: Num, left: Num)

  /** The style descriptor; `None` is a field that is absent. */
  datatype Style = Style(
    backgroundImage: Option<Gradient>,
    backgroundSize: Option<Size>,
    backgroundPosition: Option<Position>,
    backgroundColor: Option<string>)

  /** The total length of the pattern, summed from the left as `reduce` does. */
  function PatternLength(pattern: seq<Segment>): real {
    if |pattern| == 0 then 0.0
    else PatternLength(pattern[..|pattern| - 1]) + pattern[|pattern| - 1].length
  }

  /** The pattern length is never negative when no stripe is, and it is at
      least as long as any single stripe. */
  lemma {:induction false} PatternLengthBounds(pattern: seq<Segment>)
    requires forall e :: 0 <= e < |pattern| ==> pattern[e].length >= 0.0
    ensures PatternLength(pattern) >= 0.0
    ensures forall e :: 0 <= e < |pattern| ==> pattern[e].length <= PatternLength(pattern)
  {
    if |pattern| > 0 {
      var front := pattern[..|pattern| - 1];
      PatternLengthBounds(front);
      forall e | 0 <= e < |pattern|
        ensures pattern[e].length <= PatternLength(pattern)
      {
        if e < |front| {
          assert front[e] == pattern[e];
        }
      }
    }
  }

  /** The number of steps of the colour-stop loop, `pattern.length * 2 - 1`
      (none when that is negative). */
  function Steps(n: nat): nat {
    if n == 0 then 0 else 2 * n - 1
  }

  /** The sum of the lengths of the first `k` entries of the pattern repeated
      cyclically: the running offset after `k` steps of the loop. */
  function CyclicSum(pattern: seq<Segment>, k: nat): real
    requires |pattern| > 0 || k == 0
  {
    if k == 0 then 0.0
    else CyclicSum(pattern, k - 1) + pattern[(k - 1) % |pattern|].length
  }

  /** Stop `k` of the gradient. Step `i` of the loop ends the stripe of entry
      `i` (cyclically) at the running offset S, emitting that colour at
      S - smoothing and the next entry's colour at S + smoothing. */
  function StopAt(pattern: seq<Segment>, smoothing: real, k: nat): Stop
    requires |pattern| > 0
  {
    var i := k / 2;
    if k % 2 == 0 then (pattern[i % |pattern|].color, CyclicSum(pattern, i + 1) - smoothing)
    else (pattern[(i + 1) % |pattern|].color, CyclicSum(pattern, i + 1) + smoothing)
  }

  /** The closed form of the stop list: two stops per loop step. */
  predicate StopsFollowPattern(pattern: seq<Segment>, smoothing: real, stops: seq<Stop>) {
    |stops| == 2 * Steps(|pattern|) &&
    forall k :: 0 <= k < |stops| ==> |pattern| > 0 && stops[k] == StopAt(pattern, smoothing, k)
  }

  /** The colour-stop loop: walks the pattern cyclically `2n - 1` times,
      keeping the running offset, and pushes two stops per step. */
  method ColorStops(pattern: seq<Segment>, smoothing: real) returns (stops: seq<Stop>)
    ensures StopsFollowPattern(pattern, smoothing, stops)
  {
    stops := [];
    var currentOffset := 0.0;
    var i := 0;
    while i < |pattern| * 2 - 1
      invariant 0 <= i <= Steps(|pattern|)
      invariant currentOffset == CyclicSum(pattern, i)
      invariant |stops| == 2 * i
      invariant forall k :: 0 <= k < |stops| ==> |pattern| > 0 && stops[k] == StopAt(pattern, smoothing, k)
    {
      currentOffset := currentOffset + pattern[i % |pattern|].length;
      StopsOfStep(pattern, smoothing, i);
      stops := stops + [
        (pattern[i % |pattern|].color, currentOffset - smoothing),
        (pattern[(i + 1) % |pattern|].color, currentOffset + smoothing)
      ];
      i := i + 1;
    }
  }

  /** Step `i` of the loop emits stops `2i` and `2i + 1`. */
  lemma StopsOfStep(pattern: seq<Segment>, smoothing: real, i: nat)
    requires |pattern| > 0
    ensures StopAt(pattern, smoothing, 2 * i)
              == (pattern[i % |pattern|].color, CyclicSum(pattern, i + 1) - smoothing)
    ensures StopAt(pattern, smoothing, 2 * i + 1)
              == (pattern[(i + 1) % |pattern|].color, CyclicSum(pattern, i + 1) + smoothing)
  {
    assert (2 * i) / 2 == i && (2 * i) % 2 == 0;
    assert (2 * i + 1) / 2 == i && (2 * i + 1) % 2 == 1;
  }

  /** An index in the first round of the cyclic walk. */
  lemma ModBelow(x: int, n: int)
    requires 0 <= x < n
    ensures x % n == x
  {
  }

  /** Multiplying by a positive number keeps the order. */
  lemma MulMonotone(a: int, b: int, n: int)
    requires n > 0
    ensures a <= b ==> a * n <= b * n
  {
  }

  /** An index in the second round of the cyclic walk. */
  lemma ModSecondRound(i: int, n: int)
    requires 0 < n <= i < 2 * n
    ensures i % n == i - n
  {
    var q := i / n;
    assert i == q * n + i % n;
    MulMonotone(2, q, n);
    MulMonotone(q, 0, n);
    assert q == 1;
  }

  /** In the first round the cyclic sum is the length of a prefix of the pattern. */
  lemma {:induction false} CyclicSumFirstRound(pattern: seq<Segment>, k: nat)
    requires 0 < |pattern| && k <= |pattern|
    ensures CyclicSum(pattern, k) == PatternLength(pattern[..k])
  {
    if k > 0 {
      CyclicSumFirstRound(pattern, k - 1);
      ModBelow(k - 1, |pattern|);
      assert pattern[..k][..k - 1] == pattern[..k - 1];
      assert pattern[..k][k - 1] == pattern[k - 1];
    }
  }

  /** In the second round the cyclic sum is one whole pattern length more
      than at the same place in the first round. */
  lemma {:induction false} CyclicSumSecondRound(pattern: seq<Segment>, k: nat)
    requires 0 < |pattern| <= k <= 2 * |pattern|
    ensures CyclicSum(pattern, k) == PatternLength(pattern) + CyclicSum(pattern, k - |pattern|)
  {
    var n := |pattern|;
    if k == n {
      CyclicSumFirstRound(pattern, n);
      assert pattern[..n] == pattern;
    } else {
      CyclicSumSecondRound(pattern, k - 1);
      ModSecondRound(k - 1, n);
      ModBelow(k - 1 - n, n);
    }
  }

  /** The last running offset is twice the pattern length less the length of
      the last entry: the loop stops one stripe short of two full rounds. */
  lemma LastOffset(pattern: seq<Segment>)
    requires |pattern| > 0
    ensures CyclicSum(pattern, Steps(|pattern|))
              == 2.0 * PatternLength(pattern) - pattern[|pattern| - 1].length
  {
    var n := |pattern|;
    var m := Steps(n);
    assert m == 2 * n - 1 && m - n == n - 1;
    CyclicSumSecondRound(pattern, m);
    CyclicSumFirstRound(pattern, n - 1);
    var whole, front, last := PatternLength(pattern), PatternLength(pattern[..n - 1]), pattern[n - 1].length;
    assert whole == front + last;
    assert CyclicSum(pattern, m) == whole + front;
  }

  /** The final stop carries the last entry's colour at that last offset plus
      the smoothing margin. */
  lemma LastStop(pattern: seq<Segment>, smoothing: real, stops: seq<Stop>)
    requires |pattern| > 0 && StopsFollowPattern(pattern, smoothing, stops)
    ensures stops[|stops| - 1]
              == (pattern[|pattern| - 1].color, 2.0 * PatternLength(pattern) - pattern[|pattern| - 1].length + smoothing)
  {
    var n := |pattern|;
    var k := |stops| - 1;
    assert k / 2 + 1 == Steps(n) && k % 2 == 1;
    ModSecondRound(k / 2 + 1, n);
    LastOffset(pattern);
  }

  /** With no negative lengths, the running offset never decreases. */
  lemma {:induction false} CyclicSumMonotone(pattern: seq<Segment>, i: nat, j: nat)
    requires |pattern| > 0 && i <= j
    requires forall e :: 0 <= e < |pattern| ==> pattern[e].length >= 0.0
    ensures CyclicSum(pattern, i) <= CyclicSum(pattern, j)
    decreases j - i
  {
    if i < j {
      CyclicSumMonotone(pattern, i, j - 1);
    }
  }

  /** When every stripe is at least twice the smoothing margin thick (so with
      smoothing 0 whenever no length is negative), the stop offsets never
      decrease along the list. */
  lemma StopsSorted(pattern: seq<Segment>, smoothing: real, stops: seq<Stop>)
    requires StopsFollowPattern(pattern, smoothing, stops) && smoothing >= 0.0
    requires forall e :: 0 <= e < |pattern| ==> pattern[e].length >= 2.0 * smoothing
    ensures forall j, k :: 0 <= j <= k < |stops| ==> stops[j].1 <= stops[k].1
  {
    forall j, k | 0 <= j <= k < |stops|
      ensures stops[j].1 <= stops[k].1
    {
      var n := |pattern|;
      var a, b := j / 2, k / 2;
      if a < b {
        CyclicSumMonotone(pattern, a + 2, b + 1);
        assert CyclicSum(pattern, a + 2) == CyclicSum(pattern, a + 1) + pattern[(a + 1) % n].length;
      }
    }
  }

  /** The stop list of the four-colour pattern with hard edges. */
  lemma FourColourStops(stops: seq<Stop>)
    requires StopsFollowPattern(
      [Segment("red", 2.0), Segment("yellow", 4.0), Segment("green", 8.0), Segment("blue", 16.0)], 0.0, stops)
    ensures stops == [
      ("red", 2.0), ("yellow", 2.0), ("yellow", 6.0), ("green", 6.0), ("green", 14.0), ("blue", 14.0),
      ("blue", 30.0), ("red", 30.0), ("red", 32.0), ("yellow", 32.0), ("yellow", 36.0), ("green", 36.0),
      ("green", 44.0), ("blue", 44.0)]
  {
    var p := [Segment("red", 2.0), Segment("yellow", 4.0), Segment("green", 8.0), Segment("blue", 16.0)];
    assert CyclicSum(p, 1) == 2.0;
    assert CyclicSum(p, 2) == 6.0;
    assert CyclicSum(p, 3) == 14.0;
    assert CyclicSum(p, 4) == 30.0;
    assert CyclicSum(p, 5) == 32.0;
    assert CyclicSum(p, 6) == 36.0;
    assert CyclicSum(p, 7) == 44.0;
  }

  /** The stop lists of the two-colour patterns, with hard edges and with the
      half-pixel smoothing margin. */
  lemma TwoColourStops(hard: seq<Stop>, smooth: seq<Stop>, uneven: seq<Stop>)
    requires StopsFollowPattern([Segment("red", 10.0), Segment("tan", 10.0)], 0.0, hard)
    requires StopsFollowPattern([Segment("red", 10.0), Segment("tan", 10.0)], 0.5, smooth)
    requires StopsFollowPattern([Segment("red", 4.0), Segment("tan", 16.0)], 0.0, uneven)
    ensures hard == [("red", 10.0), ("tan", 10.0), ("tan", 20.0), ("red", 20.0), ("red", 30.0), ("tan", 30.0)]
    ensures smooth == [("red", 9.5), ("tan", 10.5), ("tan", 19.5), ("red", 20.5), ("red", 29.5), ("tan", 30.5)]
    ensures uneven == [("red", 4.0), ("tan", 4.0), ("tan", 20.0), ("red", 20.0), ("red", 24.0), ("tan", 24.0)]
  {
    var p := [Segment("red", 10.0), Segment("tan", 10.0)];
    assert CyclicSum(p, 1) == 10.0 && CyclicSum(p, 2) == 20.0 && CyclicSum(p, 3) == 30.0;
    var q := [Segment("red", 4.0), Segment("tan", 16.0)];
    assert CyclicSum(q, 1) == 4.0 && CyclicSum(q, 2) == 20.0 && CyclicSum(q, 3) == 24.0;
  }

  /** `calcBgDimensions`: the tile size for stripes of period `patternLength`
      at angle `a`. One pixel suffices across horizontal or vertical stripes;
      otherwise the period is projected on each axis. */
  function BgDimensions(sin: real -> real, cos: real -> real, patternLength: real, a: real): (r: Size)
    ensures patternLength >= 0.0 ==>
              (r.width.Finite? ==> r.width.value >= 0.0) && (r.height.Finite? ==> r.height.value >= 0.0)
  {
    var absA := if a < 0.0 then -a else a;
    if absA == 0.0 || absA == Pi then Size(Finite(1.0), Finite(patternLength))
    else if absA == Pi / 2.0 then Size(Finite(patternLength), Finite(1.0))
    else Size(Abs(Quotient(patternLength, sin(a))), Abs(Quotient(patternLength, cos(a))))
  }

  /** `sin` and `cos` take their exact values at the angles the tile
      computation singles out. */
  predicate ExactAtQuarterTurns(sin: real -> real, cos: real -> real) {
    sin(0.0) == 0.0 && cos(0.0) == 1.0
    && sin(Pi) == 0.0 && cos(Pi) == -1.0 && sin(-Pi) == 0.0 && cos(-Pi) == -1.0
    && sin(Pi / 2.0) == 1.0 && cos(Pi / 2.0) == 0.0 && sin(-Pi / 2.0) == -1.0 && cos(-Pi / 2.0) == 0.0
  }

  /** The tile holds exactly one stripe period along every axis the stripes
      cross: its width times |sin a| and its height times |cos a| are the
      pattern length, whenever that sine or cosine is not zero. Across
      horizontal stripes (0 or ±π) the width is 1 pixel, and across vertical
      ones (±π/2) the height is, on the axis the stripes do not cross. */
  lemma TileFitsPeriod(sin: real -> real, cos: real -> real, patternLength: real, a: real)
    requires ExactAtQuarterTurns(sin, cos) && patternLength >= 0.0
    ensures var r := BgDimensions(sin, cos, patternLength, a);
            (sin(a) != 0.0 ==> r.width.Finite? && r.width.value * (if sin(a) < 0.0 then -sin(a) else sin(a)) == patternLength)
            && (cos(a) != 0.0 ==> r.height.Finite? && r.height.value * (if cos(a) < 0.0 then -cos(a) else cos(a)) == patternLength)
    ensures var r := BgDimensions(sin, cos, patternLength, a);
            var absA := if a < 0.0 then -a else a;
            (absA == 0.0 || absA == Pi ==> r.width == Finite(1.0) && sin(a) == 0.0)
            && (absA == Pi / 2.0 ==> r.height == Finite(1.0) && cos(a) == 0.0)
  {
    var r := BgDimensions(sin, cos, patternLength, a);
    var absA := if a < 0.0 then -a else a;
    if !(absA == 0.0 || absA == Pi || absA == Pi / 2.0) {
      if sin(a) != 0.0 {
        var q := patternLength / sin(a);
        assert q * sin(a) == patternLength;
        assert r.width.value == q || r.width.value == -q;
      }
      if cos(a) != 0.0 {
        var p := patternLength / cos(a);
        assert p * cos(a) == patternLength;
        assert r.height.value == p || r.height.value == -p;
      }
    }
  }

  /** Mirroring the angle does not change the tile when `sin` is odd and
      `cos` is even: -45 and 45 degrees, or -90 and 90, give the same size. */
  lemma TileMirrorSymmetric(sin: real -> real, cos: real -> real, patternLength: real, a: real)
    requires sin(-a) == -sin(a) && cos(-a) == cos(a)
    ensures BgDimensions(sin, cos, patternLength, -a) == BgDimensions(sin, cos, patternLength, a)
  {
    if sin(a) != 0.0 {
      assert patternLength / -sin(a) == -(patternLength / sin(a));
    }
  }

  /** The background position: the offset reduced by the pattern length
      (JavaScript `%`), projected on both axes; the top is negated because
      the CSS vertical axis points down. */
  function BgPosition(sin: real -> real, cos: real -> real, offset: real, patternLength: real, a: real): (r: Position)
    ensures r.top.Finite? <==> patternLength != 0.0
    ensures r.left.Finite? <==> patternLength != 0.0
    ensures patternLength != 0.0 && offset == 0.0 ==> r == Position(Finite(0.0), Finite(0.0))
  {
    var offsetNorm := Remainder(offset, patternLength);
    Position(Negate(Times(offsetNorm, cos(a))), Times(offsetNorm, sin(a)))
  }

  /** The position is finite for any pattern of non-zero length, zero for
      offset 0, and repeats with period equal to the pattern length for
      offsets that are not negative; in particular offset L is offset 0. */
  lemma PositionPeriodic(sin: real -> real, cos: real -> real, offset: real, patternLength: real, a: real)
    requires patternLength > 0.0 && offset >= 0.0
    ensures BgPosition(sin, cos, offset + patternLength, patternLength, a)
              == BgPosition(sin, cos, offset, patternLength, a)
    ensures BgPosition(sin, cos, patternLength, patternLength, a)
              == BgPosition(sin, cos, 0.0, patternLength, a)
              == Position(Finite(0.0), Finite(0.0))
  {
    var shifted := offset + patternLength;
    RemShift(shifted, patternLength, 1);
    assert shifted - (1 as real) * patternLength == offset;
    assert Remainder(shifted, patternLength) == Remainder(offset, patternLength);
    RemShift(patternLength, patternLength, 1);
    assert patternLength - (1 as real) * patternLength == 0.0;
    RemOfSmall(0.0, patternLength);
    assert Remainder(patternLength, patternLength) == Remainder(0.0, patternLength) == Finite(0.0);
  }

  /** `stripedBackground`. `sin`, `cos` and `parseFloat` stand for `Math.sin`,
      `Math.cos` and `Number.parseFloat`. The empty and the one-entry pattern
      return before the angle is read; otherwise a bad angle string gives its
      parse error, and a good one gives the gradient, size and position. */
  method StripedBackground(
    sin: real -> real, cos: real -> real, parseFloat: string -> Option<real>,
    pattern: seq<Segment>, angle: AngleInput := Number(45.0), offset: real := 0.0)
    returns (r: Result<Style>)
    ensures |pattern| == 0 ==> r == Ok(Style(None, None, None, None))
    ensures |pattern| == 1 ==> r == Ok(Style(None, None, None, Some(pattern[0].color)))
    ensures |pattern| >= 2 && ParsedAngle(parseFloat, angle).Err? ==>
              r == Err(ParseError(angle.text))
    ensures |pattern| >= 2 && ParsedAngle(parseFloat, angle).Ok? ==>
              var (value, unit) := ParsedAngle(parseFloat, angle).value;
              var a := Rem(ToRadians(value, unit), Pi);
              var smoothing := if Rem(a, Pi / 4.0) == 0.0 then 0.0 else 0.5;
              var patternLength := PatternLength(pattern);
              && r.Ok?
              && r.value.backgroundColor == None
              && r.value.backgroundImage.Some?
              && r.value.backgroundImage.value.angle == AngleText(value, unit)
              && StopsFollowPattern(pattern, smoothing, r.value.backgroundImage.value.stops)
              && r.value.backgroundSize == Some(BgDimensions(sin, cos, patternLength, a))
              && r.value.backgroundPosition == Some(BgPosition(sin, cos, offset, patternLength, a))
  {
    if |pattern| == 0 {
      return Ok(Style(None, None, None, None));
    }
    if |pattern| == 1 {
      return Ok(Style(None, None, None, Some(pattern[0].color)));
    }
    var normalized := NormalizeAngle(parseFloat, angle);
    if normalized.Err? {
      ParseStringAngleSpec(parseFloat, angle.text);
      return Err(normalized.message);
    }
    var angleRadians, angleWithUnit := normalized.value.radians, normalized.value.withUnit;
    PiPositive();
    var smoothing := if Rem(angleRadians, Pi / 4.0) != 0.0 then 0.5 else 0.0;
    var colorStops := ColorStops(pattern, smoothing);
    var patternLength := PatternLength(pattern);
    var offsetNorm := Remainder(offset, patternLength);
    var offsetX := Times(offsetNorm, sin(angleRadians));
    var offsetY := Times(offsetNorm, cos(angleRadians));
    var size := BgDimensions(sin, cos, patternLength, angleRadians);
    r := Ok(Style(
      Some(Gradient(angleWithUnit, colorStops)),
      Some(size),
      Some(Position(Negate(offsetY), offsetX)),
      None));
  }
}
