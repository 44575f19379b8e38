/** Angle handling of the stripe renderer: reading an angle given as a number
    or a CSS angle string, converting it to radians and clamping it. */
module Angle {
  import opened Wrappers
  import opened JsNumber

  /** The CSS angle units the renderer accepts. */
  datatype Unit = Deg | Grad | Rad | Turn

  /** The spelling of a unit in an angle string and in the gradient text. */
  function UnitName(u: Unit): string {
    match u
    case Deg => "deg"
    case Grad => "grad"
    case Rad => "rad"
    case Turn => "turn"
  }

  /** The measure of half a circle in each unit. */
  function HalfCircle(u: Unit): (h: real)
    ensures h > 0.0
  {
    match u
    case Deg => 180.0
    case Grad => 200.0
    case Rad => Pi
    case Turn => 0.5
  }

  /** The angle `value` of unit `u` in radians. */
  function ToRadians(value: real, u: Unit): (r: real)
    ensures r * HalfCircle(u) == value * Pi
  {
    value * Pi / HalfCircle(u)
  }

  /** A full circle is 360 deg, 400 grad, 1 turn and 2π rad, as CSS defines
      these units, and all of them convert to 2π radians. */
  lemma FullCircleInEveryUnit()
    ensures ToRadians(360.0, Deg) == 2.0 * Pi
    ensures ToRadians(400.0, Grad) == 2.0 * Pi
    ensures ToRadians(1.0, Turn) == 2.0 * Pi
    ensures ToRadians(2.0 * Pi, Rad) == 2.0 * Pi
  {
  }

  // ---------------------------------------------------------------------
  // The regular expression /[^A-z](deg|grad|rad|turn)?\s*$/
  // ---------------------------------------------------------------------

  /** `[A-z]`: every code unit from 'A' to 'z', which takes in the six
      punctuation characters between 'Z' and 'a' as well as the letters. */
  predicate InAToZ(c: char) {
    'A' <= c <= 'z'
  }

  /** `\s` of JavaScript regular expressions: white space and line terminators. */
  predicate IsSpace(c: char) {
    c == '\t' || c == '\n' || c == '\U{000B}' || c == '\U{000C}' || c == '\r' || c == ' '
    || c == '\U{00A0}' || c == '\U{1680}' || ('\U{2000}' <= c <= '\U{200A}')
    || c == '\U{2028}' || c == '\U{2029}' || c == '\U{202F}' || c == '\U{205F}'
    || c == '\U{3000}' || c == '\U{FEFF}'
  }

  predicate AllSpace(s: string) {
    forall i :: 0 <= i < |s| ==> IsSpace(s[i])
  }

  /** Every character of a unit name is in `[A-z]`, so none is white space. */
  lemma UnitNameLetters(u: Unit, i: int)
    requires 0 <= i < |UnitName(u)|
    ensures InAToZ(UnitName(u)[i]) && !IsSpace(UnitName(u)[i])
  {
  }

  /** The unit `u` starts at index `k` of `s` and only white space follows it. */
  predicate UnitThenSpaceAt(s: string, k: nat, u: Unit)
    requires k <= |s|
  {
    UnitName(u) <= s[k..] && AllSpace(s[k + |UnitName(u)|..])
  }

  /** One attempt of the regular expression at start index `j`, as a
      backtracking engine makes it: `None` when it does not match there,
      otherwise the captured group (`None` inside when the optional group
      took no part). The group is tried before it is skipped, and its
      alternatives in the order written. */
  function MatchAt(s: string, j: nat): (r: Option<Option<Unit>>)
    requires j < |s|
    ensures r.Some? ==> !InAToZ(s[j])
    ensures r == Some(None) ==> AllSpace(s[j + 1..])
    ensures r.Some? && r.value.Some? ==> UnitThenSpaceAt(s, j + 1, r.value.value)
  {
    if InAToZ(s[j]) then None
    else if UnitThenSpaceAt(s, j + 1, Deg) then Some(Some(Deg))
    else if UnitThenSpaceAt(s, j + 1, Grad) then Some(Some(Grad))
    else if UnitThenSpaceAt(s, j + 1, Rad) then Some(Some(Rad))
    else if UnitThenSpaceAt(s, j + 1, Turn) then Some(Some(Turn))
    else if AllSpace(s[j + 1..]) then Some(None)
    else None
  }

  /** `exec` of the regular expression on `s`, trying start indices from `j` on. */
  function ExecFrom(s: string, j: nat): (r: Option<Option<Unit>>)
    ensures r.None? ==> forall k :: j <= k < |s| ==> MatchAt(s, k).None?
    decreases |s| - j
  {
    if j >= |s| then None
    else if MatchAt(s, j).Some? then MatchAt(s, j)
    else ExecFrom(s, j + 1)
  }

  /** What `exec` reports is the result of the leftmost attempt that matches. */
  lemma {:induction false} ExecFromLeftmost(s: string, j: nat)
    ensures ExecFrom(s, j).Some? ==>
              exists k :: j <= k < |s| && MatchAt(s, k) == ExecFrom(s, j)
                          && forall i :: j <= i < k ==> MatchAt(s, i).None?
    decreases |s| - j
  {
    if j < |s| && MatchAt(s, j).None? {
      ExecFromLeftmost(s, j + 1);
    }
  }

  /** `exec` finds nothing when no attempt from `j` on matches. */
  lemma {:induction false} ExecFromNone(s: string, j: nat)
    requires forall k :: j <= k < |s| ==> MatchAt(s, k).None?
    ensures ExecFrom(s, j) == None
    decreases |s| - j
  {
    if j < |s| {
      ExecFromNone(s, j + 1);
    }
  }

  /** The tail the regular expression describes, stated declaratively: at
      index `j` a character outside `[A-z]`, then the unit `u` if there is
      one, then nothing but white space up to the end of the string. */
  predicate TailAt(s: string, j: nat, u: Option<Unit>) {
    j < |s| && !InAToZ(s[j]) &&
    match u
    case None => AllSpace(s[j + 1..])
    case Some(unit) => UnitThenSpaceAt(s, j + 1, unit)
  }

  /** One attempt succeeds with capture `u` exactly when the tail has that shape. */
  lemma MatchAtIff(s: string, j: nat, u: Option<Unit>)
    requires j < |s|
    ensures MatchAt(s, j) == Some(u) <==> TailAt(s, j, u)
  {
    var rest := s[j + 1..];
    forall v: Unit | UnitName(v) <= rest
      ensures !AllSpace(rest) && forall w: Unit :: UnitName(w) <= rest ==> w == v
    {
      UnitPrefixUnique(rest, v);
    }
  }

  /** The unit names start with distinct letters, none of them white space,
      so at most one of them begins a string, and a string one of them
      begins is not all white space. */
  lemma UnitPrefixUnique(rest: string, v: Unit)
    requires UnitName(v) <= rest
    ensures !AllSpace(rest) && forall w: Unit :: UnitName(w) <= rest ==> w == v
  {
    assert rest[0] == UnitName(v)[0];
    UnitNameLetters(v, 0);
  }

  /** `exec` finds a match exactly when some index has the described tail,
      and the capture it reports is that of such a tail. */
  lemma {:induction false} ExecFromFinds(s: string, j: nat)
    ensures ExecFrom(s, j).Some? ==> exists k: nat :: j <= k && TailAt(s, k, ExecFrom(s, j).value)
    ensures (exists k: nat, u :: j <= k && TailAt(s, k, u)) ==> ExecFrom(s, j).Some?
    decreases |s| - j
  {
    if j < |s| {
      ExecFromFinds(s, j + 1);
      if MatchAt(s, j).Some? {
        MatchAtIff(s, j, MatchAt(s, j).value);
      } else {
        forall k: nat, u | j <= k && TailAt(s, k, u)
          ensures j + 1 <= k
        {
          MatchAtIff(s, j, u);
        }
      }
    }
  }

  /** A tail that names a unit leaves no earlier index with a tail of any shape. */
  lemma NoTailBeforeUnit(s: string, k: nat, unit: Unit, j: nat, u: Option<Unit>)
    requires TailAt(s, k, Some(unit)) && j < k
    ensures !TailAt(s, j, u)
  {
    var n := UnitName(unit);
    var last := k + |n|;
    assert s[k + 1..][|n| - 1] == s[last];
    UnitNameLetters(unit, |n| - 1);
    assert !IsSpace(s[last]);
    match u
    case None =>
      assert s[j + 1..][last - (j + 1)] == s[last];
      assert !AllSpace(s[j + 1..]);
    case Some(other) =>
      var m := UnitName(other);
      if last < j + 1 + |m| {
        // s[k] would be a character of `other`, but it is outside [A-z].
        UnitNameLetters(other, k - (j + 1));
        assert s[j + 1..][k - (j + 1)] == s[k];
        assert !(m <= s[j + 1..]);
      } else {
        assert s[j + 1 + |m|..][last - (j + 1 + |m|)] == s[last];
        assert !AllSpace(s[j + 1 + |m|..]);
      }
  }

  /** When the string ends in a unit preceded by a character outside `[A-z]`
      and followed only by white space, `exec` captures that unit. */
  lemma {:induction false} ExecCapturesUnit(s: string, k: nat, unit: Unit, j: nat)
    requires TailAt(s, k, Some(unit)) && j <= k
    ensures ExecFrom(s, j) == Some(Some(unit))
    decreases k - j
  {
    if j == k {
      MatchAtIff(s, k, Some(unit));
    } else {
      if MatchAt(s, j).Some? {
        MatchAtIff(s, j, MatchAt(s, j).value);
        NoTailBeforeUnit(s, k, unit, j, MatchAt(s, j).value);
      }
      ExecCapturesUnit(s, k, unit, j + 1);
    }
  }

  // ---------------------------------------------------------------------
  // parseStringAngle and normalizeAngle
  // ---------------------------------------------------------------------

  /** The message of the `Error` thrown for an angle string that cannot be read. */
  function ParseError(angle: string): string {
    "Unable to parse angle: " + angle
  }

  /** `parseStringAngle`: `parseFloat` stands for `Number.parseFloat`, giving
      `None` where that returns NaN or an infinity. The value is the number it
      reads; the unit is the one the regular expression captures, `deg` when
      the group took no part. */
  function ParseStringAngle(parseFloat: string -> Option<real>, angle: string): (r: Result<(real, Unit)>)
    ensures r.Err? ==> r.message == ParseError(angle)
    ensures r.Ok? ==> parseFloat(angle).Some? && r.value.0 == parseFloat(angle).value
    ensures parseFloat(angle).None? ==> r.Err?
  {
    var value := parseFloat(angle);
    if value.None? then Err(ParseError(angle))
    else
      match ExecFrom(angle, 0)
      case None => Err(ParseError(angle))
      case Some(unit) => Ok((value.value, if unit.Some? then unit.value else Deg))
  }

  /** An angle string is accepted exactly when its numeric prefix is finite
      and it ends in the tail the regular expression describes; a rejection
      carries the input in its message; the value is the parsed number and the
      unit is the one the tail names, `deg` when no tail names one. */
  lemma ParseStringAngleSpec(parseFloat: string -> Option<real>, s: string)
    ensures ParseStringAngle(parseFloat, s).Ok? <==>
              parseFloat(s).Some? && exists k: nat, u :: TailAt(s, k, u)
    ensures ParseStringAngle(parseFloat, s).Err? ==> ParseStringAngle(parseFloat, s).message == ParseError(s)
    ensures ParseStringAngle(parseFloat, s).Ok? ==> ParseStringAngle(parseFloat, s).value.0 == parseFloat(s).value
    ensures forall k: nat, unit :: parseFloat(s).Some? && TailAt(s, k, Some(unit)) ==>
              ParseStringAngle(parseFloat, s) == Ok((parseFloat(s).value, unit))
    ensures ParseStringAngle(parseFloat, s).Ok? && (forall k: nat, unit :: !TailAt(s, k, Some(unit))) ==>
              ParseStringAngle(parseFloat, s).value.1 == Deg
  {
    ExecFromFinds(s, 0);
    forall k: nat, unit | parseFloat(s).Some? && TailAt(s, k, Some(unit))
      ensures ParseStringAngle(parseFloat, s) == Ok((parseFloat(s).value, unit))
    {
      ExecCapturesUnit(s, k, unit, 0);
    }
  }

  /** "45degrees" is refused whatever its numeric prefix reads as: after
      "deg" only white space may follow. "invalid" has no character outside
      `[A-z]` at all. */
  lemma RejectedAngleStrings(parseFloat: string -> Option<real>)
    ensures ParseStringAngle(parseFloat, "45degrees") == Err(ParseError("45degrees"))
    ensures ParseStringAngle(parseFloat, "invalid") == Err(ParseError("invalid"))
  {
    TrailingLettersNoMatch();
    LettersOnlyNoMatch();
  }

  lemma TrailingLettersNoMatch()
    ensures ExecFrom("45degrees", 0) == None
  {
    var s := "45degrees";
    forall k | 0 <= k < |s|
      ensures MatchAt(s, k) == None
    {
      MatchNeedsEnding(s, k);
    }
    ExecFromNone(s, 0);
  }

  /** A match leaves the string ending in a character outside `[A-z]` (the
      one the match starts with, or white space) or in the last letter of a
      unit name. */
  lemma MatchNeedsEnding(s: string, k: nat)
    requires k < |s|
    ensures MatchAt(s, k).Some? ==>
              var last := s[|s| - 1];
              !InAToZ(last) || last == 'g' || last == 'd' || last == 'n'
  {
    var last := s[|s| - 1];
    match MatchAt(s, k)
    case None =>
    case Some(None) =>
      if k + 1 < |s| {
        assert s[k + 1..][|s| - k - 2] == last;
        SpaceOutsideAToZ(last);
      }
    case Some(Some(u)) =>
      var n := UnitName(u);
      if k + 1 + |n| < |s| {
        assert s[k + 1 + |n|..][|s| - k - 2 - |n|] == last;
        SpaceOutsideAToZ(last);
      } else {
        assert s[k + 1..][|n| - 1] == last;
        assert n[|n| - 1] == 'g' || n[|n| - 1] == 'd' || n[|n| - 1] == 'n';
      }
  }

  /** No white-space character lies in `[A-z]`. */
  lemma SpaceOutsideAToZ(c: char)
    ensures IsSpace(c) ==> !InAToZ(c)
  {
  }

  lemma LettersOnlyNoMatch()
    ensures ExecFrom("invalid", 0) == None
  {
    var t := "invalid";
    forall k | 0 <= k < |t|
      ensures MatchAt(t, k) == None
    {
      assert InAToZ(t[k]);
    }
    ExecFromNone(t, 0);
  }

  /** The unit forms accepted: no unit means degrees, and each unit name is
      recognised, the value being whatever `parseFloat` reads. */
  lemma AcceptedAngleStrings(parseFloat: string -> Option<real>)
    requires parseFloat("30") == Some(30.0) && parseFloat("30deg") == Some(30.0)
    requires parseFloat("0.1turn") == Some(0.1) && parseFloat("0.5rad") == Some(0.5)
    requires parseFloat("30grad") == Some(30.0)
    ensures ParseStringAngle(parseFloat, "30") == Ok((30.0, Deg))
    ensures ParseStringAngle(parseFloat, "30deg") == Ok((30.0, Deg))
    ensures ParseStringAngle(parseFloat, "0.1turn") == Ok((0.1, Turn))
    ensures ParseStringAngle(parseFloat, "0.5rad") == Ok((0.5, Rad))
    ensures ParseStringAngle(parseFloat, "30grad") == Ok((30.0, Grad))
  {
    BareNumberIsDegrees(parseFloat);
    UnitSuffixParsed(parseFloat, "30deg", 2, Deg);
    UnitSuffixParsed(parseFloat, "0.1turn", 3, Turn);
    UnitSuffixParsed(parseFloat, "0.5rad", 3, Rad);
    UnitSuffixParsed(parseFloat, "30grad", 2, Grad);
  }

  /** A string holding only a number is read as degrees. */
  lemma BareNumberIsDegrees(parseFloat: string -> Option<real>)
    requires parseFloat("30") == Some(30.0)
    ensures ParseStringAngle(parseFloat, "30") == Ok((30.0, Deg))
  {
    var s := "30";
    assert MatchAt(s, 0) == None by {
      assert s[1..] == "0";
    }
    assert MatchAt(s, 1) == Some(None) by {
      assert s[2..] == [];
    }
  }

  /** A string that ends in a unit right after a character outside `[A-z]`
      is read with that unit. */
  lemma UnitSuffixParsed(parseFloat: string -> Option<real>, s: string, k: nat, unit: Unit)
    requires 0 < k <= |s| && !InAToZ(s[k - 1]) && s[k..] == UnitName(unit)
    requires parseFloat(s).Some?
    ensures ParseStringAngle(parseFloat, s) == Ok((parseFloat(s).value, unit))
  {
    assert s[k + |UnitName(unit)|..] == [];
    assert TailAt(s, k - 1, Some(unit));
    ExecCapturesUnit(s, k - 1, unit, 0);
  }

  /** The angle argument: a number of degrees or a CSS angle string. */
  datatype AngleInput = Number(degrees: real) | Text(text: string)

  /** The value and unit of an angle argument; a number is taken as degrees. */
  function ParsedAngle(parseFloat: string -> Option<real>, angle: AngleInput): Result<(real, Unit)> {
    match angle
    case Number(d) => Ok((d, Deg))
    case Text(s) => ParseStringAngle(parseFloat, s)
  }

  /** The angle as written into the gradient, `${value}${unit}`. */
  datatype AngleText = AngleText(value: real, unit: Unit)

  /** The result of `normalizeAngle`: the clamped angle in radians and the text form. */
  datatype Normalized = Normalized(radians: real, withUnit: AngleText)

  /** `clampAngle`: the remainder by π, followed by two corrections for
      results beyond ±π, which can never apply. */
  method ClampAngle(angleInRadians: real) returns (res: real)
    ensures res == Rem(angleInRadians, Pi)
    ensures -Pi < res < Pi
    ensures angleInRadians >= 0.0 ==> res >= 0.0
    ensures angleInRadians <= 0.0 ==> res <= 0.0
  {
    res := Rem(angleInRadians, Pi);
    if res > Pi {
      res := res - Pi - Pi;
    }
    if res < -Pi {
      res := res + Pi + Pi;
    }
  }

  /** `normalizeAngle`: the angle in radians, clamped, with the text form of
      the value and unit as given (not clamped); a string that cannot be read
      gives its parse error. */
  method NormalizeAngle(parseFloat: string -> Option<real>, angle: AngleInput) returns (r: Result<Normalized>)
    ensures ParsedAngle(parseFloat, angle).Err? ==> r == Err(ParsedAngle(parseFloat, angle).message)
    ensures ParsedAngle(parseFloat, angle).Ok? ==>
              var (value, unit) := ParsedAngle(parseFloat, angle).value;
              r == Ok(Normalized(Rem(ToRadians(value, unit), Pi), AngleText(value, unit)))
    ensures r.Ok? ==> -Pi < r.value.radians < Pi
  {
    var parsed := ParsedAngle(parseFloat, angle);
    if parsed.Err? {
      return Err(parsed.message);
    }
    var (value, unit) := parsed.value;
    var radians := ClampAngle(value * Pi / HalfCircle(unit));
    r := Ok(Normalized(radians, AngleText(value, unit)));
  }

  /** For degrees, clamping is the remainder by 180 degrees, taking the sign of
      the input. */
  lemma ClampDegrees(d: real)
    ensures Rem(ToRadians(d, Deg), Pi) == ToRadians(Rem(d, 180.0), Deg)
  {
    var k := Pi / 180.0;
    assert ToRadians(d, Deg) == d * k;
    assert Pi == 180.0 * k;
    RemScale(d, 180.0, k);
    assert ToRadians(Rem(d, 180.0), Deg) == Rem(d, 180.0) * k;
  }

  /** Clamping a radian angle does not change its remainder by π/4, so the
      smoothing decision is the same before and after clamping. */
  lemma ClampKeepsQuarterRemainder(x: real)
    ensures Rem(Rem(x, Pi), Pi / 4.0) == Rem(x, Pi / 4.0)
  {
    var t := Trunc(x / Pi);
    assert Rem(x, Pi) == x - Pi * (t as real);
    QuartersOfPi(t);
    RemShift(x, Pi / 4.0, 4 * t);
  }

  /** `t` half turns are `4t` eighth turns. */
  lemma QuartersOfPi(t: int)
    ensures ((4 * t) as real) * (Pi / 4.0) == Pi * (t as real)
  {
  }

  /** The degree angles of the source's normalisation cases, as clamped here:
      the remainder by 180 keeps the sign of the input, so 210 clamps to 30
      and -330 to -150. */
  lemma DegreeClampExamples()
    ensures Rem(ToRadians(-390.0, Deg), Pi) == ToRadians(-30.0, Deg)
    ensures Rem(ToRadians(-330.0, Deg), Pi) == ToRadians(-150.0, Deg)
    ensures Rem(ToRadians(-210.0, Deg), Pi) == ToRadians(-30.0, Deg)
    ensures Rem(ToRadians(-150.0, Deg), Pi) == ToRadians(-150.0, Deg)
    ensures Rem(ToRadians(150.0, Deg), Pi) == ToRadians(150.0, Deg)
    ensures Rem(ToRadians(210.0, Deg), Pi) == ToRadians(30.0, Deg)
    ensures Rem(ToRadians(330.0, Deg), Pi) == ToRadians(150.0, Deg)
    ensures Rem(ToRadians(390.0, Deg), Pi) == ToRadians(30.0, Deg)
    ensures Rem(ToRadians(-180.0, Deg), Pi) == 0.0 && Rem(ToRadians(180.0, Deg), Pi) == 0.0
  {
    ClampDegrees(-390.0);
    ClampDegrees(-330.0);
    ClampDegrees(-210.0);
    ClampDegrees(-150.0);
    ClampDegrees(150.0);
    ClampDegrees(210.0);
    ClampDegrees(330.0);
    ClampDegrees(390.0);
    ClampDegrees(-180.0);
    ClampDegrees(180.0);
  }
}
