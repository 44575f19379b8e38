# striped-background in Dafny

A model of `stripedBackground` from `index.ts`, with proofs about it. The function
computes CSS background fields that draw a repeating striped pattern. Its inputs
are a pattern, a rotation angle and a pixel offset. A pattern is an ordered list
of (colour, thickness) segments. The result sets `backgroundImage`,
`backgroundSize` and `backgroundPosition`; a pattern with one segment gets a
flat `backgroundColor` instead.

Modules, one per concern of `index.ts`:

- `Wrappers` (`wrappers.dfy`): `Option`, and `Result` for the `Error` the
  function can throw.
- `JsNumber` (`js_number.dfy`): JavaScript number operations over exact
  reals. It has `Math.PI` as the constant `Pi`, `Math.trunc`, and the `%`
  operator as the truncated remainder `Rem`. `Num` marks values that become
  NaN or an infinity (division or remainder by zero).
- `Angle` (`angle.dfy`): `parseStringAngle` (`ParseStringAngle`),
  `normalizeAngle` (`NormalizeAngle`), `clampAngle` (`ClampAngle`) and
  `unitToHalfCircleValue` (`HalfCircle`). The regular expression
  `/[^A-z](deg|grad|rad|turn)?\s*$/` is modelled exactly. `MatchAt` is one
  backtracking attempt at one start index. `ExecFrom` is `exec`, taking the
  leftmost start that matches. `TailAt` states the same tail declaratively,
  and lemmas prove the two agree.
- `StripedBackground` (`striped_background.dfy`): the colour-stop loop
  (`ColorStops`, a method with a `while` loop proved against the closed
  form `StopsFollowPattern`), the pattern length (`PatternLength`, the
  `reduce`), `calcBgDimensions` (`BgDimensions`), the position expressions
  (`BgPosition`) and `stripedBackground` itself (`StripedBackground`).

`Math.sin`, `Math.cos` and `Number.parseFloat` cannot be seen from here.
They are parameters of type `real -> real` and `string -> Option<real>`.
`parseFloat` gives `None` where `Number.parseFloat` returns NaN or an infinity.
Both `clampAngle` and the colour-stop loop update locals step by step, so they
are methods. `normalizeAngle` calls `clampAngle`, so it is a method too. Each
has a pure specification. `ClampAngle`'s is `Rem`, the remainder by π.
`NormalizeAngle`'s is `ParsedAngle` for the parse step, with the radians given
as `Rem(ToRadians(value, unit), Pi)` in its ensures. `ColorStops`' is
`StopsFollowPattern`.

Where the comments and tests of the repository and `index.ts` disagree, the
model follows `index.ts`:

- The comment at index.ts:42 says "Clamp to -180..180 degrees range".
  `clampAngle` is a truncated remainder by π, so its result lies strictly
  inside (-π, π) and keeps the sign of the input. `ClampAngle` proves that
  the two correction branches at index.ts:45-50 never fire.
- The normalisation cases at index.test.ts:80-89 expect 210 to give
  `-150deg` and -330 to give `30deg`. `index.ts` gives 30° and -150°
  (`DegreeClampExamples`).
- Those cases also expect the clamped angle in the gradient text.
  `index.ts` writes the value and unit as given (index.ts:38), so 210 stays
  `210deg`.
- The `|angle| === Math.PI` branch of `calcBgDimensions` (index.ts:59) is
  modelled, but the clamped angle can never reach it.

## Model

| member | source | states |
|---|---|---|
| `StripedBackground.StripedBackground` | index.ts:79-134 | Empty pattern: `{}`. One segment: only `backgroundColor`, that segment's colour. Both return before the angle is read, so a bad angle string cannot throw for them. Two or more segments: a bad angle string gives `Unable to parse angle: <input>`. Otherwise there is no `backgroundColor`; the gradient carries the unclamped value and unit and follows `StopsFollowPattern`, with smoothing 0 exactly when the clamped radians' remainder by π/4 is 0 and 0.5 otherwise; size is `BgDimensions` and position is `BgPosition` of the clamped angle and the pattern length. |
| `StripedBackground.ColorStops` | index.ts:107-116 | The loop yields 2·(2n−1) stops. Stop 2i is (colour of entry i mod n, S(i+1) − s) and stop 2i+1 is (colour of entry (i+1) mod n, S(i+1) + s), where S(k) sums the first k cyclic lengths. |
| `StripedBackground.PatternLengthBounds` | index.ts:118 | When no segment is negative, the `reduce` sum is at least 0 and at least as long as any one segment. |
| `StripedBackground.CyclicSumFirstRound` | index.ts:109-110 | For k ≤ n, the running offset after k steps is the length of the first k segments. |
| `StripedBackground.CyclicSumSecondRound` | index.ts:109-110 | In the second round, the running offset is one whole pattern length more than at the same step of the first round. |
| `StripedBackground.LastOffset` | index.ts:109-118 | The last running offset is 2·L − length of the last segment, where L is the sum of the `reduce`. |
| `StripedBackground.LastStop` | index.ts:113-114 | The final stop is (colour of the last segment, 2·L − its length + smoothing). |
| `StripedBackground.CyclicSumMonotone` | index.ts:110 | With no negative lengths, the running offset never decreases. |
| `StripedBackground.StopsSorted` | index.ts:105-116 | If every segment is at least twice the smoothing thick, the stop offsets never decrease. In particular, with smoothing 0 and non-negative lengths the edges are hard and in order. |
| `StripedBackground.FourColourStops` | index.test.ts:144 | The stop list of the red/yellow/green/blue pattern with smoothing 0, which angle 0 gives, stop by stop. |
| `StripedBackground.TwoColourStops` | index.ts:107-116 | The stop lists of red 10/tan 10 with smoothing 0 and 0.5, and of red 4/tan 16 with smoothing 0. These are the lists at index.test.ts lines 22, 73 and 166. |
| `StripedBackground.BgDimensions` | index.ts:54-70 | For a pattern length of at least 0, every finite tile dimension is at least 0. |
| `StripedBackground.TileFitsPeriod` | index.ts:58-69 | Take `sin` and `cos` exact at 0, ±π/2 and ±π. Whenever sin a ≠ 0, the width is finite and width·abs(sin a) = L. Whenever cos a ≠ 0, the height is finite and height·abs(cos a) = L. So the tile holds one stripe period on each axis the stripes cross. At 0 and ±π, sin a = 0 and the width is 1 pixel; at ±π/2, cos a = 0 and the height is 1 pixel: the 1-pixel sides lie on axes the stripes do not cross. |
| `StripedBackground.TileMirrorSymmetric` | index.ts:54-70 | With `sin` odd and `cos` even, angles a and −a give the same tile. |
| `StripedBackground.BgPosition` | index.ts:120-131 | Both coordinates are finite exactly when the pattern length is not 0, since `offset % 0` is NaN. Offset 0 puts the tile at `top 0 left 0`. |
| `StripedBackground.PositionPeriodic` | index.ts:120-122 | For L > 0 and offset ≥ 0, offset + L gives the same position as offset. Offset L and offset 0 both give `top 0 left 0`. |
| `Angle.ParseStringAngleSpec` | index.ts:14-26 | Parsing succeeds exactly when `parseFloat` is finite and the string ends in: a character outside `[A-z]`, an optional unit, then only white space. A failure carries the input in its message. The value is the parsed number. A unit named in such a tail is the one returned; with no unit, the unit is `deg`. |
| `Angle.ParseStringAngle` | index.ts:14-26 | A failure carries `Unable to parse angle: <input>`. A success means `parseFloat` is finite, and its value is that number. A non-finite `parseFloat` always fails. |
| `Angle.MatchAt` | index.ts:20 | A successful attempt starts at a character outside `[A-z]`. With no capture, only white space follows it. With a captured unit, that unit follows it and then only white space. |
| `Angle.ExecFrom` | index.ts:20-22 | `exec` reports no match only when no start index matches. |
| `Angle.ExecFromNone` | index.ts:20-22 | When no start index matches, `exec` reports no match. |
| `Angle.ExecFromLeftmost` | index.ts:20 | What `exec` reports is the result of the leftmost start index that matches. |
| `Angle.UnitPrefixUnique` | index.ts:20 | At most one unit name begins a string, since the names start with distinct letters. A string one of them begins is not all white space. So the order of the alternatives does not matter. |
| `Angle.MatchNeedsEnding` | index.ts:20 | A match leaves the string ending in a character outside `[A-z]`, or in the last letter of a unit name (g, d or n). |
| `Angle.MatchAtIff` | index.ts:20 | One attempt of the regular expression succeeds at an index, with a given capture, exactly when the declarative tail holds there. |
| `Angle.ExecFromFinds` | index.ts:20-23 | `exec` matches exactly when some index has the tail, and it reports the capture of such a tail. |
| `Angle.NoTailBeforeUnit` | index.ts:20 | A tail that names a unit leaves no earlier index that starts a tail. |
| `Angle.ExecCapturesUnit` | index.ts:20-25 | When a tail names a unit, `exec` captures that unit. |
| `Angle.RejectedAngleStrings` | index.test.ts:28-50 | `"45degrees"` and `"invalid"` are rejected with their own text in the message, whatever `parseFloat` reads. |
| `Angle.TrailingLettersNoMatch` | index.ts:20 | The regular expression finds no match in `"45degrees"`. |
| `Angle.LettersOnlyNoMatch` | index.ts:20 | The regular expression finds no match in `"invalid"`, since every character is in `[A-z]`. |
| `Angle.AcceptedAngleStrings` | index.ts:14-26 | `"30"` reads as degrees. `"30deg"`, `"0.1turn"`, `"0.5rad"` and `"30grad"` keep their units. |
| `Angle.BareNumberIsDegrees` | index.ts:25 | A string holding only the number `30` reads as degrees. |
| `Angle.UnitSuffixParsed` | index.ts:20-25 | A string that ends in a unit name, right after a character outside `[A-z]`, is read with that unit and the value `parseFloat` gives. |
| `Angle.ClampAngle` | index.ts:43-52 | The result is x − π·trunc(x/π), lies strictly between −π and π, and has the sign of x or is 0. So the two corrections never apply. |
| `Angle.NormalizeAngle` | index.ts:28-40 | A number is taken as degrees. A string gives its parse error or its value and unit. The radians are clamp(value·π / half(unit)), and the text is the value and unit as given. |
| `Angle.HalfCircle` | index.ts:6-12 | Half a circle is a positive measure in every unit, so the conversion never divides by zero. |
| `Angle.ToRadians` | index.ts:37 | The radians are to π as the value is to half a circle in its unit: r·half(u) = value·π. |
| `Angle.FullCircleInEveryUnit` | index.ts:5-12 | A full circle is 360 deg, 400 grad, 1 turn and 2π rad, as CSS defines these units, and each converts to 2π radians. |
| `Angle.ClampDegrees` | index.ts:37-44 | Clamping d degrees equals the truncated remainder of d by 180, in radians. |
| `Angle.DegreeClampExamples` | index.ts:43-52 | −390→−30, −330→−150, −210→−30, −150→−150, 150→150, 210→30, 330→150, 390→30, and ±180→0 (degrees). |
| `Angle.ClampKeepsQuarterRemainder` | index.ts:105 | Clamping does not change the remainder by π/4, so the smoothing choice would be the same on the unclamped angle. |
| `JsNumber.Rem` | index.ts:44 | For y > 0, `x % y` lies strictly inside (−y, y). It is at least 0 when x is, and at most 0 when x is. |
| `JsNumber.RemOfSmall` | index.ts:44 | A value already strictly inside (−y, y) is its own remainder. |
| `JsNumber.RemShift` | index.ts:120 | Removing whole multiples of y does not change `x % y` while the sign is kept. |
| `JsNumber.RemScale` | index.ts:37 | Scaling dividend and divisor by k > 0 scales the remainder by k. |
| `JsNumber.Remainder` | index.ts:120 | `x % y` is finite exactly when y is not 0. |
| `JsNumber.Quotient` | index.ts:67-68 | Division is finite exactly when the divisor is not 0, and then the quotient times the divisor is the dividend. |

## Left out

- Number formatting is not modelled. This covers `${value}`, the `px` suffixes, `join(", ")` and the whitespace of the multi-line template. Gradient, size and position are structured values: a list of (colour, offset) stops, two `Num`s, and the angle as (value, unit).
- Floating point is not modelled. Numbers are exact reals, and NaN, Infinity and −Infinity are one value, `NonFinite`. The inputs `angle` (as a number) and `offset` are finite. Results that hold in reals but not in IEEE-754 arithmetic say nothing about rounding. One example: whether 45° is an exact multiple of π/4.
- `Math.sin`, `Math.cos` and `Number.parseFloat` are parameters, and the full grammar of `parseFloat` is not modelled. `TileFitsPeriod` assumes exact values at 0, ±π/2 and ±π.
- `Pi` is the decimal `3.141592653589793`, not the exact binary value of `Math.PI`.
- Strings are sequences of Unicode scalar values, not UTF-16 code units. A character outside the Basic Multilingual Plane is one character here but two code units in JavaScript. Both forms fall outside `[A-z]`, so `exec` accepts and rejects the same strings.
- The TypeScript types `AngleString` and `CSSStyleDeclaration` exist only at type level. The angle argument is the sum type `AngleInput`.
- Test expectations for 6-significant-digit sizes and positions are left out. So are the single-line gradient text and the clamped angle in the gradient text (index.test.ts lines 22-24, 57-62, 80-89, 182). They belong to a different version of the function and contradict `index.ts`.
- `build.js` is not part of this model. It is build scripting with no logic.
