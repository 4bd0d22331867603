# Animated watercolor circle: colour parser and per-frame update

This project models the one component of the app that has behaviour: the
animated circle, `src/components/AnimatedCircle.tsx`. It has two parts, and
both are proved in Dafny.

- **`hexToRgb`** (`hex_color.dfy`, module `HexColor`) turns the colour prop into
  a byte triple. It accepts `/^#?([a-f\d]{2})([a-f\d]{2})([a-f\d]{2})$/i`:
  an optional `#`, then exactly six hex digits in either case. This is the
  six-digit `#rrggbb` form of section 5.2 of CSS Color Module Level 4, except
  that the `#` may be left out. Each digit pair is read as `16 * hi + lo`.
  Any other string gives the fixed triple `(103, 154, 192)`. `Matches` is the
  regular expression written as a predicate. `FormatHex` is the `#rrggbb`
  formatting, the inverse that the round-trip lemmas use.
- **The per-frame update** (`easing.dfy` module `Easing`, and
  `animated_circle.dfy` module `AnimatedCircle`) is a small state machine.
  `Circle` holds the refs: the current colour (reals in 0..255), the target
  triple, and the uniform block. The block is a `const` field of class
  `Uniforms`, so its identity cannot change. Its fields `time, x, y, z` are
  written in place.
  - `SetColor` is the effect that runs when the colour prop changes, and once
    after mount. `Mount` is the constructor followed by that first run.
  - `Frame(elapsed, speed)` is the `useFrame` callback. The clock's elapsed
    time and the speed prop are its parameters. It sets
    `time = elapsed * speed`. It moves each channel to `c + (t - c) * 0.01`,
    a fixed 1% per frame that does not depend on frame time. It then writes
    the new colour divided by 255 into `x, y, z`.

`real` stands for JavaScript numbers, so the easing facts are exact:
- a step stays between the old value and the target;
- a step leaves exactly 0.99 of the distance;
- after `k` frames the distance is `0.99^k` times the starting distance;
- after 1000 frames or more, every published channel is within 0.001 of the
  target divided by 255.

The ghost fields `origin` and `frames` record the current colour at the last
target change and the number of frames since. The class invariant `Valid`
ties the current colour to the origin eased `frames` times toward the target.
It also says that once a frame has run since the last colour change, the
block holds the current colour divided by 255.

Behaviour of the code that the model keeps as written:
- The time is recomputed each frame as `elapsed * speed`, not accumulated.
  Lowering the speed between frames can make it go down
  (`SpeedDropRewindsTime`). It is guaranteed non-decreasing for a fixed speed
  that is not negative on a clock that does not go back (`SameSpeedFrames`).
  There is no check on the speed.
- `679ac0` without `#` decodes like `#679ac0`. Both give exactly the fallback
  triple. `#679ac0` is the initial value of the app's colour control
  (`src/App.tsx:10`), passed in as the colour prop, so a fallback cannot be
  told apart from that initial colour (`InitialColourDecodesToFallback`).
- The starting values disagree with each other:
  - the current colour is `(103, 194, 192)`;
  - the target is `(103, 154, 192)`;
  - the published colour is `(0.6, 0.8, 0.95)`, which is not the current
    colour divided by 255.
- The target stays in 0..255 and is never divided. Each frame divides only
  the newly eased current channels by 255 when it writes them into the block.

## Model

| member | source | states |
|---|---|---|
| HexColor.DigitValue | src/components/AnimatedCircle.tsx:28-30 | a hex digit, as `parseInt` base 16 reads it, is a value in 0..15, and below 10 exactly for a decimal digit |
| HexColor.PairValue | src/components/AnimatedCircle.tsx:28-30 | `parseInt` of a two-digit group is a byte whose high nibble is the first digit and low nibble the second |
| HexColor.HexDigitClass | src/components/AnimatedCircle.tsx:26 | a character is in `[a-f\d]` under the `i` flag exactly when its lower-case form is one of `0123456789abcdef` |
| HexColor.Matches | src/components/AnimatedCircle.tsx:26 | a string the pattern accepts has length 6 or 7, starts with `#` or a hex digit, and has a hex digit at every later position |
| HexColor.Body | src/components/AnimatedCircle.tsx:26 | the three capture groups together are six hex digits, and the input is exactly those digits with or without one `#` in front |
| HexColor.HexToRgb | src/components/AnimatedCircle.tsx:25-32 | the result always has three channels in 0..255, and is `(103, 154, 192)` whenever the pattern does not match |
| HexColor.DecodesDigitPairs | src/components/AnimatedCircle.tsx:26-30 | six hex digits decode to `(16*d0+d1, 16*d2+d3, 16*d4+d5)`, with or without the leading `#` |
| HexColor.HashOptional | src/components/AnimatedCircle.tsx:26 | putting one `#` in front of any input that does not already start with `#` never changes the result, whether it matches or falls back |
| HexColor.CaseInsensitive | src/components/AnimatedCircle.tsx:26 | two strings that differ only in letter case decode to the same triple, whether they match or fall back |
| HexColor.LowerCaseDecodesSame | src/components/AnimatedCircle.tsx:26 | lower-casing the input never changes the decoded triple |
| HexColor.WrongLengthFallsBack | src/components/AnimatedCircle.tsx:26-31 | any length other than 6 or 7 gives the fallback triple |
| HexColor.NonHexFallsBack | src/components/AnimatedCircle.tsx:26-31 | a non-hex character anywhere after the first position gives the fallback triple |
| HexColor.BadFirstCharFallsBack | src/components/AnimatedCircle.tsx:26-31 | a first character that is neither `#` nor a hex digit gives the fallback triple |
| HexColor.DoubleHashFallsBack | src/components/AnimatedCircle.tsx:26-31 | a `##` prefix gives the fallback triple |
| HexColor.TrailingTextFallsBack | src/components/AnimatedCircle.tsx:26-31 | appending any text to a matching string gives the fallback triple (the pattern is anchored at the end) |
| HexColor.FallbackFormatsAsInitialColour | src/components/AnimatedCircle.tsx:31 | the fallback array is a byte triple whose `#rrggbb` text is `#679ac0` |
| HexColor.InitialColourDecodesToFallback | src/components/AnimatedCircle.tsx:26-31 | `#679ac0`, the app's initial colour, and `679ac0` both decode to exactly the fallback triple |
| HexColor.FormatHex | src/components/AnimatedCircle.tsx:26 | the `#rrggbb` text of a byte triple is seven characters, is lower case and matches the pattern |
| HexColor.RoundTrip | src/components/AnimatedCircle.tsx:27-31 | formatting any byte triple as `#` plus two hex digits per channel and decoding it returns the triple |
| HexColor.CanonicalForm | src/components/AnimatedCircle.tsx:26-31 | decoding a matching string and formatting the result gives `#` plus its digits in lower case: only case and the optional `#` are lost |
| Easing.LerpChannel | src/components/AnimatedCircle.tsx:50-56 | one frame's channel lies between the old value and the target, inclusive, and its distance to the target is exactly 0.99 times the old distance |
| Easing.StepJump | src/components/AnimatedCircle.tsx:54-56 | one frame moves a channel by exactly 1% of its distance to the target, so a target jump never makes the colour jump |
| Easing.LerpFixedPoint | src/components/AnimatedCircle.tsx:54-56 | a frame leaves a channel unchanged exactly when it equals the target |
| Easing.Step | src/components/AnimatedCircle.tsx:54-58 | one frame keeps a colour in 0..255 when the target is a byte triple, and leaves it unchanged exactly when it equals the target |
| Easing.IterateDistance | src/components/AnimatedCircle.tsx:54-56 | after `k` frames toward a fixed target the distance is the starting distance shrunk 1% per frame |
| Easing.DecayIsPow | src/components/AnimatedCircle.tsx:54-56 | that shrinking is by exactly `0.99^k` |
| Easing.IterateBetween | src/components/AnimatedCircle.tsx:54-56 | every later frame stays between the starting value and the target: the colour never overshoots |
| Easing.IterateColorInRange | src/components/AnimatedCircle.tsx:54-58 | a colour and target in 0..255 keep every later colour in 0..255 |
| Easing.Converges | src/components/AnimatedCircle.tsx:50-62 | after 1000 frames or more toward a fixed target, the channel divided by 255 is within 0.001 of the target divided by 255 |
| AnimatedCircle.Uniforms.constructor | src/components/AnimatedCircle.tsx:19-22 | the block starts with the given time and colour fields |
| AnimatedCircle.Circle.constructor | src/components/AnimatedCircle.tsx:15-22 | mounting sets current `(103, 194, 192)`, target `(103, 154, 192)`, time 0 and published colour `(0.6, 0.8, 0.95)`; the published colour is not current/255 and current is not the target |
| AnimatedCircle.Mount | src/components/AnimatedCircle.tsx:15-37 | a new component starts from the fixed refs, time 0 and published colour `(0.6, 0.8, 0.95)`, with the target already `hexToRgb(color)` of the initial prop and no frame run yet |
| AnimatedCircle.Circle.SetColor | src/components/AnimatedCircle.tsx:35-37 | after mount and on every colour change, sets the target to `hexToRgb(color)` and leaves the current colour and the uniform block untouched |
| AnimatedCircle.Circle.Frame | src/components/AnimatedCircle.tsx:40-63 | a frame sets time to `elapsed * speed`, eases the current colour one step, publishes it over 255 into the same block in place (so it lies in [0, 1]), and keeps the target |
| AnimatedCircle.Converged | src/components/AnimatedCircle.tsx:50-62 | in every reachable state 1000 or more frames after the last colour change, every published channel is within 0.001 of the target over 255 |
| AnimatedCircle.TimeMonotone | src/components/AnimatedCircle.tsx:45 | with a fixed speed of at least 0 and a clock that does not go back, the scaled time does not go down; it goes up when both the speed and the clock step are positive |
| AnimatedCircle.SameSpeedFrames | src/components/AnimatedCircle.tsx:40-46 | from any reachable state, two successive frames at one speed of at least 0 on a clock that does not go back publish `e1*speed` then `e2*speed`, which do not go down (and go up when speed and clock step are positive); the target is kept |
| AnimatedCircle.SpeedDropRewindsTime | src/components/AnimatedCircle.tsx:45 | a frame at speed 2 then a later frame at speed 1 publish a smaller second time: time is recomputed, not accumulated |
| AnimatedCircle.ChangeThenFrame | src/components/AnimatedCircle.tsx:35-58 | from any reachable state, a colour change sets the target to `hexToRgb(color)`, and the next frame moves the unchanged current colour one step toward it, staying in 0..255 |

## Left out

- The JSX scene (`src/components/AnimatedCircle.tsx:66-80`): the mesh, the circle geometry with radius 3.7, and the shader material. It is declarative rendering with no behaviour to state.
- The GLSL vertex and fragment shaders (`src/components/AnimatedCircle.tsx:4-5`). They are foreign code and are not part of this model.
- React and react-three-fiber plumbing. `useRef` cells are plain fields. `useEffect` is the method `SetColor`, which the caller invokes once after mount (`Mount`) and again whenever the prop changes. `useFrame` is the method `Frame`, which the caller invokes once per frame. `state.clock.getElapsedTime()` is the `elapsed` parameter. React's scheduler is not modelled. `Mount` runs the first effect before any frame; a frame that ran before that first effect would ease toward the starting target `(103, 154, 192)`, which a caller gets by calling `Frame` on a new `Circle` before `SetColor`.
- The guards `if (uniforms.uTime)` and `if (uniforms.uColor?.value)` (lines 44 and 49) are always true. The block is built with both entries and never loses them, so `Frame` always runs both branches.
- `src/App.tsx` and `src/components/Controls.tsx`: page layout, canvas, lights, orbit controls and the control panel. The speed range 0.1 to 10.0 is only a widget setting there. No code in this repository checks or clamps the speed.
- IEEE-754 floating-point rounding: channels, time and speed are `real`, so the easing and convergence facts hold exactly. The code's doubles only approximate them.
- Non-string inputs to `hexToRgb`: the prop is typed `string`, and the model takes `string`. A Dafny character is a Unicode scalar value, so a surrogate pair of a JavaScript string becomes one character and a lone surrogate has no counterpart. No result depends on this: only ASCII characters take part in the pattern, and any other character makes the input fall back, in the code and in the model.
