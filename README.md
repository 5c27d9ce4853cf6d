# Countdown page: verified model of its timer and zoom logic

The page shows a spinning 3D heart. An introductory camera zoom runs first.
Then a countdown appears. It shows the days, hours, minutes and seconds left
until a reunion date, and a progress bar for the time elapsed since a
separation date. All the logic is in `script.js`. This project models the two
parts of it that compute something:

- **The countdown tick** (`updateCountdown`). Module `Countdown`
  (`countdown.dfy`) covers the remaining time, its split into units, the
  clamped progress percentage and the end-of-countdown test. Module
  `NumberText` (`number_text.dfy`) covers `toString()` and
  `padStart(2, '0')` for the display fields. All of this is pure
  computation, so it is written as functions with lemmas beside them.
- **The per-frame scene update** (`animate`). Module `Scene` (`scene.dfy`)
  covers the model's spin, the camera dolly, and the `animationComplete` flag
  that reveals the countdown. The source changes module-level variables once
  per frame. So the model is the class `Scene.SceneController`, and its
  `Frame` method is proved against the specification function `Scene.Next`.
  Lemmas about runs of `Next` state the flag and zoom properties.

Arithmetic follows JavaScript's rules, written out:
- `Math.floor(a / b)` is the floor of the exact quotient (`Countdown.FloorDiv`).
- `%` truncates toward zero (`Countdown.TruncRem`). This differs from Dafny's
  Euclidean `%` when the remaining time is negative. The last tick reaches
  such a value.

Scene distances and angles are integers in hundredths. The camera starts at
1000 (z = 10), moves in steps of 5 (0.05) and stops at 200 (2). The spin
grows by 1 (0.01 rad) per frame. The code does not clamp the camera to the
target distance: the zoom stops where the last step leaves it, at most one
step inside the target.

The two dates are parameters. A `Countdown.Window` holds them, with
`separation < reunion`.

## Model

| member | source | states |
|---|---|---|
| `Countdown.Window.TotalTimeApart` | script.js:4-4 | `totalTimeApart` is the window's length: the separation date plus it gives the reunion date, and it is positive for a valid window |
| `Countdown.Window.TimeLeft` | script.js:143-143 | `timeLeft` is what remains from `now` to the reunion date; it is negative exactly when `now` is past the reunion date |
| `Countdown.FloorDiv` | script.js:146-149 | `Math.floor(a / b)` for a positive divisor: the integer `q` with `q * b <= a < q * b + b` |
| `Countdown.TruncRem` | script.js:147-149 | JavaScript's `%` for a positive divisor: the result is congruent to the left operand modulo the divisor, and it has that operand's sign, in [0, b) for a non-negative operand and in (-b, 0] for a negative one; these clauses fix the truncating remainder uniquely |
| `Countdown.FloorDivIsDiv` | script.js:146-149 | `Math.floor(a / b)`, the floor of the exact quotient, equals Euclidean `a / b` for every integer `a` and positive `b` |
| `Countdown.Decompose` | script.js:143-149 | for `timeLeft >= 0`: days >= 0, hours < 24, minutes < 60, seconds < 60, and the units times their lengths plus the dropped sub-second milliseconds equal `timeLeft`; for `timeLeft < 0`: days < 0 and every other unit lies in [-24, 0] or [-60, 0] |
| `Countdown.DecomposeNonNegative` | script.js:146-149 | for non-negative time the floor/truncation chain equals Euclidean division and remainders, each remainder fits in its unit, and the mixed-radix sum gives back the time |
| `Countdown.DecomposeNegative` | script.js:146-149 | for negative time, floor division of the whole is negative and every truncated-remainder unit is non-positive and bounded |
| `Countdown.DecomposeEuclidean` | script.js:146-149 | for non-negative time the decomposition is plain Euclidean division by day, then remainder-by-hour, remainder-by-minute and remainder-by-minute divided by a second |
| `Countdown.DecomposeMillis` | script.js:146-149 | converse of the round trip: any in-range units plus fewer than 1000 ms decompose back into exactly those units |
| `Countdown.Progress` | script.js:158-159 | with `totalTimeApart` from script.js:4, the percentage is always in [0, 100]; it is exactly 0 at or before the separation date and exactly 100 at or after the reunion date; in between it is elapsed time times 100 over `totalTimeApart` |
| `Countdown.ProgressMonotone` | script.js:158-159 | a later `now` never gives a smaller percentage |
| `Countdown.ProgressHalfway` | script.js:158-159 | five days into a ten-day window the percentage is exactly 50 |
| `Countdown.Show` | script.js:151-161 | every field a tick writes is at least two characters wide, and the bar width is the clamped progress |
| `Countdown.ShowReadsBack` | script.js:143-155 | up to the reunion instant the four fields are digit strings; each reads back as its own unit of the decomposed remaining time, so hours < 24 and minutes, seconds < 60; hours, minutes and seconds are exactly two wide; and together they recompose the remaining time to the whole second |
| `Countdown.TickAsWritten` | script.js:164-167 | as written: the display is written, and the tick throws a ReferenceError exactly when `now` is past the reunion date; it never reaches the completion message |
| `Countdown.LastTickAsWritten` | script.js:164-175 | a tick that falls within the first second after the reunion date (the nominal period of the interval at script.js:175), that is every `now` in (reunion, reunion + 1000], shows "-1" in all four fields and a full bar, then throws instead of stopping; a late tick shows other negative units, within the bounds `Countdown.Decompose` states |
| `Countdown.Tick` | script.js:164-167 | corrected: same display as written; the countdown stops exactly when `now > reunionDate` (`timeLeft < 0`), and keeps counting otherwise; a stopped tick writes the completion markup `<h1>Together Again! ❤️</h1>` of script.js:167 (the constant `Countdown.CompletionMessage`) |
| `NumberText.NatDecimal` | script.js:152-155 | the decimal digits of a natural number: non-empty, all digits, a single character exactly when below 10, no leading zero |
| `NumberText.Decimal` | script.js:152-155 | `toString()` of an integer: for a non-negative number, digits that read back as the number; for a negative one, '-' followed by digits that read back as its magnitude; in both cases the shortest form, with no leading zero, one digit exactly for magnitudes below 10 |
| `NumberText.PadStart` | script.js:152-155 | `padStart`: a string at least as long as the target comes back unchanged; otherwise the result has the target length, ends with the string and starts with fill characters only |
| `NumberText.ValueOfNatDecimal` | script.js:152-155 | reading the decimal form of `n` back gives `n` |
| `NumberText.TwoDigitShape` | script.js:152-155 | a field is at least two characters wide; a decimal form of two or more characters is left unchanged, so days >= 100 and negative values are not truncated; a single digit gets exactly one leading '0' |
| `NumberText.TwoDigitWidth` | script.js:153-155 | a unit in [0, 100) is shown as exactly two digits |
| `NumberText.TwoDigit` | script.js:152-155 | `x.toString().padStart(2, '0')`: at least two characters; for a non-negative number, digits that read back as the number itself; a negative number is shown as its `toString()`, unpadded |
| `Scene.Next` | script.js:121-134 | before load a frame changes nothing; after load it adds one spin step in every phase; the camera moves one step only while zooming; once complete, the flag stays set and the camera stays put; the flag turns on only on a zooming frame that leaves the camera at or inside the target |
| `Scene.Reveals` | script.js:129-133 | a frame reveals the countdown (the `classList` changes of script.js:131-132) exactly when it turns `animationComplete` from false to true |
| `Scene.NextKeepsInv` | script.js:125-130 | one frame keeps the invariant: the camera stays within one step short of the target and its start, and the flag is set exactly when the camera is at or inside the target |
| `Scene.RunKeepsInv` | script.js:118-134 | any number of frames keeps that invariant |
| `Scene.RunBeforeLoad` | script.js:121-121 | before `heart` is set, any number of frames changes nothing and reveals nothing |
| `Scene.RunSpins` | script.js:121-122 | after load, `n` frames add exactly `n` spin steps, whatever the zoom phase |
| `Scene.RunAfterComplete` | script.js:125-133 | once `animationComplete` is true it stays true, the camera never moves again, and the countdown is not revealed again |
| `Scene.RevealAtMostOnce` | script.js:129-133 | over any run of frames the countdown is revealed at most once |
| `Scene.ZoomCompletes` | script.js:125-133 | from any reachable loaded state the zoom finishes within `⌊(z - 2) / 0.05⌋ + 1` frames, with the camera in (1.95, 2] and exactly one reveal if the zoom was still pending |
| `Scene.SceneController.constructor` | script.js:7-16 | initial state: no model, spin 0, camera at z = 10, zoom not complete; the invariant holds |
| `Scene.SceneController.LoadModel` | script.js:41-58 | the assignment part of the loader callback (and of the fallback at script.js:103-106): `heart` becomes a fresh model with zero y rotation; the camera and the flag are left alone |
| `Scene.SceneController.OnModelLoaded` | script.js:40-59 | the whole load callback: set `heart`, then run one `animate` frame, so the state afterwards is `Next` of the freshly loaded state (spin already one step) and a reveal is reported exactly when the flag turns on |
| `Scene.SceneController.Frame` | script.js:118-134 | one `animate` call updates the fields to `Next` of the old state and keeps the invariant; it reports a reveal exactly when the flag turns on; before load nothing changes; the flag never reverts and freezes the camera |

## Findings

| source | as written | input that shows it | evidently intended | confidence | as-written member | corrected member |
|---|---|---|---|---|---|---|
| script.js:165-167 | `updateCountdown` calls `clearInterval(countdownInterval)`, but `countdownInterval` is a `const` local to the `window.onload` handler (script.js:175). In `updateCountdown` the name is not in scope, so the call throws a ReferenceError. The interval is never cleared and the completion message is never written. If the page was opened before the reunion date, every later tick writes negative fields and throws again. If it was opened after, the first call at script.js:174 throws inside `window.onload`, so script.js:175 never runs and no interval or later tick exists. | `now = reunionDate + 1`, so `timeLeft = -1` | stop the interval and replace the container with the completion message on the first tick past the reunion date | high; not executed | `Countdown.LastTickAsWritten` | `Countdown.Tick` |

## Left out

- Three.js scene, camera, renderer, lights, GLTF loading and material traversal (script.js:10-73). These are foreign library calls. Only their effect on the modelled state is kept: the camera's start distance and the loaded model.
- `createSimpleHeart` geometry (script.js:75-110). It is rendering-library construction. Its effect on the modelled state (a model with zero y rotation) is the same as the loader's, and `Scene.SceneController.LoadModel` stands for both.
- The resize handler (script.js:112-116), the load-progress logging (script.js:62-64) and `renderer.render` (script.js:137). These are I/O.
- Scheduling by `requestAnimationFrame` and `setInterval` (script.js:119, 175). These belong to the host event loop. A single frame and a single tick are modelled. Timers only promise a minimum delay: a tick may come late (a throttled background tab, for instance), and nothing is assumed about when it comes.
- DOM writes (`textContent`, `style.width`, `classList`, `innerHTML`). The values a tick or frame would write are returned as outputs (`Countdown.Display`, `Countdown.Status`, the `revealed` result of `Frame`).
- Reading the clock (`new Date().getTime()`) and parsing the two dates (script.js:2-3, 142). The dates depend on the local time zone. `now`, the separation date and the reunion date are integer parameters.
- `toFixed(1)` on the progress label (script.js:162). It is floating-point formatting.
- Countdown.Progress: computed over exact reals. JavaScript's floating-point division and multiplication are not modelled.
- Countdown.FloorDivIsDiv: `Math.floor` is taken of the exact quotient. Floating-point division can round upward to an integer only for magnitudes far beyond any real timestamp difference.
- Scene.Next: camera steps and spin are exact hundredths, and so are the exact spin of `Scene.RunSpins` and the frame bound and final camera band of `Scene.ZoomCompletes`. With floating-point steps of 0.05 the float camera position may need one frame more or fewer than the exact count (the `+ 1` in the bound of `Scene.ZoomCompletes` covers one extra frame), and the float spin and final camera position can differ from the exact values by rounding.
- The code only starts `animate` from the load callbacks (script.js:59, 109). So in the running page no frame ever happens before load. The model keeps the `if (heart)` guard as written and proves that such frames change nothing.
