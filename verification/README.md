# ToneProject firmware core in Dafny

A model of the integer mapping and state logic of the ToneProject handheld
controller. The device has a joystick with a push button, a ring of addressable
LEDs and a Bluetooth link. The model covers five pieces:

- **Tone** (`ToneController`): a table of `MODE_COUNT = 3` mode records and the
  active index. It has the angle→value map, with a `-1` sentinel past `maxAngle`,
  and the value→pixel-count map. Its state transitions are `setMode`,
  `setCurrentMode`, `nextMode` and `setCurrentValue`. `update()` is modelled as
  one tick: a pure step over the abstract inputs pressed, centred and angle. The
  step returns the new state and the message sent, if any.
- **PixelRing** (`PixelController`): the logical→physical index map. The map
  applies the offset, a one-sided wrap and optional reversal. Physical colour and
  status buffers are held as two sequences of length N, plus the current-pixel
  pointer. The ring's writes, fills, clear, blink (final state only) and reads
  are all modelled.
- **Joystick** (`JoystickController`): calibration origins, the per-axis
  deadzone filter, the centred test, the angle wrap into `[0, 360)` and the
  active-low button.
- **Telemetry** (`BluetoothController::sendData` and `log`): the builder of the
  `{"k": "v", ...}` message.
- **Ceiling** and **Decimal**: `mapf` followed by `ceil`, computed exactly over
  the rationals, and Arduino's decimal `String(int)`.

Samples from the analog and digital lines are parameters. `atan2` and the
radian→degree step stay abstract: their result enters `Joystick.ReadAngle` as an
exact real.

Behaviour of the code worth knowing:

- `getPixelIndex` (PixelController.cpp:54) is not a bijection for every offset.
  See Findings.
- `setCurrentMode` (libs/ToneOS/ToneController.cpp:75-91) does not clear the ring
  after the blink. Pixels outside the new bar stay dark but keep status "on"
  (`Tone.SetCurrentMode`).
- `setMode` (libs/ToneOS/ToneController.cpp:57-69) does not check
  `minValue <= maxValue`. It stores `minValue` as the current value regardless.
- A press in `update` (libs/ToneOS/ToneController.cpp:37-42) switches mode once,
  then spins until the button is released before returning.

## Model

| member | source | states |
|---|---|---|
| `Ceiling.Mapf` | libs/ToneOS/ToneController.cpp:149-151 | `inMin` maps to `outMin`, `inMax` to `outMax`, and an input in between lands in the output range |
| `Ceiling.MapCeil` | libs/ToneOS/ToneController.cpp:149-151 | the result `r` is the ceiling of the exact rational `mapf`: `r - 1 < mapf(...) <= r` |
| `Ceiling.CeilDivIsCeiling` | libs/ToneOS/ToneController.cpp:124 | integer ceiling division brackets the rational quotient for either sign of the divisor |
| `Ceiling.MapCeilBounds` | libs/ToneOS/ToneController.cpp:149-151 | for input in `[inMin, inMax]` and an ordered output range, the rounded map stays in `[outMin, outMax]` |
| `Ceiling.MapCeilEndpoints` | libs/ToneOS/ToneController.cpp:149-151 | `inMin` maps exactly to `outMin` and `inMax` exactly to `outMax` |
| `Ceiling.MapCeilMonotone` | libs/ToneOS/ToneController.cpp:149-151 | the rounded map is non-decreasing in its input |
| `Decimal.FromInt` | libs/ToneOS/ToneController.cpp:141-144 | `String(int)` is non-empty and starts with `-` exactly for negative numbers |
| `Decimal.FromIntRoundTrip` | libs/ToneOS/ToneController.cpp:141-144 | the decimal text of any integer parses back to that integer |
| `Telemetry.Message` | libs/ToneOS/BluetoothController.cpp:127-134 | every message starts with `{` and ends with `}`; it is exactly `{}` iff there are no pairs |
| `Telemetry.BuildMessage` | libs/ToneOS/BluetoothController.cpp:126-134 | the separator loop builds braces around the pairs joined by `", "`; `log(kvp, n)` at lines 87-97 runs the same loop |
| `Telemetry.LogPair` | libs/ToneOS/BluetoothController.cpp:77-80 | `log(key, value)` builds the same string as the one-pair array message |
| `Telemetry.JoinFront` | libs/ToneOS/BluetoothController.cpp:128-133 | read from the front, the message is the first pair, then `", "` and the rest: pairs appear in array order |
| `Telemetry.MessageLength` | libs/ToneOS/BluetoothController.cpp:128-133 | with n ≥ 1 pairs the message holds the braces, each rendered pair and exactly n − 1 two-character separators |
| `Telemetry.NoEscaping` | libs/ToneOS/BluetoothController.cpp:129 | keys and values are copied verbatim, so two different pair arrays can give the same message |
| `Telemetry.Render` | libs/ToneOS/BluetoothController.cpp:129 | a pair renders as `"key": "value"`, six characters longer than key and value |
| `PixelRing.Pack` | PixelController.cpp:38 | a packed colour is 0 exactly when all three channels truncate to 0 |
| `PixelRing.NewRing` | PixelController.cpp:8-20 | a new ring has every pixel dark with status off, and current pixel −1 |
| `PixelRing.PixelIndex` | PixelController.cpp:51-57 | for `p = i + offset` in `[0, N)` the result is `p` (mirrored when reversed); for `-N <= p < 2N` other than `p == N` it lies on the ring; `p == N` gives `N` (`-1` reversed) |
| `PixelRing.PixelIndexCorrected` | PixelController.cpp:51-57 | with `>=` at line 54: the same value for `p` in `[0, N)`, and on the ring for every `p >= -N` |
| `PixelRing.NoOffsetIsIdentityOrMirror` | PixelController.cpp:51-57 | with offset 0 the map is the identity on `[0, N)`, or `i ↦ N-1-i` when reversed |
| `PixelRing.ReversedOffsetExample` | PixelController.cpp:51-57 | with N = 8, offset 3 and reversal, logical 0 is physical 4 |
| `PixelRing.BoundaryEscapes` | PixelController.cpp:54 | for `0 < offset < N` the logical index `N - offset` maps to `N` (to `-1` when reversed), off the ring |
| `PixelRing.AsWrittenMissesAPixel` | PixelController.cpp:51-57 | for `0 < offset < N` no logical index in `[0, N)` reaches physical 0 (`N-1` when reversed) |
| `PixelRing.AgreesAwayFromBoundary` | PixelController.cpp:51-57 | the written and corrected maps agree except where `i + offset == N` |
| `PixelRing.CorrectedIsRotation` | PixelController.cpp:51-57 | with `>=`, logical `i` goes to `(i + offset) mod N`, mirrored when reversed |
| `PixelRing.CorrectedIsBijection` | PixelController.cpp:51-57 | with `>=` and `offset >= -N`, the map stays in range, is injective and reaches every physical pixel |
| `PixelRing.FillCorrected` | PixelController.cpp:59-64 | a fill through the corrected map colours exactly the corrected images of `0..k-1` and leaves the rest |
| `PixelRing.ReachedAgreeUnshifted` | PixelController.cpp:51-64 | with offset 0, for every `k`, logical `0..k-1` reach the same physical pixels through either map |
| `PixelRing.FillAgreesUnshifted` | PixelController.cpp:51-64 | with offset 0, a fill of any length gives the same ring through either map |
| `PixelRing.UnshiftedBoundaryExample` | PixelController.cpp:51-57 | on 12 pixels, offset 0, reversed, logical 12 maps to −1 as written and to 11 corrected, the pixel logical 0 reaches |
| `PixelRing.GetPixelColor` | PixelController.cpp:102-107 | a physical index outside `[0, N)` reads 0; inside, the stored colour |
| `PixelRing.ReadAfterWrite` | PixelController.cpp:43-49 | after a write, the mapped on-ring pixel reads the written colour and every other index reads as before |
| `PixelRing.ReadAfterClear` | PixelController.cpp:94-107 | after `clear` every physical index reads 0 |
| `PixelRing.SetPixel` | PixelController.cpp:43-49 | only the mapped pixel, and only if on the ring, gets the colour and status on; every other pixel is unchanged |
| `PixelRing.SetPixelRgb` | PixelController.cpp:35-41 | the same for a colour given as three channels |
| `PixelRing.Fill` | PixelController.cpp:59-64 | writing logical `0..k-1` colours exactly the physical pixels those indices reach and leaves the rest |
| `PixelRing.SetFirstN` | PixelController.cpp:59-64 | `setFirstnPixelColor(n)` colours the images of `0..n-1` and records `n` as current pixel for every `n` |
| `PixelRing.SetAll` | PixelController.cpp:70-74 | every pixel reached by some logical index of the ring takes the colour; unreached pixels keep theirs |
| `PixelRing.SetCurrentPixel` | PixelController.cpp:84-88 | the current pointer is written as a logical index only when it lies in `[0, N)`; otherwise nothing changes |
| `PixelRing.Clear` | PixelController.cpp:94-100 | every physical pixel becomes dark and off, with no index mapping; the layout and pointer are kept |
| `PixelRing.Blink` | PixelController.cpp:27-33 | after a blink every reachable pixel is dark with status on; unreachable pixels are untouched |
| `PixelRing.BlinkUnshifted` | PixelController.cpp:27-33 | on an unshifted ring a blink leaves every pixel dark and on |
| `PixelRing.ReachedOnMirroredRing` | PixelController.cpp:51-57 | on the firmware's layout (offset 0, reversed) the first n logical pixels are exactly the top n physical ones |
| `PixelRing.NoOffsetReachesAll` | PixelController.cpp:70-74 | with offset 0, a fill of all N logical indices reaches every physical pixel |
| `Joystick.Begin` | JoyController.cpp:15-19 | `begin` sets the deadzone to 450 and the origins to the current samples |
| `Joystick.Calibrate` | JoyController.cpp:21-25 | calibration overwrites both origins unconditionally and keeps the deadzone |
| `Joystick.AtDeadZone` | JoyController.cpp:41-43 | inside iff `-deadZone < value < deadZone`; never inside for a deadzone ≤ 0 |
| `Joystick.FilterAxis` | JoyController.cpp:27-57 | an axis offset inside the deadzone reads 0 and outside reads as is; any nonzero read has magnitude ≥ deadzone |
| `Joystick.ReadX` | JoyController.cpp:45-50 | with a positive deadzone, `readX` is 0 iff `abs(raw - originX) < deadZone`, and `raw - originX` otherwise |
| `Joystick.ReadY` | JoyController.cpp:52-57 | the same rule against `originY` |
| `Joystick.AtOrigin` | JoyController.cpp:69-73 | centred iff both raw samples lie strictly inside the deadzone around their origins |
| `Joystick.CentredAfterBegin` | JoyController.cpp:15-25 | right after `begin` the stick reads as centred on its calibration samples |
| `Joystick.IsPressed` | JoyController.cpp:75-77 | pressed iff the switch line reads LOW |
| `Joystick.ReadAngle` | JoyController.cpp:64-66 | the wrapped angle lies in `[0, 360)` and equals the rounded `degrees + offset`, reduced mod 360 |
| `Joystick.ReadAngleOfWholeDegrees` | JoyController.cpp:64-66 | for a whole-degree direction the wrap is `(degrees + offset) mod 360` |
| `Tone.DefaultModeInRange` | libs/ToneOS/ToneController.h:22-29 | the default record is 0..100 with value 0, inside its own range |
| `Tone.Begin` | libs/ToneOS/ToneController.cpp:15-35 | after `begin`: default modes, index 0, a dark ring of `pixelCount` pixels |
| `Tone.SetMode` | libs/ToneOS/ToneController.cpp:57-69 | an index outside `[0, 3)` changes nothing; otherwise only that record is replaced, with value = min |
| `Tone.SetModeKeepsInRange` | libs/ToneOS/ToneController.cpp:57-69 | `setMode` with `min <= max` keeps every value in its range |
| `Tone.Clamp` | libs/ToneOS/ToneController.cpp:102-103 | `min(max(v, lo), hi)` lies in `[lo, hi]` when `lo <= hi`, keeps in-range values, and gives `hi` when `lo > hi` |
| `Tone.MappedValue` | libs/ToneOS/ToneController.cpp:117-125 | a negative angle gives min; an angle past `maxAngle` gives −1; otherwise the exact ceiling of the linear map |
| `Tone.MappedValueInRange` | libs/ToneOS/ToneController.cpp:117-125 | for `min <= max` and an angle up to `maxAngle`, the value lies in `[min, max]` |
| `Tone.MappedValueSentinelOrInRange` | libs/ToneOS/ToneController.h:54-60 | "within mode's min and max" holds for every angle except past `maxAngle`, where −1 is returned |
| `Tone.DefaultArcHasNoSentinel` | libs/ToneOS/ToneController.h:60 | with the default `maxAngle` of 360, every angle in `[0, 360)` maps into `[min, max]`, never to the sentinel |
| `Tone.MappedValueMonotone` | libs/ToneOS/ToneController.cpp:117-125 | the value is non-decreasing in the angle up to `maxAngle` |
| `Tone.MappedValueEndpoints` | libs/ToneOS/ToneController.cpp:117-125 | angle 0 gives min, angle `maxAngle` gives max |
| `Tone.MappedValueExamples` | libs/ToneOS/ToneController.cpp:117-125 | on 0..100 with `maxAngle` 330, 165° gives 50 and 340° gives the sentinel |
| `Tone.MappedPixelIndex` | libs/ToneOS/ToneController.cpp:127-136 | the pixel count is the exact ceiling of the linear map of `[min, max]` onto `[0, pixelCount + 1]` |
| `Tone.MappedPixelIndexEndpoints` | libs/ToneOS/ToneController.cpp:127-136 | min lights 0 pixels; max asks for `pixelCount + 1` |
| `Tone.MappedPixelIndexMonotone` | libs/ToneOS/ToneController.cpp:127-136 | over the range the count lies in `[0, pixelCount + 1]` and grows with the value |
| `Tone.MappedPixelIndexExample` | libs/ToneOS/ToneController.cpp:127-136 | on 0..100 with 12 pixels, the value 50 lights 7 |
| `Tone.BarOnDarkRing` | libs/ToneOS/ToneController.cpp:107-114 | filling the first n logical pixels of a dark firmware ring draws a bar of n pixels down from the last |
| `Tone.SetCurrentValue` | libs/ToneOS/ToneController.cpp:101-115 | stores the clamped value, in range when `min <= max`; other records unchanged; the ring shows exactly that value's bar, the rest dark and off |
| `Tone.SetCurrentMode` | libs/ToneOS/ToneController.cpp:75-91 | the index becomes `index mod 3`; the table is unchanged; the ring shows the new mode's bar, the rest dark but on |
| `Tone.NextMode` | libs/ToneOS/ToneController.cpp:71-73 | the index advances by one, wrapping from 2 to 0; the table is unchanged |
| `Tone.NextModeWraps` | libs/ToneOS/ToneController.cpp:71-81 | from index 2, `nextMode` gives 0, not 3 |
| `Tone.SnapshotPairs` | libs/ToneOS/ToneController.cpp:138-147 | exactly five pairs, in order mode, value, r, g, b, from the active mode; the numbers parse back to the stored values |
| `Tone.Update` | libs/ToneOS/ToneController.cpp:37-55 | a press only advances the mode, with no send; centred does nothing; sentinel or unchanged does nothing; otherwise the value is stored and exactly one snapshot is sent |
| `Tone.UpdateKeepsInRange` | libs/ToneOS/ToneController.cpp:37-55 | every tick keeps every mode's value inside its range |
| `Tone.SendsExactlyOnChange` | libs/ToneOS/ToneController.cpp:37-55 | for an angle in `[0, 360)`, a tick sends iff it changes the active mode's stored value |
| `Tone.SingleValueModeIgnoresStick` | libs/ToneOS/ToneController.cpp:47-51 | for a mode whose min equals its max, every off-centre tick is ignored before `mapf` divides by the empty range |
| `Tone.SentinelSwallowsMinusOne` | libs/ToneOS/ToneController.cpp:47-51 | in a range containing −1, the legitimate value −1 at angle 0 is taken for the sentinel and discarded |

## Left out

- BLE lifecycle: the constructor, `begin`, advertising, `connect`, `disconnect`, `update`, `receiveData` and the server callbacks are library calls and connection state. A send is modelled as the message it would carry.
- `log(const String&)` only prints. `Serial.println` and the characteristic's `setValue`/`notify` are output, not modelled.
- Hardware I/O: `analogRead`, `digitalRead` and `pinMode` are parameters. `show`, `setBrightness`, `getNumPixels`, `begin` and the NeoPixel bus are left out.
- Colour packing follows the NeoPixel library's `Color(r, g, b)` (`r << 16 | g << 8 | b`, each channel truncated to a byte). That library is not part of this model.
- Timing: the delays in `JoystickController::begin`, `blink` and `setAllPixelsColorOrdered` are left out. `setAllPixelsColorOrdered` reaches the same final state as `PixelRing.SetAll`, so it has no separate member. Its intermediate flushes are output.
- The busy-wait for the button's release in `update` is left out. `Tone.Update` models one tick, and a press is one transition.
- Floating point: `Ceiling.MapCeil` computes `ceil(mapf(...))` exactly. For the firmware's own ranges (angles up to 330, values in small ranges, a few dozen pixels) every intermediate stays below 2^24, where single-precision products and sums of integers are exact, a correctly rounded division with an integer result is exact, and a non-integer quotient over such a small divisor lies too far from every integer to be rounded onto one; so `ceil` agrees with the model there. With larger operands the float result can differ from the model in either direction: rounding can lift a value just past an integer (`ceil` one higher) or drop it onto one (one lower, for example `+ out_min` on a 100000..100001 range rounding 100000.003 to 100000).
- `Joystick.ReadAngle`: `angle += offset`, the `+= 360` loop and `round` run in single precision in the firmware and are modelled exactly over the reals. `atan2` and the radian→degree conversion stay abstract. `normalize` is unused and left out.
- Integer width: the firmware's `int` is 32 bits, Dafny's is unbounded. No behaviour modelled here depends on wrap-around for the values the firmware handles (analog samples up to 1023, angles, pixel counts, mode ranges set by the sketch), so no wrap is modelled.
- `Tone.MappedValue`: requires `maxAngle != 0`, because the firmware divides by zero there.
- `Tone.MappedPixelIndex`: requires `min != max`. `Tone.SetCurrentValue`, `Tone.SetCurrentMode`, `Tone.NextMode` and `Tone.Update` carry the same condition for the mode they render, because `mapf` divides by zero there. `Tone.Update` asks it of the active mode only on ticks that store a new value, the one branch that renders it; `Tone.SingleValueModeIgnoresStick` shows that a one-value mode never reaches that branch.
- `Tone.SetCurrentMode`: requires a non-negative index. C++ `%` of a negative index would select no valid record.
- `PixelRing.NewRing`: requires at least one pixel. `getPixelIndex` reduces modulo the pixel count.
- `getCurrentValue` and `getCurrentModeName` are plain reads, covered by `Tone.Current`.
- The Python terminal side (BLE scanning, volume control, logging) is left out.

## Findings

| source | as written | input that shows it | evidently intended | confidence | as-written member | corrected member |
|---|---|---|---|---|---|---|
| PixelController.cpp:54 | `if (pixel > numPixels) pixel = pixel % numPixels;` lets `pixel == numPixels` through unreduced | 12 pixels, offset 3, not reversed: logical 9 maps to 12. That is off the ring, so the write is dropped, and physical 0 is never lit | `>=`: logical `i` maps to `(i + offset) mod N`, a bijection of `[0, N)` | not executed; high | `PixelRing.BoundaryEscapes`, `PixelRing.AsWrittenMissesAPixel` (on `PixelRing.PixelIndex`) | `PixelRing.CorrectedIsBijection` (on `PixelRing.PixelIndexCorrected`) |

The ring operations keep the map as written, because that is what every write
goes through. The only layout the firmware builds has offset 0. There the
boundary index is `N` itself, and `Tone` does write it: at the top of a mode's
range `getMappedPixelIndex` asks for `N + 1` pixels (`Tone.MappedPixelIndexEndpoints`),
so `setFirstnPixelColor` writes logical `N`. As written that write maps off the
ring and is dropped; corrected, it lands on the pixel logical 0 already painted
in the same colour (`PixelRing.UnshiftedBoundaryExample`). So the final ring is
the same either way: `PixelRing.FillAgreesUnshifted` proves that a fill of any
length on an offset-0 ring gives the same ring through both maps.
