/**
 The tone controller: a fixed table of `MODE_COUNT` modes, the index of the
 active one, and the per-tick decision that turns a joystick direction into
 a new value for the active mode, renders it as a bar on the LED ring and
 emits a telemetry snapshot. Joystick samples arrive already decided
 (pressed, centred, angle); the busy-wait for the button's release and the
 hardware set-up are not modelled.
 */
module Tone {
  import opened Options
  import Ceiling
  import Decimal
  import Telemetry
  import PixelRing

  /** Size of the mode table. */
  const MODE_COUNT: int := 3

  /** `getMappedValue`'s default `maxAngle`. */
  const DEFAULT_MAX_ANGLE: int := 360

  /** The `maxAngle` and `readAngle` offset `update()` uses: a 30 degree dead
      arc at the bottom of the dial, zero pointing up. */
  const DIAL_MAX_ANGLE: int := 330
  const DIAL_OFFSET: int := 90

  /** `getMappedValue`'s "ignore this reading" result. */
  const SENTINEL: int := -1

  type Byte = x: int | 0 <= x < 256

  /** One `mode` record. */
  datatype Mode = Mode(
    name: string,
    minValue: int,
    maxValue: int,
    currentValue: int,
    red: Byte,
    green: Byte,
    blue: Byte,
    brightness: Byte)

  /** The record's default member initialisers. */
  const DefaultMode: Mode := Mode("", 0, 100, 0, 255, 255, 255, 150)

  /** The controller's state: the mode table, the active index and the ring
      it renders on. */
  datatype Controller = Controller(modes: seq<Mode>, index: int, ring: PixelRing.Ring)

  /** The layout `begin()` gives the ring: no offset, reversed. */
  predicate Valid(c: Controller) {
    && |c.modes| == MODE_COUNT
    && 0 <= c.index < MODE_COUNT
    && PixelRing.Valid(c.ring)
    && c.ring.layout.offset == 0
    && c.ring.layout.reversed
  }

  function Current(c: Controller): Mode
    requires Valid(c)
  {
    c.modes[c.index]
  }

  function PixelCount(c: Controller): int
    requires Valid(c)
  {
    c.ring.layout.count
  }

  /** The record's value lies in its range (so the range is not empty). */
  predicate InRange(m: Mode) {
    m.minValue <= m.currentValue <= m.maxValue
  }

  predicate AllInRange(c: Controller) {
    forall k :: 0 <= k < |c.modes| ==> InRange(c.modes[k])
  }

  /** The pixel-count map divides by the width of the range. */
  predicate Renderable(m: Mode) {
    m.minValue != m.maxValue
  }

  function ModeColor(m: Mode): PixelRing.Color {
    PixelRing.Pack(m.red, m.green, m.blue)
  }

  /** The default record starts inside its own range. */
  lemma DefaultModeInRange()
    ensures InRange(DefaultMode) && Renderable(DefaultMode)
    ensures DefaultMode.minValue == 0 && DefaultMode.maxValue == 100 && DefaultMode.currentValue == 0
  {
  }

  /** Construction plus `begin()`: default modes, mode 0 active, a dark ring
      of `pixelCount` pixels with no offset, reversed. */
  function Begin(pixelCount: int): (c: Controller)
    requires pixelCount > 0
    ensures Valid(c) && AllInRange(c)
    ensures c.index == 0 && PixelCount(c) == pixelCount
    ensures forall k :: 0 <= k < MODE_COUNT ==> c.modes[k] == DefaultMode
    ensures forall q :: 0 <= q < pixelCount ==> c.ring.colors[q] == 0 && !c.ring.status[q]
  {
    Controller([DefaultMode, DefaultMode, DefaultMode], 0,
               PixelRing.NewRing(PixelRing.Layout(pixelCount, 0, true)))
  }

  /** `setMode`: an index outside the table changes nothing; otherwise that
      record is replaced and its value starts at the new minimum. */
  function SetMode(c: Controller, index: int, name: string, minValue: int, maxValue: int,
                   r: Byte, g: Byte, b: Byte, brightness: Byte): (res: Controller)
    requires Valid(c)
    ensures Valid(res) && res.index == c.index && res.ring == c.ring
    ensures !(0 <= index < MODE_COUNT) ==> res == c
    ensures 0 <= index < MODE_COUNT ==>
              && res.modes[index] == Mode(name, minValue, maxValue, minValue, r, g, b, brightness)
              && (minValue <= maxValue ==> InRange(res.modes[index]))
    ensures forall k :: 0 <= k < MODE_COUNT && k != index ==> res.modes[k] == c.modes[k]
  {
    if 0 <= index < MODE_COUNT then
      c.(modes := c.modes[index := Mode(name, minValue, maxValue, minValue, r, g, b, brightness)])
    else
      c
  }

  /** `setMode` keeps every value in range as long as the new range is not empty. */
  lemma SetModeKeepsInRange(c: Controller, index: int, name: string, minValue: int, maxValue: int,
                            r: Byte, g: Byte, b: Byte, brightness: Byte)
    requires Valid(c) && AllInRange(c) && minValue <= maxValue
    ensures AllInRange(SetMode(c, index, name, minValue, maxValue, r, g, b, brightness))
  {
  }

  /** `min(max(value, lo), hi)`. */
  function Clamp(value: int, lo: int, hi: int): (v: int)
    ensures lo <= hi ==> lo <= v <= hi
    ensures lo <= value <= hi ==> v == value
    ensures value < lo <= hi ==> v == lo
    ensures value > hi ==> v == hi
    ensures lo > hi ==> v == hi
  {
    var v := if value > lo then value else lo;
    if v < hi then v else hi
  }

  /** `getMappedValue(angle, maxAngle)`: a negative angle counts as 0, an
      angle past `maxAngle` yields the sentinel, anything else is the exact
      ceiling of the linear map of `[0, maxAngle]` onto the mode's range. */
  function MappedValue(m: Mode, angle: int, maxAngle: int): (v: int)
    requires maxAngle != 0
    ensures angle < 0 ==> v == m.minValue
    ensures 0 <= angle && angle > maxAngle ==> v == SENTINEL
    ensures 0 <= angle <= maxAngle ==>
              (v - 1) as real < Ceiling.Mapf(angle, 0, maxAngle, m.minValue, m.maxValue) <= v as real
  {
    if angle < 0 then
      assert Ceiling.CeilDiv((0 - 0) * (m.maxValue - m.minValue), maxAngle - 0) == 0;
      Ceiling.MapCeil(0, 0, maxAngle, m.minValue, m.maxValue)
    else if angle > maxAngle then SENTINEL
    else Ceiling.MapCeil(angle, 0, maxAngle, m.minValue, m.maxValue)
  }

  /** Inside the mapped arc the value lies in the mode's range. */
  lemma {:induction false} MappedValueInRange(m: Mode, angle: int, maxAngle: int)
    requires m.minValue <= m.maxValue && maxAngle > 0 && angle <= maxAngle
    ensures m.minValue <= MappedValue(m, angle, maxAngle) <= m.maxValue
  {
    if angle >= 0 {
      Ceiling.MapCeilBounds(angle, 0, maxAngle, m.minValue, m.maxValue);
    }
  }

  /** The header's promise "within mode's min and max" holds for every
      angle except where the sentinel is returned. */
  lemma {:induction false} MappedValueSentinelOrInRange(m: Mode, angle: int, maxAngle: int)
    requires m.minValue <= m.maxValue && maxAngle > 0
    ensures var v := MappedValue(m, angle, maxAngle);
            (v == SENTINEL && angle > maxAngle) || m.minValue <= v <= m.maxValue
  {
    if angle <= maxAngle {
      MappedValueInRange(m, angle, maxAngle);
    }
  }

  /** With the default `maxAngle` of 360 every whole degree `readAngle` can
      return lies inside the arc: the sentinel never appears. */
  lemma {:induction false} DefaultArcHasNoSentinel(m: Mode, angle: int)
    requires m.minValue <= m.maxValue && 0 <= angle < 360
    ensures m.minValue <= MappedValue(m, angle, DEFAULT_MAX_ANGLE) <= m.maxValue
  {
    MappedValueInRange(m, angle, DEFAULT_MAX_ANGLE);
  }

  /** Turning further round the arc never lowers the value. */
  lemma {:induction false} MappedValueMonotone(m: Mode, a1: int, a2: int, maxAngle: int)
    requires m.minValue <= m.maxValue && maxAngle > 0
    requires a1 <= a2 <= maxAngle
    ensures MappedValue(m, a1, maxAngle) <= MappedValue(m, a2, maxAngle)
  {
    var lo := if a1 < 0 then 0 else a1;
    var hi := if a2 < 0 then 0 else a2;
    Ceiling.MapCeilMonotone(lo, hi, 0, maxAngle, m.minValue, m.maxValue);
  }

  /** The ends of the arc map to the ends of the range. */
  lemma {:induction false} MappedValueEndpoints(m: Mode, maxAngle: int)
    requires maxAngle > 0
    ensures MappedValue(m, 0, maxAngle) == m.minValue
    ensures MappedValue(m, maxAngle, maxAngle) == m.maxValue
  {
    Ceiling.MapCeilEndpoints(0, maxAngle, m.minValue, m.maxValue);
  }

  /** Range 0..100 on the 330 degree dial: 165 degrees gives 50, and 340
      degrees, inside the dead arc, gives the sentinel. */
  lemma MappedValueExamples()
    ensures MappedValue(DefaultMode, 165, DIAL_MAX_ANGLE) == 50
    ensures MappedValue(DefaultMode, 340, DIAL_MAX_ANGLE) == SENTINEL
  {
    assert Ceiling.CeilDiv(165 * 100, 330) == 50;
  }

  /** `getMappedPixelIndex(value)`: the exact ceiling of the linear map of
      the mode's range onto `[0, pixelCount + 1]`. */
  function MappedPixelIndex(m: Mode, pixelCount: int, value: int): (n: int)
    requires Renderable(m)
    ensures (n - 1) as real < Ceiling.Mapf(value, m.minValue, m.maxValue, 0, pixelCount + 1) <= n as real
  {
    Ceiling.MapCeil(value, m.minValue, m.maxValue, 0, pixelCount + 1)
  }

  /** The minimum lights no pixel, the maximum asks for `pixelCount + 1`. */
  lemma {:induction false} MappedPixelIndexEndpoints(m: Mode, pixelCount: int)
    requires m.minValue < m.maxValue
    ensures MappedPixelIndex(m, pixelCount, m.minValue) == 0
    ensures MappedPixelIndex(m, pixelCount, m.maxValue) == pixelCount + 1
  {
    Ceiling.MapCeilEndpoints(m.minValue, m.maxValue, 0, pixelCount + 1);
  }

  /** Within the range the count lies in `[0, pixelCount + 1]` and grows with the value. */
  lemma {:induction false} MappedPixelIndexMonotone(m: Mode, pixelCount: int, v1: int, v2: int)
    requires m.minValue < m.maxValue && pixelCount >= 0
    requires m.minValue <= v1 <= v2 <= m.maxValue
    ensures 0 <= MappedPixelIndex(m, pixelCount, v1) <= MappedPixelIndex(m, pixelCount, v2) <= pixelCount + 1
  {
    Ceiling.MapCeilBounds(v1, m.minValue, m.maxValue, 0, pixelCount + 1);
    Ceiling.MapCeilBounds(v2, m.minValue, m.maxValue, 0, pixelCount + 1);
    Ceiling.MapCeilMonotone(v1, v2, m.minValue, m.maxValue, 0, pixelCount + 1);
  }

  /** Range 0..100 on a 12-pixel ring: the value 50 lights 7 pixels. */
  lemma MappedPixelIndexExample()
    ensures MappedPixelIndex(DefaultMode, 12, 50) == 7
  {
    assert Ceiling.CeilDiv(50 * 13, 100) == 7;
  }

  /** The ring shows a bar of `lit` pixels in `color`, growing down from the
      last physical pixel; every other pixel is dark, with status `unlit`. */
  predicate ShowsBar(ring: PixelRing.Ring, lit: int, color: PixelRing.Color, unlit: bool)
    requires PixelRing.Valid(ring)
  {
    forall q :: 0 <= q < ring.layout.count ==>
      if ring.layout.count - lit <= q then ring.colors[q] == color && ring.status[q]
      else ring.colors[q] == 0 && ring.status[q] == unlit
  }

  /** Filling the first `n` logical pixels of a dark, unshifted, reversed
      ring whose statuses all equal `unlit` draws the bar. */
  lemma {:induction false} BarOnDarkRing(ring: PixelRing.Ring, n: int, m: Mode, unlit: bool)
    requires PixelRing.Valid(ring) && ring.layout.offset == 0 && ring.layout.reversed
    requires forall q :: 0 <= q < ring.layout.count ==> ring.colors[q] == 0 && ring.status[q] == unlit
    ensures ShowsBar(PixelRing.SetFirstN(ring, n, m.red, m.green, m.blue), n, ModeColor(m), unlit)
  {
    forall q | 0 <= q < ring.layout.count
      ensures PixelRing.Reached(ring.layout, n, q) <==> ring.layout.count - n <= q
    {
      PixelRing.ReachedOnMirroredRing(ring.layout, n, q);
    }
  }

  /** `setCurrentValue(value)`: clamp into the active mode's range, store,
      clear the ring and redraw the bar for the stored value. Only the
      active record's value changes. */
  function SetCurrentValue(c: Controller, value: int): (res: Controller)
    requires Valid(c) && Renderable(Current(c))
    ensures Valid(res) && res.index == c.index && res.ring.layout == c.ring.layout
    ensures var m := Current(c);
            && res.modes[c.index] == m.(currentValue := Clamp(value, m.minValue, m.maxValue))
            && (m.minValue <= m.maxValue ==> InRange(res.modes[c.index]))
    ensures forall k :: 0 <= k < MODE_COUNT && k != c.index ==> res.modes[k] == c.modes[k]
    ensures var m := Current(res);
            ShowsBar(res.ring, MappedPixelIndex(m, PixelCount(c), m.currentValue), ModeColor(m), false)
  {
    var m := Current(c);
    var v := Clamp(value, m.minValue, m.maxValue);
    var led := MappedPixelIndex(m, PixelCount(c), v);
    var cleared := PixelRing.Clear(c.ring);
    BarOnDarkRing(cleared, led, m, false);
    c.(modes := c.modes[c.index := m.(currentValue := v)],
       ring := PixelRing.SetFirstN(cleared, led, m.red, m.green, m.blue))
  }

  /** `setCurrentMode(index)`: select `index % MODE_COUNT`, blink the whole
      ring in the mode's colour, then draw the mode's bar over the dark ring.
      The mode table is untouched; unlit pixels stay switched on after the
      blink. */
  function SetCurrentMode(c: Controller, index: int): (res: Controller)
    requires Valid(c) && index >= 0 && Renderable(c.modes[index % MODE_COUNT])
    ensures Valid(res) && res.ring.layout == c.ring.layout
    ensures res.index == index % MODE_COUNT && res.modes == c.modes
    ensures var m := Current(res);
            ShowsBar(res.ring, MappedPixelIndex(m, PixelCount(c), m.currentValue), ModeColor(m), true)
  {
    var k := index % MODE_COUNT;
    var m := c.modes[k];
    var blinked := PixelRing.Blink(c.ring, m.red, m.green, m.blue);
    PixelRing.BlinkUnshifted(c.ring, m.red, m.green, m.blue);
    var led := MappedPixelIndex(m, PixelCount(c), m.currentValue);
    BarOnDarkRing(blinked, led, m, true);
    c.(index := k, ring := PixelRing.SetFirstN(blinked, led, m.red, m.green, m.blue))
  }

  /** `nextMode()`: select the following mode, wrapping round the table. */
  function NextMode(c: Controller): (res: Controller)
    requires Valid(c) && Renderable(c.modes[(c.index + 1) % MODE_COUNT])
    ensures Valid(res) && res.modes == c.modes
    ensures res.index == if c.index == MODE_COUNT - 1 then 0 else c.index + 1
  {
    assert (c.index + 1) % MODE_COUNT == if c.index == MODE_COUNT - 1 then 0 else c.index + 1;
    SetCurrentMode(c, c.index + 1)
  }

  /** `sendDataChange()`: the five pairs sent for the active mode, in order
      mode, value, r, g, b; the numbers as Arduino's canonical decimal text,
      which reads back as the stored value and colour channels. */
  function SnapshotPairs(c: Controller): (kvp: seq<Telemetry.Pair>)
    requires Valid(c)
    ensures |kvp| == 5
    ensures kvp[0] == Telemetry.Pair("mode", Current(c).name)
    ensures kvp[1].key == "value" && Decimal.Parse(kvp[1].value) == Some(Current(c).currentValue)
    ensures kvp[1].value == Decimal.FromInt(Current(c).currentValue)
    ensures kvp[2].key == "r" && Decimal.Parse(kvp[2].value) == Some(Current(c).red)
    ensures kvp[2].value == Decimal.FromInt(Current(c).red)
    ensures kvp[3].key == "g" && Decimal.Parse(kvp[3].value) == Some(Current(c).green)
    ensures kvp[3].value == Decimal.FromInt(Current(c).green)
    ensures kvp[4].key == "b" && Decimal.Parse(kvp[4].value) == Some(Current(c).blue)
    ensures kvp[4].value == Decimal.FromInt(Current(c).blue)
  {
    var m := Current(c);
    Decimal.FromIntRoundTrip(m.currentValue);
    Decimal.FromIntRoundTrip(m.red);
    Decimal.FromIntRoundTrip(m.green);
    Decimal.FromIntRoundTrip(m.blue);
    [Telemetry.Pair("mode", m.name),
     Telemetry.Pair("value", Decimal.FromInt(m.currentValue)),
     Telemetry.Pair("r", Decimal.FromInt(m.red)),
     Telemetry.Pair("g", Decimal.FromInt(m.green)),
     Telemetry.Pair("b", Decimal.FromInt(m.blue))]
  }

  /** The outcome of one control-loop tick: the new state and the message
      sent, if any. */
  datatype Tick = Tick(next: Controller, sent: Option<string>)

  /** What `update()` needs to render whichever mode the tick touches: the
      next mode on a press, the active one only when a new value is stored. */
  predicate UpdateDefined(c: Controller, pressed: bool, atOrigin: bool, angle: int)
    requires Valid(c)
  {
    && (pressed ==> Renderable(c.modes[(c.index + 1) % MODE_COUNT]))
    && (!pressed && !atOrigin ==>
          var v := MappedValue(Current(c), angle, DIAL_MAX_ANGLE);
          v != SENTINEL && v != Current(c).currentValue ==> Renderable(Current(c)))
  }

  /** `update()`, one tick: a pressed button only switches mode; a centred
      stick does nothing; a reading in the dead arc or one that maps to the
      stored value does nothing; any other reading stores the value and
      sends exactly one snapshot. `angle` is `readAngle(DIAL_OFFSET)`. */
  function Update(c: Controller, pressed: bool, atOrigin: bool, angle: int): (t: Tick)
    requires Valid(c) && UpdateDefined(c, pressed, atOrigin, angle)
    ensures Valid(t.next) && t.next.ring.layout == c.ring.layout
    ensures pressed ==>
              && t.sent == None && t.next.modes == c.modes
              && t.next.index == (c.index + 1) % MODE_COUNT
    ensures !pressed ==> t.next.index == c.index
    ensures !pressed && atOrigin ==> t == Tick(c, None)
    ensures forall k :: 0 <= k < MODE_COUNT && k != c.index ==> t.next.modes[k] == c.modes[k]
    ensures !pressed && !atOrigin ==>
              var v := MappedValue(Current(c), angle, DIAL_MAX_ANGLE);
              if v == SENTINEL || v == Current(c).currentValue then t == Tick(c, None)
              else
                && Current(t.next).currentValue == Clamp(v, Current(c).minValue, Current(c).maxValue)
                && t.sent == Some(Telemetry.Message(SnapshotPairs(t.next)))
  {
    if pressed then Tick(NextMode(c), None)
    else if atOrigin then Tick(c, None)
    else
      var v := MappedValue(Current(c), angle, DIAL_MAX_ANGLE);
      if v == SENTINEL || v == Current(c).currentValue then Tick(c, None)
      else
        var next := SetCurrentValue(c, v);
        Tick(next, Some(Telemetry.Message(SnapshotPairs(next))))
  }

  /** From the last mode, the next one is mode 0, not `MODE_COUNT`. */
  lemma NextModeWraps(c: Controller)
    requires Valid(c) && c.index == 2 && Renderable(c.modes[0])
    ensures NextMode(c).index == 0
  {
  }

  /** Every tick keeps every mode's value inside its range. */
  lemma {:induction false} UpdateKeepsInRange(c: Controller, pressed: bool, atOrigin: bool, angle: int)
    requires Valid(c) && UpdateDefined(c, pressed, atOrigin, angle) && AllInRange(c)
    ensures AllInRange(Update(c, pressed, atOrigin, angle).next)
  {
    var t := Update(c, pressed, atOrigin, angle);
    if !pressed && !atOrigin {
      assert InRange(t.next.modes[c.index]);
    }
  }

  /** For an angle `readAngle` can return, a tick sends a snapshot exactly
      when it changes the active mode's stored value. */
  lemma {:induction false} SendsExactlyOnChange(c: Controller, pressed: bool, atOrigin: bool, angle: int)
    requires Valid(c) && UpdateDefined(c, pressed, atOrigin, angle) && AllInRange(c)
    requires 0 <= angle < 360
    ensures var t := Update(c, pressed, atOrigin, angle);
            t.sent.Some? <==> !pressed && t.next.modes[c.index].currentValue != c.modes[c.index].currentValue
  {
    if !pressed && !atOrigin {
      var m := Current(c);
      var v := MappedValue(m, angle, DIAL_MAX_ANGLE);
      if v != SENTINEL {
        MappedValueInRange(m, angle, DIAL_MAX_ANGLE);
      }
    }
  }

  /** A mode with a one-value range never reaches the rendering step: every
      off-centre tick maps to that value or to the sentinel and is ignored. */
  lemma {:induction false} SingleValueModeIgnoresStick(c: Controller, angle: int)
    requires Valid(c) && AllInRange(c) && Current(c).minValue == Current(c).maxValue
    ensures UpdateDefined(c, false, false, angle)
    ensures Update(c, false, false, angle) == Tick(c, None)
  {
    if angle <= DIAL_MAX_ANGLE {
      MappedValueInRange(Current(c), angle, DIAL_MAX_ANGLE);
    }
  }

  /** A mode whose range contains -1 loses that value: at angle 0 the map
      yields -1, the mode's own minimum, and the tick discards it as the
      sentinel although the stored value differs. */
  lemma {:induction false} SentinelSwallowsMinusOne(c: Controller)
    requires Valid(c) && Current(c).minValue == SENTINEL < Current(c).maxValue
    requires Current(c).currentValue != SENTINEL
    ensures MappedValue(Current(c), 0, DIAL_MAX_ANGLE) == SENTINEL == Current(c).minValue
    ensures Update(c, false, false, 0) == Tick(c, None)
  {
    MappedValueEndpoints(Current(c), DIAL_MAX_ANGLE);
  }
}
