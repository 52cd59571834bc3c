/**
 The joystick controller: calibration origins for both analog axes, a
 deadzone filter per axis, the "centred" test, the wrap of the polar angle
 into whole degrees `[0, 360)`, and the active-low push button. Analog and
 digital samples are parameters; `atan2` and the radian-to-degree
 conversion are not modelled, their result enters as an exact real.
 */
module Joystick {

  /** The deadzone `begin()` installs, in raw analog units. */
  const DEAD_ZONE: int := 450

  /** Calibration state: the raw reading of each axis at rest, and the
      deadzone half-width. */
  datatype Joystick = Joystick(originX: int, originY: int, deadZone: int)

  /** The level read on the switch line. */
  datatype Level = Low | High

  function Abs(x: int): nat {
    if x < 0 then -x else x
  }

  /** `begin()`: install the default deadzone, then calibrate on the current
      samples. */
  function Begin(rawX: int, rawY: int): (j: Joystick)
    ensures j.deadZone == DEAD_ZONE && j.deadZone > 0
    ensures j.originX == rawX && j.originY == rawY
  {
    Calibrate(Joystick(0, 0, DEAD_ZONE), rawX, rawY)
  }

  /** `calibrate()`: the current samples become the origins, unconditionally;
      the deadzone is kept. */
  function Calibrate(j: Joystick, rawX: int, rawY: int): (r: Joystick)
    ensures r.originX == rawX && r.originY == rawY
    ensures r.deadZone == j.deadZone
  {
    j.(originX := rawX, originY := rawY)
  }

  /** `atDeadZone(value)`: strictly inside the deadzone. */
  function AtDeadZone(j: Joystick, value: int): (inside: bool)
    ensures inside <==> -j.deadZone < value < j.deadZone
    ensures j.deadZone <= 0 ==> !inside
  {
    Abs(value) < j.deadZone
  }

  /** One axis read: the offset from the origin, or 0 inside the deadzone. */
  function FilterAxis(j: Joystick, origin: int, raw: int): (v: int)
    ensures AtDeadZone(j, raw - origin) ==> v == 0
    ensures !AtDeadZone(j, raw - origin) ==> v == raw - origin
    ensures v != 0 ==> Abs(v) >= j.deadZone
  {
    var normalized := raw - origin;
    if AtDeadZone(j, normalized) then 0 else normalized
  }

  /** `readX()` on the raw sample `raw`. */
  function ReadX(j: Joystick, raw: int): (v: int)
    ensures j.deadZone > 0 ==> (v == 0 <==> Abs(raw - j.originX) < j.deadZone)
    ensures v != 0 ==> v == raw - j.originX && Abs(v) >= j.deadZone
  {
    FilterAxis(j, j.originX, raw)
  }

  /** `readY()` on the raw sample `raw`. */
  function ReadY(j: Joystick, raw: int): (v: int)
    ensures j.deadZone > 0 ==> (v == 0 <==> Abs(raw - j.originY) < j.deadZone)
    ensures v != 0 ==> v == raw - j.originY && Abs(v) >= j.deadZone
  {
    FilterAxis(j, j.originY, raw)
  }

  /** `atOrigin()`: both filtered axes read 0, that is, with a positive
      deadzone, both raw samples lie strictly inside it. */
  function AtOrigin(j: Joystick, rawX: int, rawY: int): (centred: bool)
    ensures j.deadZone > 0 ==>
              (centred <==> Abs(rawX - j.originX) < j.deadZone && Abs(rawY - j.originY) < j.deadZone)
  {
    ReadX(j, rawX) == 0 && ReadY(j, rawY) == 0
  }

  /** Right after `begin()` the stick reads as centred on the very samples it
      was calibrated on. */
  lemma CentredAfterBegin(rawX: int, rawY: int)
    ensures AtOrigin(Begin(rawX, rawY), rawX, rawY)
  {
  }

  /** `isPressed()`: the switch is wired active-low. */
  function IsPressed(line: Level): (pressed: bool)
    ensures pressed <==> line == Low
  {
    line.Low?
  }

  /** C's `round` on a non-negative value: halves go up. */
  function RoundNonNegative(x: real): int
    requires x >= 0.0
  {
    (x + 0.5).Floor
  }

  /** The tail of `readAngle(offset)`: given the polar angle in degrees, add
      the offset, add 360 while negative, round, reduce modulo 360. The
      result is a whole degree in `[0, 360)` congruent to the rounded
      `degrees + offset`. */
  method ReadAngle(degrees: real, offset: int) returns (angle: int)
    ensures 0 <= angle < 360
    ensures angle == (degrees + offset as real + 0.5).Floor % 360
  {
    var a := degrees + offset as real;
    ghost var turns := 0;
    while a < 0.0
      invariant a == degrees + offset as real + 360.0 * turns as real
      decreases (-a).Floor
    {
      a := a + 360.0;
      turns := turns + 1;
    }
    var rounded := RoundNonNegative(a);
    FloorShift(degrees + offset as real + 0.5, turns);
    angle := rounded % 360;
    ModShift((degrees + offset as real + 0.5).Floor, turns);
  }

  /** Shifting by whole turns commutes with taking the floor. */
  lemma FloorShift(x: real, k: int)
    ensures (x + 360.0 * k as real).Floor == x.Floor + 360 * k
  {
  }

  lemma ModShift(x: int, k: int)
    ensures (x + 360 * k) % 360 == x % 360
  {
  }

  /** For a whole-degree direction the wrap is plain reduction modulo 360. */
  lemma {:induction false} ReadAngleOfWholeDegrees(degrees: int, offset: int)
    ensures (degrees as real + offset as real + 0.5).Floor % 360 == (degrees + offset) % 360
  {
    assert (degrees as real + offset as real + 0.5).Floor == degrees + offset;
  }
}
