/**
 The LED ring controller. Callers address pixels by a logical index; the
 ring translates it to the physical index the LED driver understands
 (rotation offset, one-sided wrap, optional reversal) and keeps, per
 physical pixel, the packed colour last written and an on/off status flag.
 Colours are the driver's packed 24-bit values; `show`, brightness and the
 bus protocol are not modelled.
 */
module PixelRing {

  /** A packed `0xRRGGBB` colour, the value the driver stores per pixel. */
  type Color = c: int | 0 <= c < 0x100_0000

  /** The construction parameters, fixed for the ring's lifetime. */
  datatype Layout = Layout(count: int, offset: int, reversed: bool)

  /** Colour and status buffers, indexed physically, plus the pointer that
      `setFirstnPixelColor` records. */
  datatype Ring = Ring(layout: Layout, colors: seq<Color>, status: seq<bool>, current: int)

  predicate Valid(r: Ring) {
    && r.layout.count > 0
    && |r.colors| == r.layout.count
    && |r.status| == r.layout.count
  }

  /** The driver's `Color(r, g, b)`: each channel truncated to a byte, then
      packed red-high. */
  function Pack(r: int, g: int, b: int): (c: Color)
    ensures c == 0 <==> r % 256 == 0 && g % 256 == 0 && b % 256 == 0
  {
    (r % 256) * 0x1_0000 + (g % 256) * 0x100 + b % 256
  }

  /** A fresh ring: every pixel dark and off, no current pixel. */
  function NewRing(layout: Layout): (r: Ring)
    requires layout.count > 0
    ensures Valid(r) && r.layout == layout
    ensures forall p :: 0 <= p < layout.count ==> r.colors[p] == 0 && !r.status[p]
    ensures r.current == -1
  {
    Ring(layout, seq(layout.count, _ => 0), seq(layout.count, _ => false), -1)
  }

  /** Logical to physical index, exactly as written: shift by the offset, add
      the pixel count once if negative, reduce modulo the count only when the
      result EXCEEDS the count, then mirror if reversed. */
  function PixelIndex(layout: Layout, i: int): (q: int)
    requires layout.count > 0
    ensures var n, p := layout.count, i + layout.offset;
            0 <= p < n ==> q == if layout.reversed then n - 1 - p else p
    ensures var n, p := layout.count, i + layout.offset;
            -n <= p < 2 * n && p != n ==> 0 <= q < n
    ensures var n, p := layout.count, i + layout.offset;
            p == n ==> q == if layout.reversed then -1 else n
  {
    var n := layout.count;
    var p := i + layout.offset;
    var p := if p < 0 then n + p else p;
    var p := if p > n then p % n else p;
    if layout.reversed then (n - p) - 1 else p
  }

  /** The index map with the boundary test corrected to `>=`: every offset
      not below `-count` lands on the ring. */
  function PixelIndexCorrected(layout: Layout, i: int): (q: int)
    requires layout.count > 0
    ensures var n, p := layout.count, i + layout.offset;
            0 <= p < n ==> q == if layout.reversed then n - 1 - p else p
    ensures i + layout.offset >= -layout.count ==> 0 <= q < layout.count
  {
    var n := layout.count;
    var p := i + layout.offset;
    var p := if p < 0 then n + p else p;
    var p := if p >= n then p % n else p;
    if layout.reversed then (n - p) - 1 else p
  }

  /** With no offset the map is the identity, or the mirror when reversed. */
  lemma NoOffsetIsIdentityOrMirror(layout: Layout, i: int)
    requires layout.count > 0 && layout.offset == 0
    requires 0 <= i < layout.count
    ensures PixelIndex(layout, i) == if layout.reversed then layout.count - 1 - i else i
  {
  }

  /** With 8 pixels, offset 3 and reversal, logical 0 is physical 4. */
  lemma ReversedOffsetExample()
    ensures PixelIndex(Layout(8, 3, true), 0) == 4
  {
  }

  /** As written, for `0 < offset < count` the logical index
      `count - offset` lands on `count` (or `-1` reversed): outside the ring. */
  lemma BoundaryEscapes(layout: Layout)
    requires 0 < layout.offset < layout.count
    ensures var p := PixelIndex(layout, layout.count - layout.offset);
            p == if layout.reversed then -1 else layout.count
  {
  }

  /** As written, for `0 < offset < count` no logical index of the ring
      reaches physical 0 (physical `count - 1` when reversed): that pixel can
      never be lit. */
  lemma {:induction false} AsWrittenMissesAPixel(layout: Layout, i: int)
    requires 0 < layout.offset < layout.count
    requires 0 <= i < layout.count
    ensures PixelIndex(layout, i) != if layout.reversed then layout.count - 1 else 0
  {
    var n, p := layout.count, i + layout.offset;
    if p > n {
      assert p % n == p - n by { ModSubtract(p, n); }
    }
  }

  lemma ModSubtract(p: int, n: int)
    requires 0 < n < p < 2 * n
    ensures p % n == p - n
  {
  }

  /** Away from the boundary index the two maps agree, so a ring with no
      offset (the layout the tone controller builds) is unaffected. */
  lemma {:induction false} AgreesAwayFromBoundary(layout: Layout, i: int)
    requires layout.count > 0
    requires i + layout.offset != layout.count
    ensures PixelIndex(layout, i) == PixelIndexCorrected(layout, i)
  {
  }

  /** The corrected map, for any offset not below `-count`, sends logical `i`
      to `(i + offset) mod count`, mirrored when reversed. */
  lemma {:induction false} CorrectedIsRotation(layout: Layout, i: int)
    requires layout.count > 0 && layout.offset >= -layout.count
    requires 0 <= i < layout.count
    ensures var q := (i + layout.offset) % layout.count;
            PixelIndexCorrected(layout, i) == if layout.reversed then layout.count - 1 - q else q
  {
    var n, p := layout.count, i + layout.offset;
    if p < 0 {
      ModAddBack(p, n);
      assert PixelIndexCorrected(layout, i) == if layout.reversed then n - 1 - (n + p) else n + p;
    } else if p < n {
      assert p % n == p;
    } else {
      assert PixelIndexCorrected(layout, i) == if layout.reversed then n - 1 - p % n else p % n;
    }
  }

  lemma ModAddBack(p: int, n: int)
    requires n > 0 && -n <= p < 0
    ensures p % n == n + p
  {
  }

  /** The corrected map is a bijection of `[0, count)`: it stays in range,
      distinct logical indices go to distinct physical ones, and every
      physical index is reached. */
  lemma {:induction false} CorrectedIsBijection(layout: Layout)
    requires layout.count > 0 && layout.offset >= -layout.count
    ensures forall i :: 0 <= i < layout.count ==> 0 <= PixelIndexCorrected(layout, i) < layout.count
    ensures forall i, j :: 0 <= i < layout.count && 0 <= j < layout.count && i != j ==>
              PixelIndexCorrected(layout, i) != PixelIndexCorrected(layout, j)
    ensures forall q :: 0 <= q < layout.count ==> CorrectedReaches(layout, q)
  {
    var n, off := layout.count, layout.offset;
    forall i | 0 <= i < n
      ensures 0 <= PixelIndexCorrected(layout, i) < n
    {
      CorrectedIsRotation(layout, i);
    }
    forall i, j | 0 <= i < n && 0 <= j < n && i != j
      ensures PixelIndexCorrected(layout, i) != PixelIndexCorrected(layout, j)
    {
      CorrectedIsRotation(layout, i);
      CorrectedIsRotation(layout, j);
      ShiftInjective(i, j, off, n);
    }
    forall q | 0 <= q < n
      ensures CorrectedReaches(layout, q)
    {
      var q' := if layout.reversed then n - 1 - q else q;
      var i := (q' - off) % n;
      CorrectedIsRotation(layout, i);
      ShiftInverse(q', off, n);
      assert PixelIndexCorrected(layout, i) == q;
    }
  }

  /** Physical pixel `q` is the corrected image of some logical index of the ring. */
  predicate CorrectedReaches(layout: Layout, q: int)
    requires layout.count > 0
  {
    exists i :: 0 <= i < layout.count && PixelIndexCorrected(layout, i) == q
  }

  lemma ShiftInjective(i: int, j: int, off: int, n: int)
    requires n > 0 && 0 <= i < n && 0 <= j < n && i != j
    ensures (i + off) % n != (j + off) % n
  {
    var a, b := (i + off) / n, (j + off) / n;
    if (i + off) % n == (j + off) % n {
      assert (a - b) * n == i - j;
      SmallMultiple(a - b, n);
    }
  }

  lemma ShiftInverse(q: int, off: int, n: int)
    requires n > 0 && 0 <= q < n
    ensures ((q - off) % n + off) % n == q
  {
    var k := (q - off) / n;
    assert (q - off) % n + off == q - k * n;
    ModMultiple(q, -k, n);
  }

  lemma ModMultiple(q: int, k: int, n: int)
    requires n > 0 && 0 <= q < n
    ensures (q + k * n) % n == q
  {
    var m := q + k * n;
    var d, r := m / n, m % n;
    assert (d - k) * n == q - r;
    SmallMultiple(d - k, n);
  }

  /** The only multiple of `n` strictly between `-n` and `n` is 0. */
  lemma SmallMultiple(k: int, n: int)
    requires n > 0 && -n < k * n < n
    ensures k == 0
  {
    if k >= 1 {
      MultiplyUp(1, k, n);
    } else if k <= -1 {
      MultiplyUp(k, -1, n);
    }
  }

  lemma MultiplyUp(x: int, y: int, n: int)
    requires n > 0 && x <= y
    ensures x * n <= y * n
  {
  }

  /** `getPixelColor`: the stored colour of a physical pixel, 0 outside the ring. */
  function GetPixelColor(ring: Ring, p: int): (c: Color)
    requires Valid(ring)
    ensures !(0 <= p < ring.layout.count) ==> c == 0
    ensures 0 <= p < ring.layout.count ==> c == ring.colors[p]
  {
    if 0 <= p < ring.layout.count then ring.colors[p] else 0
  }

  /** `setPixelColor(pixel, color)`: write the colour and switch the pixel on
      when the mapped index is on the ring; otherwise change nothing. */
  function SetPixel(ring: Ring, i: int, c: Color): (r: Ring)
    requires Valid(ring)
    ensures Valid(r) && r.layout == ring.layout && r.current == ring.current
    ensures var p := PixelIndex(ring.layout, i);
            forall q :: 0 <= q < ring.layout.count ==>
              if q == p then r.colors[q] == c && r.status[q]
              else r.colors[q] == ring.colors[q] && r.status[q] == ring.status[q]
  {
    var p := PixelIndex(ring.layout, i);
    if 0 <= p < ring.layout.count then
      ring.(colors := ring.colors[p := c], status := ring.status[p := true])
    else
      ring
  }

  /** `setPixelColor(pixel, r, g, b)`. */
  function SetPixelRgb(ring: Ring, i: int, r: int, g: int, b: int): (res: Ring)
    requires Valid(ring)
    ensures Valid(res) && res.layout == ring.layout && res.current == ring.current
    ensures var p := PixelIndex(ring.layout, i);
            forall q :: 0 <= q < ring.layout.count ==>
              if q == p then res.colors[q] == Pack(r, g, b) && res.status[q]
              else res.colors[q] == ring.colors[q] && res.status[q] == ring.status[q]
  {
    SetPixel(ring, i, Pack(r, g, b))
  }

  /** Physical pixel `q` is the image of one of the logical indices `0..k-1`. */
  predicate Reached(layout: Layout, k: int, q: int)
    requires layout.count > 0
  {
    exists j :: 0 <= j < k && PixelIndex(layout, j) == q
  }

  /** Write logical pixels `0..k-1` in order, all with one colour. */
  function Fill(ring: Ring, k: int, c: Color): (r: Ring)
    requires Valid(ring)
    ensures Valid(r) && r.layout == ring.layout && r.current == ring.current
    ensures forall q :: 0 <= q < ring.layout.count ==>
              if Reached(ring.layout, k, q) then r.colors[q] == c && r.status[q]
              else r.colors[q] == ring.colors[q] && r.status[q] == ring.status[q]
    decreases k
  {
    if k <= 0 then ring
    else
      var prev := Fill(ring, k - 1, c);
      var next := SetPixel(prev, k - 1, c);
      assert forall q :: Reached(ring.layout, k, q) <==>
               Reached(ring.layout, k - 1, q) || PixelIndex(ring.layout, k - 1) == q;
      next
  }

  /** Physical pixel `q` is the corrected image of one of the logical
      indices `0..k-1`. */
  predicate ReachedCorrected(layout: Layout, k: int, q: int)
    requires layout.count > 0
  {
    exists j :: 0 <= j < k && PixelIndexCorrected(layout, j) == q
  }

  /** `Fill` with every write going through the corrected map. */
  function FillCorrected(ring: Ring, k: int, c: Color): (r: Ring)
    requires Valid(ring)
    ensures Valid(r) && r.layout == ring.layout && r.current == ring.current
    ensures forall q :: 0 <= q < ring.layout.count ==>
              if ReachedCorrected(ring.layout, k, q) then r.colors[q] == c && r.status[q]
              else r.colors[q] == ring.colors[q] && r.status[q] == ring.status[q]
    decreases k
  {
    if k <= 0 then ring
    else
      var prev := FillCorrected(ring, k - 1, c);
      var p := PixelIndexCorrected(ring.layout, k - 1);
      assert forall q :: ReachedCorrected(ring.layout, k, q) <==>
               ReachedCorrected(ring.layout, k - 1, q) || p == q;
      if 0 <= p < ring.layout.count then
        prev.(colors := prev.colors[p := c], status := prev.status[p := true])
      else
        prev
  }

  /** With no offset, the two maps reach the same physical pixels from
      `0..k-1`, for every `k`: the boundary index `count` is lost as written,
      but its corrected image is the one logical 0 already reaches. */
  lemma {:induction false} ReachedAgreeUnshifted(layout: Layout, k: int, q: int)
    requires layout.count > 0 && layout.offset == 0
    requires 0 <= q < layout.count
    ensures Reached(layout, k, q) <==> ReachedCorrected(layout, k, q)
  {
    if Reached(layout, k, q) {
      var j :| 0 <= j < k && PixelIndex(layout, j) == q;
      UnshiftedMaps(layout, j);
    }
    if ReachedCorrected(layout, k, q) {
      var j :| 0 <= j < k && PixelIndexCorrected(layout, j) == q;
      UnshiftedMaps(layout, j);
      if j == layout.count {
        assert PixelIndex(layout, 0) == q;
      } else {
        assert PixelIndex(layout, j) == q;
      }
    }
  }

  /** With no offset the maps differ only at logical `count`, which the
      written map sends off the ring and the corrected one onto logical 0's
      pixel. */
  lemma UnshiftedMaps(layout: Layout, j: int)
    requires layout.count > 0 && layout.offset == 0 && j >= 0
    ensures j != layout.count ==> PixelIndex(layout, j) == PixelIndexCorrected(layout, j)
    ensures j == layout.count ==>
              && !(0 <= PixelIndex(layout, j) < layout.count)
              && PixelIndexCorrected(layout, j) == PixelIndex(layout, 0)
  {
  }

  /** On an unshifted ring a fill gives the same ring through either map,
      whatever the number of logical pixels written. */
  lemma {:induction false} FillAgreesUnshifted(ring: Ring, k: int, c: Color)
    requires Valid(ring) && ring.layout.offset == 0
    ensures Fill(ring, k, c) == FillCorrected(ring, k, c)
  {
    var a, b := Fill(ring, k, c), FillCorrected(ring, k, c);
    forall q | 0 <= q < ring.layout.count
      ensures a.colors[q] == b.colors[q] && a.status[q] == b.status[q]
    {
      ReachedAgreeUnshifted(ring.layout, k, q);
    }
    assert a.colors == b.colors;
    assert a.status == b.status;
  }

  /** On 12 pixels, no offset, reversed: the boundary index 12 maps off the
      ring as written; corrected, it maps to physical 11, where logical 0
      already lands. */
  lemma UnshiftedBoundaryExample()
    ensures PixelIndex(Layout(12, 0, true), 12) == -1
    ensures PixelIndexCorrected(Layout(12, 0, true), 12) == 11 == PixelIndex(Layout(12, 0, true), 0)
  {
  }

  /** `setFirstnPixelColor(n, r, g, b)`: fill logical `0..n-1` and record `n`
      as the current pixel, whatever its value. */
  function SetFirstN(ring: Ring, n: int, r: int, g: int, b: int): (res: Ring)
    requires Valid(ring)
    ensures Valid(res) && res.layout == ring.layout
    ensures res.current == n
    ensures forall q :: 0 <= q < ring.layout.count ==>
              if Reached(ring.layout, n, q) then res.colors[q] == Pack(r, g, b) && res.status[q]
              else res.colors[q] == ring.colors[q] && res.status[q] == ring.status[q]
  {
    Fill(ring, n, Pack(r, g, b)).(current := n)
  }

  /** `setAllPixelsColor(r, g, b)`: fill every logical index of the ring. */
  function SetAll(ring: Ring, r: int, g: int, b: int): (res: Ring)
    requires Valid(ring)
    ensures Valid(res) && res.layout == ring.layout && res.current == ring.current
    ensures forall q :: 0 <= q < ring.layout.count ==>
              if Reached(ring.layout, ring.layout.count, q) then res.colors[q] == Pack(r, g, b) && res.status[q]
              else res.colors[q] == ring.colors[q] && res.status[q] == ring.status[q]
  {
    Fill(ring, ring.layout.count, Pack(r, g, b))
  }

  /** `setCurrentPixelColor(r, g, b)`: colour the recorded current pixel,
      itself a logical index, when it lies in `[0, count)`. */
  function SetCurrentPixel(ring: Ring, r: int, g: int, b: int): (res: Ring)
    requires Valid(ring)
    ensures Valid(res) && res.layout == ring.layout && res.current == ring.current
    ensures !(0 <= ring.current < ring.layout.count) ==> res == ring
    ensures 0 <= ring.current < ring.layout.count ==>
              var p := PixelIndex(ring.layout, ring.current);
              forall q :: 0 <= q < ring.layout.count ==>
                if q == p then res.colors[q] == Pack(r, g, b) && res.status[q]
                else res.colors[q] == ring.colors[q] && res.status[q] == ring.status[q]
  {
    if 0 <= ring.current < ring.layout.count then SetPixelRgb(ring, ring.current, r, g, b) else ring
  }

  /** `clear()`: every physical pixel dark and off, with no index mapping. */
  function Clear(ring: Ring): (r: Ring)
    requires Valid(ring)
    ensures Valid(r) && r.layout == ring.layout && r.current == ring.current
    ensures forall q :: 0 <= q < ring.layout.count ==> r.colors[q] == 0 && !r.status[q]
  {
    ring.(colors := seq(ring.layout.count, _ => 0), status := seq(ring.layout.count, _ => false))
  }

  /** `blink(r, g, b, delayTime)`, final state only: every pixel the map
      reaches ends dark but switched on; any pixel it misses is untouched. */
  function Blink(ring: Ring, r: int, g: int, b: int): (res: Ring)
    requires Valid(ring)
    ensures Valid(res) && res.layout == ring.layout && res.current == ring.current
    ensures forall q :: 0 <= q < ring.layout.count ==>
              if Reached(ring.layout, ring.layout.count, q) then res.colors[q] == 0 && res.status[q]
              else res.colors[q] == ring.colors[q] && res.status[q] == ring.status[q]
  {
    var lit := Fill(ring, ring.layout.count, Pack(r, g, b));
    var dark := Fill(lit, ring.layout.count, 0);
    assert forall q :: 0 <= q < ring.layout.count ==>
             if Reached(ring.layout, ring.layout.count, q) then dark.colors[q] == 0 && dark.status[q]
             else dark.colors[q] == ring.colors[q] && dark.status[q] == ring.status[q];
    dark
  }

  /** Reading back the pixel a write went to gives the written colour;
      every other physical pixel reads as before. */
  lemma {:induction false} ReadAfterWrite(ring: Ring, i: int, c: Color, q: int)
    requires Valid(ring)
    ensures var p := PixelIndex(ring.layout, i);
            GetPixelColor(SetPixel(ring, i, c), q) ==
              if q == p && 0 <= p < ring.layout.count then c else GetPixelColor(ring, q)
  {
  }

  /** After `clear()` every physical index reads 0. */
  lemma {:induction false} ReadAfterClear(ring: Ring, q: int)
    requires Valid(ring)
    ensures GetPixelColor(Clear(ring), q) == 0
  {
  }

  /** On a reversed ring with no offset, the first `n` logical pixels are the
      top `n` physical ones: the bar graph grows down from the last pixel. */
  lemma {:induction false} ReachedOnMirroredRing(layout: Layout, n: int, q: int)
    requires layout.count > 0 && layout.offset == 0 && layout.reversed
    requires 0 <= q < layout.count
    ensures Reached(layout, n, q) <==> layout.count - n <= q
  {
    var c := layout.count;
    if c - n <= q {
      var j := c - 1 - q;
      assert PixelIndex(layout, j) == q;
    }
  }

  /** Every physical pixel of an unshifted ring is reached by the full fill. */
  lemma {:induction false} NoOffsetReachesAll(layout: Layout, q: int)
    requires layout.count > 0 && layout.offset == 0
    requires 0 <= q < layout.count
    ensures Reached(layout, layout.count, q)
  {
    var j := if layout.reversed then layout.count - 1 - q else q;
    assert PixelIndex(layout, j) == q;
  }

  /** On an unshifted ring `blink` reaches every pixel: all end dark and on. */
  lemma {:induction false} BlinkUnshifted(ring: Ring, r: int, g: int, b: int)
    requires Valid(ring) && ring.layout.offset == 0
    ensures var res := Blink(ring, r, g, b);
            forall q :: 0 <= q < ring.layout.count ==> res.colors[q] == 0 && res.status[q]
  {
    forall q | 0 <= q < ring.layout.count
      ensures Reached(ring.layout, ring.layout.count, q)
    {
      NoOffsetReachesAll(ring.layout, q);
    }
  }
}
