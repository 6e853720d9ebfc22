/**
 * The decoder wrapper's hand-over of a decoded image to Java: the choice
 * between a packed 32-bit ARGB array, an 8-bit gray array and a 16-bit gray
 * array, and the per-pixel conversion each of them applies (bias of signed
 * planes, round-half-up downscale with clamp, truncation, left-justification).
 */
module PixelPack {
  import opened Numeric
  import opened Options
  import opened Images

  // ---------------------------------------------------------------------
  // Per-sample arithmetic

  /** A signed plane's bias `1 << (prec - 1)` needs a positive precision. */
  predicate BiasDefined(c: Comp)
  {
    c.sgnd ==> c.prec >= 1
  }

  /** The value added to every sample of a plane: half the range if signed, else 0. */
  function Bias(c: Comp): (r: nat)
    requires BiasDefined(c)
    ensures !c.sgnd ==> r == 0
    ensures c.sgnd ==> r + r == Pow2(c.prec)
  {
    if c.sgnd then Pow2(c.prec - 1) else 0
  }

  /** The right shift that brings a plane of more than 8 bits down to 8. */
  function Shift(c: Comp): (r: nat)
    ensures c.prec > 8 ==> c.prec - r == 8
    ensures c.prec <= 8 ==> r == 0
  {
    if c.prec > 8 then c.prec - 8 else 0
  }

  /** The independent reference: p / 2^s rounded to nearest, halves up. */
  function RoundHalfUp(p: nat, s: nat): (n: nat)
    requires s >= 1
    ensures n * Pow2(s) <= p + Pow2(s - 1) < (n + 1) * Pow2(s)
  {
    DivBounds(p + Pow2(s - 1), Pow2(s));
    (p + Pow2(s - 1)) / Pow2(s)
  }

  /** With 2h = 2^s, `(p >> s) + ((p >> (s-1)) % 2)` is `(p + h) / 2h`. */
  lemma HalfUpBit(p: nat, h: nat)
    requires h >= 1
    ensures (p + h) / (2 * h) == p / (2 * h) + (p / h) % 2
  {
    var d := 2 * h;
    var q, r := p / d, p % d;
    var t, w := r / h, r % h;
    DivByHalf(p, h);
    DivUnique(p / h, 2, q, t);
    assert p == q * d + r;
    assert r == t * h + w;
    if t == 0 {
      assert r == w;
      DivUnique(p + h, d, q, r + h);
    } else {
      assert r == h + w;
      assert (q + 1) * d == q * d + d;
      DivUnique(p + h, d, q + 1, w);
    }
  }

  /**
   * The downscale as the packer writes it, `(p >> s) + ((p >> (s-1)) % 2)`:
   * the nearest integer to p / 2^s, halves rounded up.
   */
  function Rounded(p: nat, s: nat): (n: nat)
    requires s >= 1
    ensures n == RoundHalfUp(p, s)
  {
    assert Pow2(s) == 2 * Pow2(s - 1);
    HalfUpBit(p, Pow2(s - 1));
    p / Pow2(s) + (p / Pow2(s - 1)) % 2
  }

  /** The clamp the packer applies after a downscale. */
  function Clamp(pix: int): (r: int)
    ensures 0 <= r <= 255
    ensures 0 <= pix <= 255 ==> r == pix
    ensures pix > 255 ==> r == 255
    ensures pix < 0 ==> r == 0
  {
    if pix > 255 then 255 else if pix < 0 then 0 else pix
  }

  /**
   * One 8-bit channel: the biased sample `pix` downscaled by `shift` and
   * clamped when `shift` is not 0, then cast to unsigned char. C's `>>` on a
   * negative value is not modelled, so a shifted channel needs `pix >= 0`.
   */
  function Channel(pix: int, shift: nat): (r: int)
    requires shift > 0 ==> pix >= 0
    ensures 0 <= r < 256
    ensures shift == 0 ==> (r - pix) % 256 == 0
    ensures shift > 0 ==> r == if RoundHalfUp(pix, shift) > 255 then 255 else RoundHalfUp(pix, shift)
  {
    if shift == 0 then pix % 256 else Clamp(Rounded(pix, shift))
  }

  /** A larger (non-negative) sample never gives a darker downscaled channel. */
  lemma ChannelMonotone(p: nat, q: nat, shift: nat)
    requires shift > 0 && p <= q
    ensures Channel(p, shift) <= Channel(q, shift)
  {
    DivMonotone(p + Pow2(shift - 1), q + Pow2(shift - 1), Pow2(shift));
  }

  /** A downscaled channel maps 0 to 0 and the top value of its precision to 255. */
  lemma ChannelEnds(shift: nat)
    requires shift > 0
    ensures Channel(0, shift) == 0
    ensures Channel(Pow2(shift + 8) - 1, shift) == 255
  {
    var h := Pow2(shift - 1);
    var d := Pow2(shift);
    assert d == 2 * h;
    DivUnique(h, d, 0, h);
    Pow2Add(shift, 8);
    assert Pow2(8) == 256;
    DivUnique(Pow2(shift + 8) - 1 + h, d, 256, h - 1);
  }

  // ---------------------------------------------------------------------
  // The 32-bit ARGB image

  /** `(a << 24) | (r << 16) | (g << 8) | b` stored in a Java int: its four bytes are the channels. */
  function PixelWord(a: int, r: int, g: int, b: int): (w: int32)
    requires 0 <= a < 256 && 0 <= r < 256 && 0 <= g < 256 && 0 <= b < 256
    ensures Bits32(w) / 0x100_0000 == a
    ensures (Bits32(w) / 0x1_0000) % 0x100 == r
    ensures (Bits32(w) / 0x100) % 0x100 == g
    ensures Bits32(w) % 0x100 == b
  {
    var x := a * 0x100_0000 + r * 0x1_0000 + g * 0x100 + b;
    Bits32OfToInt32(x);
    DivUnique(x, 0x100_0000, a, r * 0x1_0000 + g * 0x100 + b);
    DivUnique(x, 0x1_0000, a * 0x100 + r, g * 0x100 + b);
    DivUnique(a * 0x100 + r, 0x100, a, r);
    DivUnique(x, 0x100, a * 0x1_0000 + r * 0x100 + g, b);
    DivUnique(a * 0x1_0000 + r * 0x100 + g, 0x100, a * 0x100 + r, g);
    ToInt32(x)
  }

  /** The packer's condition for the ARGB image: three or more planes whose first three agree, or two that agree. */
  predicate ArgbSelected(comps: seq<Comp>)
  {
    (|comps| >= 3 && comps[0].dx == comps[1].dx && comps[1].dx == comps[2].dx
     && comps[0].dy == comps[1].dy && comps[1].dy == comps[2].dy
     && comps[0].prec == comps[1].prec && comps[1].prec == comps[2].prec)
    || (|comps| == 2 && comps[0].dx == comps[1].dx && comps[0].dy == comps[1].dy && comps[0].prec == comps[1].prec)
  }

  /** Where one channel comes from: a plane, the bias added to it and the downscale applied. */
  datatype ChannelPlan = ChannelPlan(plane: nat, add: nat, shift: nat)

  /** The sources of the four channels; no alpha source means an opaque pixel. */
  datatype ArgbPlan = ArgbPlan(red: ChannelPlan, green: ChannelPlan, blue: ChannelPlan, alpha: Option<ChannelPlan>)

  /** The planes a plan would read have a defined bias. */
  predicate PlanDefined(comps: seq<Comp>)
  {
    |comps| >= 1 && BiasDefined(comps[0])
    && (|comps| == 2 ==> BiasDefined(comps[1]))
    && (|comps| == 3 ==> BiasDefined(comps[1]) && BiasDefined(comps[2]))
  }

  /** Every plane a plan names exists. */
  predicate PlanInRange(plan: ArgbPlan, count: nat)
  {
    plan.red.plane < count && plan.green.plane < count && plan.blue.plane < count
    && (plan.alpha.Some? ==> plan.alpha.value.plane < count)
  }

  /**
   * The channel set-up of the ARGB branch. Exactly three planes give red,
   * green and blue, each with its own bias and shift. Otherwise (two planes,
   * or five and more) all three colours read the first plane but only red
   * gets its bias and shift, and a second plane is alpha only when there are
   * exactly two. Four planes are excluded: the source never sets their alpha
   * source and reads through a null pointer.
   */
  function PlanArgb(comps: seq<Comp>): (plan: ArgbPlan)
    requires ArgbSelected(comps) && |comps| != 4 && PlanDefined(comps)
    ensures PlanInRange(plan, |comps|)
    ensures plan.alpha.Some? <==> |comps| == 2
  {
    var red := ChannelPlan(0, Bias(comps[0]), Shift(comps[0]));
    if |comps| == 3 then
      ArgbPlan(red, ChannelPlan(1, Bias(comps[1]), Shift(comps[1])), ChannelPlan(2, Bias(comps[2]), Shift(comps[2])), None)
    else
      ArgbPlan(red, ChannelPlan(0, 0, 0), ChannelPlan(0, 0, 0),
        if |comps| == 2 then Some(ChannelPlan(1, Bias(comps[1]), Shift(comps[1]))) else None)
  }

  /** The four samples one pixel reads, in red, green, blue, alpha order. */
  datatype Samples = Samples(r: int, g: int, b: int, a: int)

  /** The sample arrays the red, green, blue and alpha pointers walk; no alpha array without an alpha plane. */
  datatype Sources = Sources(red: array<int>, green: array<int>, blue: array<int>, alpha: Option<array<int>>)

  /** The arrays a plan points the channel pointers at. */
  function SourcesOf(plan: ArgbPlan, comps: seq<Comp>): (src: Sources)
    requires PlanInRange(plan, |comps|)
    ensures src.alpha.Some? <==> plan.alpha.Some?
  {
    Sources(comps[plan.red.plane].data, comps[plan.green.plane].data, comps[plan.blue.plane].data,
      if plan.alpha.Some? then Some(comps[plan.alpha.value.plane].data) else None)
  }

  /** Every source array holds at least n samples. */
  predicate SourcesFit(src: Sources, n: nat)
  {
    n <= src.red.Length && n <= src.green.Length && n <= src.blue.Length
    && (src.alpha.Some? ==> n <= src.alpha.value.Length)
  }

  /** The samples at index i of the sources (0 for a missing alpha). */
  function SamplesAt(src: Sources, i: nat): Samples
    requires SourcesFit(src, i + 1)
    reads src.red, src.green, src.blue, if src.alpha.Some? then {src.alpha.value} else {}
  {
    Samples(src.red[i], src.green[i], src.blue[i], if src.alpha.Some? then src.alpha.value[i] else 0)
  }

  /** Every shifted channel of a pixel has a non-negative biased sample. */
  predicate Shiftable(plan: ArgbPlan, q: Samples)
  {
    (plan.red.shift > 0 ==> plan.red.add + q.r >= 0)
    && (plan.green.shift > 0 ==> plan.green.add + q.g >= 0)
    && (plan.blue.shift > 0 ==> plan.blue.add + q.b >= 0)
    && (plan.alpha.Some? && plan.alpha.value.shift > 0 ==> plan.alpha.value.add + q.a >= 0)
  }

  /** One ARGB pixel: each channel converted by its plan, alpha 255 without an alpha source. */
  function ArgbPixel(plan: ArgbPlan, q: Samples): int32
    requires Shiftable(plan, q)
  {
    var red := Channel(plan.red.add + q.r, plan.red.shift);
    var green := Channel(plan.green.add + q.g, plan.green.shift);
    var blue := Channel(plan.blue.add + q.b, plan.blue.shift);
    var alpha := if plan.alpha.Some? then Channel(plan.alpha.value.add + q.a, plan.alpha.value.shift) else 255;
    PixelWord(alpha, red, green, blue)
  }

  /** Three planes: each colour byte is its own plane's biased, downscaled sample, and alpha is 0xFF. */
  lemma ThreePlanePixel(comps: seq<Comp>, q: Samples)
    requires ArgbSelected(comps) && |comps| == 3 && PlanDefined(comps) && Shiftable(PlanArgb(comps), q)
    ensures var w := Bits32(ArgbPixel(PlanArgb(comps), q));
      && w / 0x100_0000 == 0xFF
      && (w / 0x1_0000) % 0x100 == Channel(Bias(comps[0]) + q.r, Shift(comps[0]))
      && (w / 0x100) % 0x100 == Channel(Bias(comps[1]) + q.g, Shift(comps[1]))
      && w % 0x100 == Channel(Bias(comps[2]) + q.b, Shift(comps[2]))
  {
  }

  /**
   * Two planes (gray plus alpha): red is the biased, downscaled gray sample,
   * green and blue are the raw gray sample cast to unsigned char, and alpha
   * is the second plane converted with its own bias and shift.
   */
  lemma TwoPlanePixel(comps: seq<Comp>, q: Samples)
    requires ArgbSelected(comps) && |comps| == 2 && PlanDefined(comps) && Shiftable(PlanArgb(comps), q)
    ensures var w := Bits32(ArgbPixel(PlanArgb(comps), q));
      && w / 0x100_0000 == Channel(Bias(comps[1]) + q.a, Shift(comps[1]))
      && (w / 0x1_0000) % 0x100 == Channel(Bias(comps[0]) + q.r, Shift(comps[0]))
      && (w / 0x100) % 0x100 == q.g % 256
      && w % 0x100 == q.b % 256
  {
  }

  /** Five or more planes: only the first is shown, green and blue raw, and the pixel is opaque. */
  lemma ManyPlanePixel(comps: seq<Comp>, q: Samples)
    requires ArgbSelected(comps) && |comps| >= 5 && PlanDefined(comps) && Shiftable(PlanArgb(comps), q)
    ensures var w := Bits32(ArgbPixel(PlanArgb(comps), q));
      && w / 0x100_0000 == 0xFF
      && (w / 0x1_0000) % 0x100 == Channel(Bias(comps[0]) + q.r, Shift(comps[0]))
      && (w / 0x100) % 0x100 == q.g % 256
      && w % 0x100 == q.b % 256
  {
  }

  /** Every pixel below n can be converted. */
  predicate AllShiftable(plan: ArgbPlan, src: Sources, n: nat)
    requires SourcesFit(src, n)
    reads src.red, src.green, src.blue, if src.alpha.Some? then {src.alpha.value} else {}
  {
    forall i | 0 <= i < n :: Shiftable(plan, SamplesAt(src, i))
  }

  /** The loop of the ARGB branch: word i of `out` is the ARGB pixel of sample i of the sources. */
  method FillArgb(plan: ArgbPlan, src: Sources, n: nat, out: array<int32>)
    requires SourcesFit(src, n) && n <= out.Length && AllShiftable(plan, src, n)
    modifies out
    ensures forall i | 0 <= i < n :: out[i] == ArgbPixel(plan, SamplesAt(src, i))
    ensures forall i | n <= i < out.Length :: out[i] == old(out[i])
  {
    var i := 0;
    while i < n
      invariant 0 <= i <= n
      invariant forall k | 0 <= k < i :: out[k] == ArgbPixel(plan, SamplesAt(src, k))
      invariant forall k | n <= k < out.Length :: out[k] == old(out[k])
    {
      out[i] := ArgbPixel(plan, SamplesAt(src, i));
      i := i + 1;
    }
  }

  /** The ARGB branch: the channel set-up for the planes, then the loop over width * height pixels of the first plane. */
  method PackArgb(comps: seq<Comp>, out: array<int32>)
    requires ArgbSelected(comps) && |comps| != 4 && PlanDefined(comps)
    requires var n := comps[0].w * comps[0].h; var plan := PlanArgb(comps);
      n <= out.Length && SourcesFit(SourcesOf(plan, comps), n) && AllShiftable(plan, SourcesOf(plan, comps), n)
    modifies out
    ensures var plan := PlanArgb(comps);
      forall i | 0 <= i < comps[0].w * comps[0].h :: out[i] == ArgbPixel(plan, SamplesAt(SourcesOf(plan, comps), i))
    ensures forall i | comps[0].w * comps[0].h <= i < out.Length :: out[i] == old(out[i])
  {
    var plan := PlanArgb(comps);
    FillArgb(plan, SourcesOf(plan, comps), comps[0].w * comps[0].h, out);
  }

  // ---------------------------------------------------------------------
  // The 8-bit and 16-bit gray images

  /** The 8-bit gray value: the biased sample cast to unsigned char, then viewed as a Java byte. */
  function GrayByte(c: Comp, sample: int): (r: int8)
    requires BiasDefined(c)
    ensures (r as int - (Bias(c) + sample)) % 256 == 0
  {
    ToInt8(Bias(c) + sample)
  }

  /** There is no clamp on the 8-bit path: an unsigned sample of 256 comes out as 0, not 255. */
  lemma GrayByteWraps(c: Comp)
    requires !c.sgnd
    ensures GrayByte(c, 256) == 0 && GrayByte(c, 255) == -1
  {
  }

  /** A left-justified value, with U = 2^u, D = 2^d and P = 2^prec = D * U, where P * U = 2^16. */
  lemma JustifyCore(v: nat, uu: nat, dd: nat, pp: nat)
    requires uu >= 1 && dd >= 1 && pp == dd * uu && pp * uu == 0x1_0000
    ensures v > 0 ==> v * uu + v / dd > 0
    ensures v == 0 ==> v * uu + v / dd == 0
    ensures v < pp ==> v * uu + v / dd <= 0xFFFF
    ensures v < pp ==> (v * uu + v / dd) / uu == v
  {
    var lo, t := v * uu, v / dd;
    if v < pp {
      DivBelow(v, dd, uu);
      DivUnique(lo + t, uu, v, t);
      MulLe(v + 1, pp, uu);
      assert (v + 1) * uu == lo + uu;
    }
    if v > 0 {
      MulAtLeast(v, uu);
    }
  }

  /** The powers of two of a precision between 9 and 15. */
  lemma JustifyPowers(prec: nat)
    requires 9 <= prec <= 15
    ensures Pow2(prec) == Pow2(2 * prec - 16) * Pow2(16 - prec)
    ensures Pow2(prec) * Pow2(16 - prec) == 0x1_0000
  {
    Pow2Add(2 * prec - 16, 16 - prec);
    Pow2Add(prec, 16 - prec);
    Pow2Sixteen();
  }

  /** `(v << (16 - prec)) + (v >> (2 * prec - 16))`: v moved to the top of 16 bits with its high bits repeated below. */
  function LeftJustify(v: nat, prec: int): int
    requires 9 <= prec <= 15
  {
    v * Pow2(16 - prec) + v / Pow2(2 * prec - 16)
  }

  /** LeftJustify in terms of its two powers of two. */
  lemma LeftJustifyIs(v: nat, prec: int, uu: nat, dd: nat)
    requires 9 <= prec <= 15 && uu == Pow2(16 - prec) && dd == Pow2(2 * prec - 16)
    ensures LeftJustify(v, prec) == v * uu + v / dd
  {
  }

  /** A sample of the precision stays within 16 bits, keeps v as its top bits, and is 0 only for 0. */
  lemma LeftJustifyRange(v: nat, prec: int)
    requires 9 <= prec <= 15 && v < Pow2(prec)
    ensures 0 <= LeftJustify(v, prec) <= 0xFFFF
    ensures LeftJustify(v, prec) / Pow2(16 - prec) == v
    ensures LeftJustify(v, prec) == 0 <==> v == 0
  {
    var uu, dd, pp := Pow2(16 - prec), Pow2(2 * prec - 16), Pow2(prec);
    JustifyPowers(prec);
    JustifyCore(v, uu, dd, pp);
    LeftJustifyIs(v, prec, uu, dd);
  }

  /** With U, D and P as in JustifyCore, P - 1 left-justifies to 0xFFFF. */
  lemma JustifyTop(uu: nat, dd: nat, pp: nat)
    requires uu >= 1 && dd >= 1 && pp == dd * uu && pp * uu == 0x1_0000
    ensures (pp - 1) * uu + (pp - 1) / dd == 0xFFFF
  {
    assert pp - 1 == (uu - 1) * dd + (dd - 1);
    DivUnique(pp - 1, dd, uu - 1, dd - 1);
    assert (pp - 1) * uu == pp * uu - uu;
  }

  /** The top value of a precision maps to 0xFFFF: 12-bit 0xFFF becomes 0xFFFF, not 0xFFF0. */
  lemma LeftJustifyFullScale(prec: int)
    requires 9 <= prec <= 15
    ensures LeftJustify(Pow2(prec) - 1, prec) == 0xFFFF
  {
    var uu, dd, pp := Pow2(16 - prec), Pow2(2 * prec - 16), Pow2(prec);
    JustifyPowers(prec);
    JustifyTop(uu, dd, pp);
    LeftJustifyIs(pp - 1, prec, uu, dd);
  }

  /** Left-justification keeps the order of samples strictly. */
  lemma LeftJustifyStrictlyMonotone(v: nat, w: nat, prec: int)
    requires 9 <= prec <= 15 && v < w < Pow2(prec)
    ensures LeftJustify(v, prec) < LeftJustify(w, prec)
  {
    var uu := Pow2(16 - prec);
    var lv, lw := LeftJustify(v, prec), LeftJustify(w, prec);
    LeftJustifyRange(v, prec);
    LeftJustifyRange(w, prec);
    if lv >= lw {
      DivMonotone(lw, lv, uu);
    }
  }

  /** The value before the final `& 0xffff`: left-justified below 16 bits, as it is from 16 bits up. */
  function ShortValue(prec: int, v: int): int
    requires prec > 8 && (prec < 16 ==> v >= 0)
  {
    if prec < 16 then LeftJustify(v, prec) else v
  }

  /** The 16-bit gray value: the biased sample, left-justified below 16 bits, masked to 16 bits and viewed as a Java short. */
  function GrayShort(c: Comp, sample: int): int16
    requires BiasDefined(c) && c.prec > 8 && (c.prec < 16 ==> Bias(c) + sample >= 0)
  {
    ToInt16(ShortValue(c.prec, Bias(c) + sample) % 0x1_0000)
  }

  /** From 16 bits up the short holds the low 16 bits of the biased sample. */
  lemma GrayShortWide(c: Comp, sample: int)
    requires BiasDefined(c) && c.prec >= 16
    ensures (GrayShort(c, sample) as int - (Bias(c) + sample)) % 0x1_0000 == 0
  {
    var v := Bias(c) + sample;
    DivUnique(v, 0x1_0000, v / 0x1_0000, v % 0x1_0000);
  }

  /** Below 16 bits the short's bit pattern is the left-justified sample, whose top bits give the sample back. */
  lemma GrayShortNarrow(c: Comp, sample: int)
    requires BiasDefined(c) && 9 <= c.prec <= 15 && 0 <= Bias(c) + sample < Pow2(c.prec)
    ensures Bits16(GrayShort(c, sample)) == LeftJustify(Bias(c) + sample, c.prec)
    ensures Bits16(GrayShort(c, sample)) / Pow2(16 - c.prec) == Bias(c) + sample
  {
    var v := Bias(c) + sample;
    var r := LeftJustify(v, c.prec);
    LeftJustifyRange(v, c.prec);
    DivUnique(r, 0x1_0000, 0, r);
    Bits16OfToInt16(r);
  }

  /** The mask is no-op below 16 bits: the justified value already fits. */
  lemma MaskNoOp(prec: int, v: nat)
    requires 9 <= prec <= 15 && v < Pow2(prec)
    ensures ShortValue(prec, v) % 0x1_0000 == ShortValue(prec, v)
  {
    var r := LeftJustify(v, prec);
    LeftJustifyRange(v, prec);
    DivUnique(r, 0x1_0000, 0, r);
  }

  /** The loop of the 8-bit gray image: byte i is the gray value of sample i. */
  method PackGray8(c: Comp, out: array<int8>)
    requires BiasDefined(c) && c.w * c.h <= c.data.Length && c.w * c.h <= out.Length
    modifies out
    ensures forall i | 0 <= i < c.w * c.h :: out[i] == GrayByte(c, c.data[i])
    ensures forall i | c.w * c.h <= i < out.Length :: out[i] == old(out[i])
  {
    var n := c.w * c.h;
    var i := 0;
    while i < n
      invariant 0 <= i <= n
      invariant forall k | 0 <= k < i :: out[k] == GrayByte(c, c.data[k])
      invariant forall k | n <= k < out.Length :: out[k] == old(out[k])
    {
      out[i] := GrayByte(c, c.data[i]);
      i := i + 1;
    }
  }

  /** Every sample of a plane of 9 to 15 bits is non-negative once biased, so it can be shifted. */
  predicate GrayShiftable(c: Comp, n: nat)
    requires BiasDefined(c) && n <= c.data.Length
    reads c.data
  {
    c.prec < 16 ==> forall i | 0 <= i < n :: Bias(c) + c.data[i] >= 0
  }

  /** The loop of the 16-bit gray image: short i is the gray value of sample i. */
  method PackGray16(c: Comp, out: array<int16>)
    requires BiasDefined(c) && c.prec > 8 && c.w * c.h <= c.data.Length && c.w * c.h <= out.Length
    requires GrayShiftable(c, c.w * c.h)
    modifies out
    ensures forall i | 0 <= i < c.w * c.h :: out[i] == GrayShort(c, c.data[i])
    ensures forall i | c.w * c.h <= i < out.Length :: out[i] == old(out[i])
  {
    var n := c.w * c.h;
    var i := 0;
    while i < n
      invariant 0 <= i <= n
      invariant forall k | 0 <= k < i :: out[k] == GrayShort(c, c.data[k])
      invariant forall k | n <= k < out.Length :: out[k] == old(out[k])
    {
      out[i] := GrayShort(c, c.data[i]);
      i := i + 1;
    }
  }

  // ---------------------------------------------------------------------
  // The choice of host array

  /** Which Java array receives the pixels: image24 (ARGB words), image8 (bytes) or image16 (shorts). */
  datatype Layout = ArgbImage | ByteImage | ShortImage

  /**
   * The branch the hand-over takes: ARGB when the planes qualify, otherwise
   * the first plane as 8-bit gray up to 8 bits and as 16-bit gray above.
   * A single plane is never ARGB; several planes that do not qualify show
   * only their first plane.
   */
  function LayoutOf(comps: seq<Comp>): (r: Layout)
    requires |comps| >= 1
    ensures |comps| == 1 ==> r != ArgbImage
    ensures r == ArgbImage <==> ArgbSelected(comps)
    ensures r == ByteImage <==> !ArgbSelected(comps) && comps[0].prec <= 8
  {
    if ArgbSelected(comps) then ArgbImage
    else if comps[0].prec <= 8 then ByteImage
    else ShortImage
  }

  /** What each branch needs of the planes it reads and of the host array it fills, for n = width * height. */
  predicate CanPack(comps: seq<Comp>, image24: array<int32>, image8: array<int8>, image16: array<int16>)
    requires |comps| >= 1
    reads set k | 0 <= k < |comps| :: comps[k].data
  {
    var n := comps[0].w * comps[0].h;
    match LayoutOf(comps)
    case ArgbImage =>
      |comps| != 4 && PlanDefined(comps) && n <= image24.Length
      && SourcesFit(SourcesOf(PlanArgb(comps), comps), n) && AllShiftable(PlanArgb(comps), SourcesOf(PlanArgb(comps), comps), n)
    case ByteImage =>
      BiasDefined(comps[0]) && n <= comps[0].data.Length && n <= image8.Length
    case ShortImage =>
      BiasDefined(comps[0]) && n <= comps[0].data.Length && n <= image16.Length && GrayShiftable(comps[0], n)
  }

  /**
   * The hand-over of a decoded image: the branch chosen by LayoutOf fills
   * the first width * height entries of its host array and leaves the rest
   * of it, and the other two arrays are left alone.
   */
  method ImageToHost(image: Image, image24: array<int32>, image8: array<int8>, image16: array<int16>) returns (layout: Layout)
    requires |image.comps| >= 1 && CanPack(image.comps, image24, image8, image16)
    modifies image24, image8, image16
    ensures layout == LayoutOf(image.comps)
    ensures var comps, n := image.comps, image.comps[0].w * image.comps[0].h;
      layout == ArgbImage ==> forall i | 0 <= i < n :: image24[i] == ArgbPixel(PlanArgb(comps), SamplesAt(SourcesOf(PlanArgb(comps), comps), i))
    ensures var c, n := image.comps[0], image.comps[0].w * image.comps[0].h;
      layout == ByteImage ==> forall i | 0 <= i < n :: image8[i] == GrayByte(c, c.data[i])
    ensures var c, n := image.comps[0], image.comps[0].w * image.comps[0].h;
      layout == ShortImage ==> forall i | 0 <= i < n :: image16[i] == GrayShort(c, c.data[i])
    ensures var n := image.comps[0].w * image.comps[0].h;
      layout == ArgbImage ==> forall i | n <= i < image24.Length :: image24[i] == old(image24[i])
    ensures var n := image.comps[0].w * image.comps[0].h;
      layout == ByteImage ==> forall i | n <= i < image8.Length :: image8[i] == old(image8[i])
    ensures var n := image.comps[0].w * image.comps[0].h;
      layout == ShortImage ==> forall i | n <= i < image16.Length :: image16[i] == old(image16[i])
    ensures layout != ArgbImage ==> image24[..] == old(image24[..])
    ensures layout != ByteImage ==> image8[..] == old(image8[..])
    ensures layout != ShortImage ==> image16[..] == old(image16[..])
  {
    var comps := image.comps;
    layout := LayoutOf(comps);
    match layout
    case ArgbImage =>
      PackArgb(comps, image24);
    case ByteImage =>
      PackGray8(comps[0], image8);
    case ShortImage =>
      PackGray16(comps[0], image16);
  }
}
