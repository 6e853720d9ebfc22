/**
 * The encoder wrapper's loadImage: it builds the codec image from the Java
 * object's width, height and depth, then copies the host pixels (bytes,
 * shorts, or packed ints split into three 8-bit channels) into the planes.
 * The round trips back through the decoder's hand-over are stated here.
 */
module PixelUnpack {
  import opened Numeric
  import opened Options
  import opened Images
  import opened PixelPack

  /** The number of planes and the colour space for a depth: one GRAY plane up to 16 bits, else three SRGB planes. */
  datatype Shape = Shape(numcomps: nat, space: ColorSpace)

  /** None (loadImage returns NULL) unless width, height and depth are all positive. */
  function ShapeOf(width: int, height: int, depth: int): (r: Option<Shape>)
    ensures r.None? <==> width <= 0 || height <= 0 || depth <= 0
    ensures r.Some? ==> r.value.numcomps in {1, 3} && (r.value.numcomps == 1 <==> depth <= 16)
    ensures r.Some? ==> (r.value.space == Gray <==> depth <= 16) && (r.value.space == SRGB <==> depth > 16)
  {
    if width <= 0 || height <= 0 || depth <= 0 then None
    else if depth <= 16 then Some(Shape(1, Gray))
    else Some(Shape(3, SRGB))
  }

  /**
   * The loop that fills cmptparm: every entry unsigned, depth / numcomps
   * bits, the size, and the subsampling converted to the OPJ_UINT32 dx, dy.
   */
  method ComponentParameters(numcomps: nat, depth: nat, subDx: int, subDy: int, width: nat, height: nat)
    returns (parms: seq<CmptParm>)
    requires numcomps >= 1
    ensures |parms| == numcomps
    ensures forall i | 0 <= i < numcomps :: parms[i] == CmptParm(ToUint32(subDx), ToUint32(subDy), width, height, depth / numcomps, depth / numcomps, false)
  {
    parms := [];
    var i := 0;
    while i < numcomps
      invariant 0 <= i <= numcomps && |parms| == i
      invariant forall k | 0 <= k < i :: parms[k] == CmptParm(ToUint32(subDx), ToUint32(subDy), width, height, depth / numcomps, depth / numcomps, false)
    {
      parms := parms + [CmptParm(ToUint32(subDx), ToUint32(subDy), width, height, depth / numcomps, depth / numcomps, false)];
      i := i + 1;
    }
  }

  /** The precision every plane gets: the depth for gray, a third of it (rounded down) for colour. */
  lemma PlanePrecision(width: int, height: int, depth: int)
    requires ShapeOf(width, height, depth).Some?
    ensures var k := ShapeOf(width, height, depth).value.numcomps;
      && (depth <= 16 ==> depth / k == depth)
      && (depth > 16 ==> depth / k == depth / 3 && 3 * (depth / k) <= depth < 3 * (depth / k) + 3)
  {
  }

  /** The far edge of the reference grid as loadImage writes it, `x0 + (size - 1) * d + 1 + x0`. */
  function GridEnd(x0: int, size: int, d: int): int
  {
    x0 + (size - 1) * d + 1 + x0
  }

  /** The offset is counted twice: the grid ends one span past twice the offset, so only x0 == 0 gives x0 plus the span. */
  lemma GridEndCountsOffsetTwice(x0: int, size: int, d: int)
    ensures GridEnd(x0, size, d) - 2 * x0 == (size - 1) * d + 1
    ensures GridEnd(x0, size, d) == x0 + (size - 1) * d + 1 <==> x0 == 0
  {
  }

  /**
   * The edge computed from the stored unsigned offset is, once stored, the
   * edge computed from the signed one: the two differ by a multiple of 2^32.
   */
  lemma GridEndWraps(x0: int, size: int, d: int)
    ensures ToUint32(GridEnd(ToUint32(x0), size, d)) == ToUint32(GridEnd(x0, size, d))
  {
    var q := x0 / 0x1_0000_0000;
    assert x0 == q * 0x1_0000_0000 + ToUint32(x0);
    assert GridEnd(x0, size, d) == GridEnd(ToUint32(x0), size, d) + (2 * q) * 0x1_0000_0000;
    ToUint32Shift(GridEnd(ToUint32(x0), size, d), 2 * q);
  }

  /** A negative offset is stored as its OPJ_UINT32 wrap, and the edge computed from it wraps alike. */
  lemma NegativeOffsetWraps(size: int, d: int)
    ensures ToUint32(-5) == 0xFFFF_FFFB
    ensures ToUint32(GridEnd(ToUint32(-5), size, d)) == ToUint32((size - 1) * d - 9)
  {
    GridEndWraps(-5, size, d);
  }

  // ---------------------------------------------------------------------
  // The copy loops

  /** The byte path: every host byte, sign-extended, is copied to the plane. */
  method CopyBytes(src: array<int8>, dst: array<int>)
    requires src.Length <= dst.Length
    modifies dst
    ensures forall i | 0 <= i < src.Length :: dst[i] == src[i] as int
    ensures forall i | src.Length <= i < dst.Length :: dst[i] == old(dst[i])
  {
    var i := 0;
    while i < src.Length
      invariant 0 <= i <= src.Length
      invariant forall k | 0 <= k < i :: dst[k] == src[k] as int
      invariant forall k | src.Length <= k < dst.Length :: dst[k] == old(dst[k])
    {
      dst[i] := src[i] as int;
      i := i + 1;
    }
  }

  /** The short path: every host short, sign-extended, is copied to the plane. */
  method CopyShorts(src: array<int16>, dst: array<int>)
    requires src.Length <= dst.Length
    modifies dst
    ensures forall i | 0 <= i < src.Length :: dst[i] == src[i] as int
    ensures forall i | src.Length <= i < dst.Length :: dst[i] == old(dst[i])
  {
    var i := 0;
    while i < src.Length
      invariant 0 <= i <= src.Length
      invariant forall k | 0 <= k < i :: dst[k] == src[k] as int
      invariant forall k | src.Length <= k < dst.Length :: dst[k] == old(dst[k])
    {
      dst[i] := src[i] as int;
      i := i + 1;
    }
  }

  /** `(v >> 16) & 0xff`: bits 16 to 23 of the int, whatever the shift fills in above. */
  function RedOf(v: int32): (r: int)
    ensures 0 <= r < 0x100
  {
    (Bits32(v) / 0x1_0000) % 0x100
  }

  /** `(v >> 8) & 0xff`: bits 8 to 15. */
  function GreenOf(v: int32): (r: int)
    ensures 0 <= r < 0x100
  {
    (Bits32(v) / 0x100) % 0x100
  }

  /** `v & 0xff`: bits 0 to 7. */
  function BlueOf(v: int32): (r: int)
    ensures 0 <= r < 0x100
  {
    Bits32(v) % 0x100
  }

  /** The three channels of an int are its low 24 bits, byte by byte. */
  lemma LowBytes(v: int32)
    ensures RedOf(v) * 0x1_0000 + GreenOf(v) * 0x100 + BlueOf(v) == Bits32(v) % 0x100_0000
  {
    var x := Bits32(v);
    var b, x1 := x % 0x100, x / 0x100;
    var g, x2 := x1 % 0x100, x1 / 0x100;
    var r := x2 % 0x100;
    assert x == x2 * 0x1_0000 + g * 0x100 + b;
    DivUnique(x, 0x1_0000, x2, g * 0x100 + b);
    assert x2 == (x2 / 0x100) * 0x100 + r;
    DivUnique(x, 0x100_0000, x2 / 0x100, r * 0x1_0000 + g * 0x100 + b);
  }

  /** The 24-bit path: every host int is split into its red, green and blue bytes over the three planes. */
  method Split24(src: array<int32>, red: array<int>, green: array<int>, blue: array<int>)
    requires red != green && green != blue && red != blue
    requires src.Length <= red.Length && src.Length <= green.Length && src.Length <= blue.Length
    modifies red, green, blue
    ensures forall i | 0 <= i < src.Length :: red[i] == RedOf(src[i]) && green[i] == GreenOf(src[i]) && blue[i] == BlueOf(src[i])
    ensures forall i | src.Length <= i < red.Length :: red[i] == old(red[i])
    ensures forall i | src.Length <= i < green.Length :: green[i] == old(green[i])
    ensures forall i | src.Length <= i < blue.Length :: blue[i] == old(blue[i])
  {
    var i := 0;
    while i < src.Length
      invariant 0 <= i <= src.Length
      invariant forall k | 0 <= k < i :: red[k] == RedOf(src[k]) && green[k] == GreenOf(src[k]) && blue[k] == BlueOf(src[k])
      invariant forall k | src.Length <= k < red.Length :: red[k] == old(red[k])
      invariant forall k | src.Length <= k < green.Length :: green[k] == old(green[k])
      invariant forall k | src.Length <= k < blue.Length :: blue[k] == old(blue[k])
    {
      var v := src[i];
      red[i] := RedOf(v);
      green[i] := GreenOf(v);
      blue[i] := BlueOf(v);
      i := i + 1;
    }
  }

  // ---------------------------------------------------------------------
  // loadImage

  /** The host array loadImage reads for a depth holds no more samples than a plane. */
  predicate HostFits(width: int, height: int, depth: int, image8: array<int8>, image16: array<int16>, image24: array<int32>)
  {
    width > 0 && height > 0 && depth > 0 ==>
      (depth <= 8 ==> image8.Length <= width * height)
      && (8 < depth <= 16 ==> image16.Length <= width * height)
      && (depth > 16 ==> image24.Length <= width * height)
  }

  /**
   * loadImage: NULL for a non-positive width, height or depth; otherwise a
   * fresh image whose planes opj_image_create made from the component
   * parameters, with the reference grid set from the image offset, and
   * whose leading samples are the host pixels.
   */
  method LoadImage(width: int, height: int, depth: int, subDx: int, subDy: int, offsetX0: int, offsetY0: int,
                   image8: array<int8>, image16: array<int16>, image24: array<int32>)
    returns (image: Image?)
    requires HostFits(width, height, depth, image8, image16, image24)
    ensures image == null <==> ShapeOf(width, height, depth).None?
    ensures image != null ==> (fresh(image)
      && image.colorSpace == ShapeOf(width, height, depth).value.space
      && |image.comps| == ShapeOf(width, height, depth).value.numcomps
      && DistinctPlanes(image.comps)
      && (forall k | 0 <= k < |image.comps| :: fresh(image.comps[k].data)
            && Describes(image.comps[k], CmptParm(ToUint32(subDx), ToUint32(subDy), width, height, depth / |image.comps|, depth / |image.comps|, false)))
      && image.x0 == ToUint32(offsetX0) && image.y0 == ToUint32(offsetY0)
      && image.x1 == ToUint32(GridEnd(offsetX0, width, subDx)) && image.y1 == ToUint32(GridEnd(offsetY0, height, subDy)))
    ensures image != null && depth <= 8 ==> forall i | 0 <= i < image8.Length :: image.comps[0].data[i] == image8[i] as int
    ensures image != null && 8 < depth <= 16 ==> forall i | 0 <= i < image16.Length :: image.comps[0].data[i] == image16[i] as int
    ensures image != null && depth > 16 ==> forall i | 0 <= i < image24.Length ::
      image.comps[0].data[i] == RedOf(image24[i]) && image.comps[1].data[i] == GreenOf(image24[i])
      && image.comps[2].data[i] == BlueOf(image24[i])
  {
    var shape := ShapeOf(width, height, depth);
    if shape.None? {
      return null;
    }
    var numcomps := shape.value.numcomps;
    var parms := ComponentParameters(numcomps, depth, subDx, subDy, width, height);
    image := new Image(parms, shape.value.space);
    image.x0 := ToUint32(offsetX0);
    image.y0 := ToUint32(offsetY0);
    image.x1 := ToUint32(GridEnd(image.x0, width, subDx));
    image.y1 := ToUint32(GridEnd(image.y0, height, subDy));
    GridEndWraps(offsetX0, width, subDx);
    GridEndWraps(offsetY0, height, subDy);
    if numcomps == 1 {
      if depth <= 8 {
        CopyBytes(image8, image.comps[0].data);
      } else {
        CopyShorts(image16, image.comps[0].data);
      }
    } else {
      Split24(image24, image.comps[0].data, image.comps[1].data, image.comps[2].data);
    }
  }

  // ---------------------------------------------------------------------
  // Round trips through the decoder's hand-over

  /**
   * Three unsigned planes of at most 8 bits filled by the 24-bit path pack
   * back into the host int with its top byte forced to 0xFF, that is
   * `v | 0xFF000000`.
   */
  lemma Split24RoundTrip(comps: seq<Comp>, v: int32)
    requires |comps| == 3 && ArgbSelected(comps)
    requires forall k | 0 <= k < 3 :: !comps[k].sgnd && comps[k].prec <= 8
    ensures PlanDefined(comps) && Shiftable(PlanArgb(comps), Samples(RedOf(v), GreenOf(v), BlueOf(v), 0))
    ensures Bits32(ArgbPixel(PlanArgb(comps), Samples(RedOf(v), GreenOf(v), BlueOf(v), 0))) == 0xFF00_0000 + Bits32(v) % 0x100_0000
  {
    var q := Samples(RedOf(v), GreenOf(v), BlueOf(v), 0);
    assert Bias(comps[0]) == 0 && Shift(comps[0]) == 0;
    assert Bias(comps[1]) == 0 && Shift(comps[1]) == 0;
    assert Bias(comps[2]) == 0 && Shift(comps[2]) == 0;
    ThreePlanePixel(comps, q);
    ChannelOfByte(q.r);
    ChannelOfByte(q.g);
    ChannelOfByte(q.b);
    var w := Bits32(ArgbPixel(PlanArgb(comps), q));
    FromBytes(w, 0xFF, q.r, q.g, q.b);
    LowBytes(v);
  }

  /** A byte needs no conversion: with no shift the channel is the sample itself. */
  lemma ChannelOfByte(x: int)
    requires 0 <= x < 0x100
    ensures Channel(x, 0) == x
  {
    var r := Channel(x, 0);
    assert -0x100 < r - x < 0x100 && (r - x) % 0x100 == 0;
  }

  /** A 32-bit value is the sum of its four bytes at their places. */
  lemma FromBytes(w: nat, a: int, r: int, g: int, b: int)
    requires w / 0x100_0000 == a && (w / 0x1_0000) % 0x100 == r && (w / 0x100) % 0x100 == g && w % 0x100 == b
    ensures w == a * 0x100_0000 + r * 0x1_0000 + g * 0x100 + b
  {
    var w1 := w / 0x100;
    var w2 := w1 / 0x100;
    assert w == w1 * 0x100 + b;
    assert w1 == w2 * 0x100 + g;
    DivUnique(w, 0x1_0000, w2, g * 0x100 + b);
    var w3 := w2 / 0x100;
    assert w2 == w3 * 0x100 + r;
    DivUnique(w, 0x100_0000, w3, r * 0x1_0000 + g * 0x100 + b);
  }

  /** A host byte through the 8-bit gray path of an unsigned plane comes back unchanged. */
  lemma ByteRoundTrip(c: Comp, s: int8)
    requires !c.sgnd
    ensures GrayByte(c, s as int) == s
  {
  }

  /**
   * The other direction fails for the upper half of an unsigned 8-bit plane:
   * the packer stores a sample as a signed Java byte and the loader copies
   * that byte with sign extension, so a sample from 128 to 255 comes back as
   * the sample minus 256. Plane to host to plane is the identity exactly on 0..127.
   */
  lemma {:induction false} PlaneByteRoundTrip(c: Comp, s: int)
    requires !c.sgnd && 0 <= s < 0x100
    ensures GrayByte(c, s) as int == if s < 0x80 then s else s - 0x100
    ensures GrayByte(c, s) as int == s <==> s < 0x80
  {
    var r := GrayByte(c, s) as int;
    assert Bias(c) == 0;
    var k := (r - s) / 0x100;
    assert r - s == k * 0x100;
    if s < 0x80 {
      assert -0x100 < r - s < 0x100;
    } else {
      assert -0x180 < r - s < 0;
    }
  }

  /** A host short through the 16-bit gray path of an unsigned 16-bit plane comes back unchanged. */
  lemma ShortRoundTrip(c: Comp, s: int16)
    requires !c.sgnd && c.prec == 16
    ensures GrayShort(c, s as int) == s
  {
  }

  /**
   * Below 16 bits the gray path left-justifies: a non-negative host short of
   * the plane's precision comes back as its top bits, not as itself.
   */
  lemma NarrowShortRoundTrip(c: Comp, s: int16)
    requires !c.sgnd && 9 <= c.prec <= 15 && 0 <= s as int < Pow2(c.prec)
    ensures Bits16(GrayShort(c, s as int)) / Pow2(16 - c.prec) == s as int
    ensures Bits16(GrayShort(c, s as int)) == LeftJustify(s as int, c.prec)
  {
    GrayShortNarrow(c, s as int);
  }
}
