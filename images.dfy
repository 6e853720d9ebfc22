/**
 * The opj_image_t the wrappers hand over to and receive from the codec:
 * its colour space, its component planes and its reference grid, together
 * with the rule by which the decoder wrapper fixes the colour space of a
 * decoded image and the name it prints for a colour space.
 */
module Images {

  /** OPJ_COLOR_SPACE: UNKNOWN (-1), UNSPECIFIED (0), SRGB, GRAY, SYCC, EYCC, CMYK. */
  datatype ColorSpace = Unknown | Unspecified | SRGB | Gray | SYCC | EYCC | CMYK

  /** opj_image_cmptparm_t: the description opj_image_create receives for one plane (dx and dy are OPJ_UINT32 in the codec). */
  datatype CmptParm = CmptParm(dx: int, dy: int, w: nat, h: nat, prec: int, bpp: int, sgnd: bool)

  /** opj_image_comp_t: the subsampling, size, precision and signedness of a plane, and its samples. */
  datatype Comp = Comp(dx: int, dy: int, w: nat, h: nat, prec: int, sgnd: bool, data: array<int>)

  /** The plane opj_image_create makes from a parameter entry: same description, w*h samples. */
  predicate Describes(c: Comp, p: CmptParm)
  {
    c.dx == p.dx && c.dy == p.dy && c.w == p.w && c.h == p.h
    && c.prec == p.prec && c.sgnd == p.sgnd && c.data.Length == p.w * p.h
  }

  /** No two planes share their sample array. */
  predicate DistinctPlanes(comps: seq<Comp>)
  {
    forall i, j | 0 <= i < j < |comps| :: comps[i].data != comps[j].data
  }

  /** opj_image_t: the colour space, the planes and the reference grid x0, y0, x1, y1 (OPJ_UINT32 in the codec). */
  class Image {
    var colorSpace: ColorSpace
    var comps: seq<Comp>
    var x0: int
    var y0: int
    var x1: int
    var y1: int

    /**
     * opj_image_create: one plane per parameter entry, each with its own
     * array of w*h samples, and the grid at the origin. The initial sample
     * values are the codec's business and are left unspecified.
     */
    constructor (parms: seq<CmptParm>, cs: ColorSpace)
      ensures colorSpace == cs && |comps| == |parms|
      ensures forall i | 0 <= i < |parms| :: Describes(comps[i], parms[i]) && fresh(comps[i].data)
      ensures DistinctPlanes(comps)
      ensures x0 == 0 && y0 == 0 && x1 == 0 && y1 == 0
    {
      var planes: seq<Comp> := [];
      while |planes| < |parms|
        invariant |planes| <= |parms|
        invariant forall i | 0 <= i < |planes| :: Describes(planes[i], parms[i]) && fresh(planes[i].data)
        invariant DistinctPlanes(planes)
      {
        var p := parms[|planes|];
        var a := new int[p.w * p.h];
        planes := planes + [Comp(p.dx, p.dy, p.w, p.h, p.prec, p.sgnd, a)];
      }
      colorSpace := cs;
      comps := planes;
      x0, y0, x1, y1 := 0, 0, 0, 0;
    }

    /** The colour-space rule the decoder wrapper applies to a decoded image. */
    method ResolveColorSpace()
      modifies this`colorSpace
      ensures colorSpace == ResolvedColorSpace(old(colorSpace), comps)
    {
      if colorSpace != SYCC && |comps| == 3 && comps[0].dx == comps[0].dy && comps[1].dx != 1 {
        colorSpace := SYCC;
      } else if |comps| <= 2 {
        colorSpace := Gray;
      }
    }
  }

  /** Three planes with a square first plane and a subsampled second plane look like YCC. */
  predicate LooksLikeSycc(comps: seq<Comp>)
  {
    |comps| == 3 && comps[0].dx == comps[0].dy && comps[1].dx != 1
  }

  /**
   * The space after the rule: SYCC when it was not SYCC and the planes look
   * like YCC; otherwise GRAY for at most two planes (an SYCC image included);
   * otherwise unchanged.
   */
  function ResolvedColorSpace(cs: ColorSpace, comps: seq<Comp>): (r: ColorSpace)
    ensures r == SYCC <==> (cs == SYCC && |comps| > 2) || (cs != SYCC && LooksLikeSycc(comps))
    ensures r == Gray <==> |comps| <= 2 || (cs == Gray && !LooksLikeSycc(comps))
    ensures r != cs ==> r == SYCC || r == Gray
    ensures |comps| > 3 ==> r == cs
  {
    if cs != SYCC && LooksLikeSycc(comps) then SYCC
    else if |comps| <= 2 then Gray
    else cs
  }

  /** Applying the rule a second time changes nothing. */
  lemma ResolveIdempotent(cs: ColorSpace, comps: seq<Comp>)
    ensures ResolvedColorSpace(ResolvedColorSpace(cs, comps), comps) == ResolvedColorSpace(cs, comps)
  {
  }

  /** clr_space: the name printed for a colour space; the unnamed ones share one text. */
  function ClrSpaceName(cs: ColorSpace): (r: string)
    ensures r == "CLRSPC_UNDEFINED" <==> cs !in {SRGB, Gray, SYCC, Unknown}
  {
    if cs == SRGB then "OPJ_CLRSPC_SRGB"
    else if cs == Gray then "OPJ_CLRSPC_GRAY"
    else if cs == SYCC then "OPJ_CLRSPC_SYCC"
    else if cs == Unknown then "OPJ_CLRSPC_UNKNOWN"
    else "CLRSPC_UNDEFINED"
  }

  /** The four named spaces get four different names. */
  lemma ClrSpaceNamesDistinct(a: ColorSpace, b: ColorSpace)
    requires a in {SRGB, Gray, SYCC, Unknown} && a != b
    ensures ClrSpaceName(a) != ClrSpaceName(b)
  {
  }
}
