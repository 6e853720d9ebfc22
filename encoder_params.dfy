/**
 * The encoder wrapper's parameter rules: the progression-order names, the
 * two progression order changes of the 4K digital cinema profile, the
 * cinema defaults and the cinema set-up, and the checks the command-line
 * parser applies (code-block size, mode switch, rate allocation, lossless
 * default, tile origin).
 */
module EncoderParams {
  import opened Options
  import opened Numeric
  import opened Images

  /** OPJ_PROG_ORDER: the five progression orders of ISO/IEC 15444-1 Table A.16, and PROG_UNKNOWN (-1). */
  datatype ProgOrder = ProgUnknown | LRCP | RLCP | RPCL | PCRL | CPRL

  /** The four-letter name of a known progression order. */
  function ProgName(o: ProgOrder): (r: string)
    requires o != ProgUnknown
    ensures |r| == 4
  {
    match o
    case LRCP => "LRCP"
    case RLCP => "RLCP"
    case RPCL => "RPCL"
    case PCRL => "PCRL"
    case CPRL => "CPRL"
  }

  /** The names of the five orders. */
  const ProgNames: set<string> := {"LRCP", "RLCP", "RPCL", "PCRL", "CPRL"}

  /**
   * give_progression: compares the first four characters with each name in
   * turn (strncmp with a bound of 4, so a shorter text never matches).
   */
  function GiveProgression(s: string): (r: ProgOrder)
    ensures r == ProgUnknown <==> |s| < 4 || s[..4] !in ProgNames
    ensures r != ProgUnknown ==> s[..4] == ProgName(r)
  {
    if |s| < 4 then ProgUnknown
    else if s[..4] == "LRCP" then LRCP
    else if s[..4] == "RLCP" then RLCP
    else if s[..4] == "RPCL" then RPCL
    else if s[..4] == "PCRL" then PCRL
    else if s[..4] == "CPRL" then CPRL
    else ProgUnknown
  }

  /** Every order is recognised from its name, whatever follows the first four characters. */
  lemma ProgressionRoundTrip(o: ProgOrder, rest: string)
    requires o != ProgUnknown
    ensures GiveProgression(ProgName(o) + rest) == o
  {
    var s := ProgName(o) + rest;
    assert s[..4] == ProgName(o);
  }

  /** Different orders have different names, so the mapping keeps the five orders apart. */
  lemma ProgNamesDistinct(a: ProgOrder, b: ProgOrder)
    requires a != ProgUnknown && b != ProgUnknown && a != b
    ensures ProgName(a) != ProgName(b)
  {
    ProgressionRoundTrip(a, "");
    ProgressionRoundTrip(b, "");
    assert ProgName(a) + "" == ProgName(a) && ProgName(b) + "" == ProgName(b);
  }

  // ---------------------------------------------------------------------
  // Digital cinema

  /** OPJ_CINEMA_MODE: off, 2K at 24 or 48 frames per second, 4K at 24. */
  datatype Cinema = CinemaOff | Cinema2K24 | Cinema2K48 | Cinema4K24

  /** OPJ_RSIZ_CAPABILITIES as the wrapper uses it: the standard profile or one of the two cinema profiles. */
  datatype Rsiz = StdRsiz | Cinema2KRsiz | Cinema4KRsiz

  /** COMP_24_CS: the largest size of one colour component for 2K and 4K at 24 fps. */
  const Comp24Cs: int := 1041666
  /** COMP_48_CS: the largest size of one colour component for 2K at 48 fps. */
  const Comp48Cs: int := 520833
  /** The number of POC entries and of layer rates opj_cparameters_t holds. */
  const MaxPocs: nat := 32
  const MaxLayers: nat := 100

  /** opj_poc_t, restricted to the entries the wrapper reads or writes. */
  datatype Poc = Poc(tile: int, resno0: int, resno1: int, compno0: int, compno1: int,
                     layno0: int, layno1: int, prg1: ProgOrder, prg: ProgOrder)

  /** One 4K progression order change: CPRL over all components and the first layer, for resolutions resno0 to resno1. */
  function FourKEntry(e: Poc, resno0: int, resno1: int): Poc
  {
    e.(tile := 1, resno0 := resno0, compno0 := 0, layno1 := 1, resno1 := resno1, compno1 := 3, prg1 := CPRL)
  }

  /**
   * The POC table after initialise_4K_poc: the first change covers the
   * resolutions below numres - 1, the second starts where the first ends
   * and covers the last one; later entries are untouched.
   */
  function FourKPocs(pocs: seq<Poc>, numres: int): (r: seq<Poc>)
    requires |pocs| >= 2
    ensures |r| == |pocs|
    ensures r[0].resno0 == 0 && r[0].resno1 == r[1].resno0 == numres - 1 && r[1].resno1 == numres
    ensures forall k | 0 <= k < 2 ::
      r[k].tile == 1 && r[k].compno0 == 0 && r[k].compno1 == 3 && r[k].layno1 == 1 && r[k].prg1 == CPRL && r[k].layno0 == pocs[k].layno0 && r[k].prg == pocs[k].prg
    ensures r[2..] == pocs[2..]
  {
    pocs[0 := FourKEntry(pocs[0], 0, numres - 1)][1 := FourKEntry(pocs[1], numres - 1, numres)]
  }

  /** Writing the two changes a second time changes nothing. */
  lemma FourKPocsIdempotent(pocs: seq<Poc>, numres: int)
    requires |pocs| >= 2
    ensures FourKPocs(FourKPocs(pocs, numres), numres) == FourKPocs(pocs, numres)
  {
    var once := FourKPocs(pocs, numres);
    var twice := FourKPocs(once, numres);
    assert twice[..2] == once[..2];
    assert twice == twice[..2] + twice[2..];
    assert once == once[..2] + once[2..];
  }

  /** initialise_4K_poc: writes the first two entries of POC and returns their number. */
  method Initialise4KPoc(poc: array<Poc>, numres: int) returns (n: int)
    requires poc.Length >= 2
    modifies poc
    ensures n == 2 && poc[..] == FourKPocs(old(poc[..]), numres)
  {
    poc[0] := FourKEntry(poc[0], 0, numres - 1);
    poc[1] := FourKEntry(poc[1], numres - 1, numres);
    n := 2;
  }

  /**
   * The fields of opj_cparameters_t the wrapper's rules read or write,
   * grouped by what they describe.
   */
  /** tile_size_on, cp_tdx, cp_tdy, cp_tx0, cp_ty0, tp_on, tp_flag. */
  datatype Tiling = Tiling(sizeOn: bool, tdx: int, tdy: int, tx0: int, ty0: int, tpOn: int, tpFlag: char)
  /** image_offset_x0, image_offset_y0, subsampling_dx, subsampling_dy. */
  datatype Placement = Placement(offsetX0: int, offsetY0: int, subsamplingDx: int, subsamplingDy: int)
  /** cblockw_init, cblockh_init, csty, mode, prog_order, numresolution, irreversible, roi_compno. */
  datatype Coding = Coding(cblockw: int, cblockh: int, csty: nat, mode: nat, progOrder: ProgOrder,
                           numResolution: int, irreversible: int, roiCompno: int)
  /** cp_cinema, cp_rsiz, max_comp_size. */
  datatype Profile = Profile(cinema: Cinema, rsiz: Rsiz, maxCompSize: int)
  /** tcp_numlayers, tcp_rates, cp_disto_alloc, cp_fixed_alloc, cp_fixed_quality. */
  datatype Layers = Layers(numLayers: int, rates: seq<real>, distoAlloc: bool, fixedAlloc: bool, fixedQuality: bool)
  /** The whole parameter set, with numpocs and the POC table. */
  datatype CParams = CParams(tiling: Tiling, placement: Placement, coding: Coding, profile: Profile,
                             layers: Layers, numPocs: int, pocs: seq<Poc>)

  /** One tile, tile parts per component (tp_on 1, tp_flag 'C'), the tile at the origin. */
  const CinemaTiling: Tiling := Tiling(false, 1, 1, 0, 0, 1, 'C')
  /** The image at the origin, no subsampling. */
  const CinemaPlacement: Placement := Placement(0, 0, 1, 1)

  /**
   * What the cinema profiles demand: the cinema tiling and placement,
   * 32x32 code-blocks, SOP markers on (bit 0 of csty), CPRL, the
   * irreversible 9-7 transform, no ROI.
   */
  predicate CinemaCompliant(p: CParams)
  {
    p.tiling == CinemaTiling && p.placement == CinemaPlacement
    && p.coding.cblockw == 32 && p.coding.cblockh == 32 && Bit(p.coding.csty, 0)
    && p.coding.progOrder == CPRL && p.coding.irreversible == 1 && p.coding.roiCompno == -1
  }

  /** Everything cinema_parameters does not set agrees, including the bits of csty above bit 0. */
  predicate SameBesideCinemaDefaults(p: CParams, q: CParams)
  {
    p.coding.csty / 2 == q.coding.csty / 2 && p.coding.mode == q.coding.mode
    && p.coding.numResolution == q.coding.numResolution
    && p.profile == q.profile && p.layers == q.layers && p.numPocs == q.numPocs && p.pocs == q.pocs
  }

  /** cinema_parameters: the parameters made cinema compliant and otherwise left alone. */
  function CinemaDefaults(p: CParams): (r: CParams)
    ensures CinemaCompliant(r) && SameBesideCinemaDefaults(p, r)
  {
    p.(tiling := CinemaTiling, placement := CinemaPlacement,
       coding := p.coding.(cblockw := 32, cblockh := 32, csty := SetBit(p.coding.csty, 0),
                           progOrder := CPRL, irreversible := 1, roiCompno := -1))
  }

  /** Compliant parameters stay as they are, so applying the defaults twice is the same as once. */
  lemma CinemaDefaultsFixpoint(p: CParams)
    requires CinemaCompliant(p)
    ensures CinemaDefaults(p) == p
  {
  }

  /** The defaults are the only compliant parameters that agree with the input elsewhere. */
  lemma CinemaDefaultsUnique(p: CParams, q: CParams)
    requires CinemaCompliant(q) && SameBesideCinemaDefaults(p, q)
    ensures q == CinemaDefaults(p)
  {
  }

  /** The frame size a profile asks for: 2048 x 1080 for 2K and 4096 x 2160 for 4K, one coordinate suffices. */
  predicate DimsCompliant(c: Cinema, w: int, h: int)
  {
    if c == Cinema4K24 then w == 4096 || h == 2160 else w == 2048 || h == 1080
  }

  /**
   * The integer part of cinema_setup_encoder for the first plane's size
   * w x h: the resolution clamp, the fall-back to the standard profile, the
   * 4K progression order changes, the component size limit and the
   * distortion allocation; nothing at all without a cinema profile.
   */
  function SetupCinema(p: CParams, w: int, h: int): CParams
    requires p.profile.cinema == Cinema4K24 ==> |p.pocs| >= 2
  {
    var c := p.profile.cinema;
    if c == CinemaOff then p
    else
      var rsiz := if DimsCompliant(c, w, h) then p.profile.rsiz else StdRsiz;
      var layers := p.layers.(distoAlloc := true);
      if c == Cinema4K24 then
        var n := p.coding.numResolution;
        var numres := if n < 1 then 1 else if n > 7 then 7 else n;
        p.(coding := p.coding.(numResolution := numres), profile := Profile(c, rsiz, Comp24Cs), layers := layers,
           numPocs := 2, pocs := FourKPocs(p.pocs, numres))
      else
        var numres := if p.coding.numResolution > 6 then 6 else p.coding.numResolution;
        p.(coding := p.coding.(numResolution := numres),
           profile := Profile(c, rsiz, if c == Cinema2K48 then Comp48Cs else Comp24Cs), layers := layers)
  }

  /**
   * What the set-up does: without a profile nothing; otherwise the clamp of
   * numresolution (to at most 6 for 2K, to 1..7 for 4K), the rsiz fall-back
   * when neither frame coordinate matches, the two 4K changes, the size
   * limit of the frame rate, distortion allocation on, and nothing else.
   */
  lemma SetupCinemaEffect(p: CParams, w: int, h: int)
    requires p.profile.cinema == Cinema4K24 ==> |p.pocs| >= 2
    ensures var r := SetupCinema(p, w, h); p.profile.cinema == CinemaOff ==> r == p
    ensures var r := SetupCinema(p, w, h); p.profile.cinema in {Cinema2K24, Cinema2K48} ==>
      var n := r.coding.numResolution;
      && n <= 6
      && (p.coding.numResolution <= 6 ==> n == p.coding.numResolution)
      && (p.coding.numResolution > 6 ==> n == 6)
      && r.numPocs == p.numPocs && r.pocs == p.pocs
    ensures var r := SetupCinema(p, w, h); p.profile.cinema == Cinema4K24 ==>
      var n := r.coding.numResolution;
      && 1 <= n <= 7
      && (1 <= p.coding.numResolution <= 7 ==> n == p.coding.numResolution)
      && (p.coding.numResolution < 1 ==> n == 1)
      && (p.coding.numResolution > 7 ==> n == 7)
      && r.numPocs == 2 && r.pocs == FourKPocs(p.pocs, n)
    ensures var r := SetupCinema(p, w, h); p.profile.cinema != CinemaOff ==>
      && r.profile.rsiz == (if DimsCompliant(p.profile.cinema, w, h) then p.profile.rsiz else StdRsiz)
      && r.profile.maxCompSize == (if p.profile.cinema == Cinema2K48 then Comp48Cs else Comp24Cs)
      && r.profile.cinema == p.profile.cinema && r.layers == p.layers.(distoAlloc := true)
      && r.coding == p.coding.(numResolution := r.coding.numResolution)
      && r.tiling == p.tiling && r.placement == p.placement
  {
  }

  /** Setting up a second time for the same frame changes nothing. */
  lemma SetupCinemaIdempotent(p: CParams, w: int, h: int)
    requires p.profile.cinema == Cinema4K24 ==> |p.pocs| >= 2
    ensures SetupCinema(SetupCinema(p, w, h), w, h) == SetupCinema(p, w, h)
  {
    var r := SetupCinema(p, w, h);
    if p.profile.cinema == Cinema4K24 {
      FourKPocsIdempotent(p.pocs, r.coding.numResolution);
    }
  }

  /** After the 4K set-up the two changes cover the resolution levels 0 to numresolution in two adjacent ranges. */
  lemma FourKCoversResolutions(p: CParams, w: int, h: int)
    requires p.profile.cinema == Cinema4K24 && |p.pocs| >= 2
    ensures var r := SetupCinema(p, w, h);
      && r.pocs[0].resno0 == 0 && r.pocs[0].resno1 == r.pocs[1].resno0
      && r.pocs[1].resno1 == r.coding.numResolution
      && 0 <= r.pocs[1].resno0 < r.pocs[1].resno1 <= 7
  {
  }

  // ---------------------------------------------------------------------
  // Command-line checks

  /**
   * The -b check: the code-block width and height must each lie in 4..1024
   * and their product must not exceed 4096.
   */
  function CodeBlockSizeValid(w: int, h: int): bool
  {
    !(w * h > 4096 || w > 1024 || w < 4 || h > 1024 || h < 4)
  }

  /**
   * For power-of-two sizes 2^x by 2^y this is the code-block rule of
   * ISO/IEC 15444-1 section A.6.1: exponents 2 to 10 whose sum is at most 12.
   */
  lemma CodeBlockExponents(x: nat, y: nat)
    ensures CodeBlockSizeValid(Pow2(x), Pow2(y)) <==> 2 <= x <= 10 && 2 <= y <= 10 && x + y <= 12
  {
    Pow2Add(x, y);
    Pow2Sixteen();
    assert Pow2(2) == 4 && Pow2(10) == 1024 && Pow2(12) == 4096;
    if x < 2 { Pow2Monotone(x, 1); }
    if y < 2 { Pow2Monotone(y, 1); }
    if x > 10 { Pow2Monotone(11, x); }
    if y > 10 { Pow2Monotone(11, y); }
    if x + y > 12 { Pow2Monotone(13, x + y); }
    if x + y <= 12 { Pow2Monotone(x + y, 12); }
  }

  /**
   * The C product of two ints may wrap; the check decides the same either
   * way, since a product beyond 2^20 only arises when a side is already out
   * of range.
   */
  lemma CodeBlockWrapHarmless(w: int32, h: int32)
    ensures CodeBlockSizeValid(w as int, h as int)
        <==> !(ToInt32(w as int * h as int) as int > 4096 || w > 1024 || w < 4 || h > 1024 || h < 4)
  {
    if 4 <= w <= 1024 && 4 <= h <= 1024 {
      MulLe(w as int, 1024, h as int);
      MulLe(h as int, 1024, 1024);
      assert 0 <= w as int * h as int <= 1024 * 1024;
      Bits32OfToInt32(w as int * h as int);
    }
  }

  /**
   * The -M loop over bits 0 to 5: each one set in the parsed value is set
   * in mode, so the result is `mode | (value & 0x3F)`.
   */
  method ModeSwitch(mode: nat, value: int32) returns (r: nat)
    ensures forall j: nat :: Bit(r, j) <==> Bit(mode, j) || (j < 6 && Bit(Bits32(value), j))
  {
    var v := Bits32(value);
    r := mode;
    var i := 0;
    while i <= 5
      invariant 0 <= i <= 6
      invariant forall j: nat :: Bit(r, j) <==> Bit(mode, j) || (j < i && Bit(v, j))
    {
      if Bit(v, i) {
        forall j: nat
          ensures Bit(SetBit(r, i), j) <==> Bit(r, j) || j == i
        {
          SetBitBits(r, i, j);
        }
        r := SetBit(r, i);
      }
      i := i + 1;
    }
  }

  /** How many of the three allocation options (-r, -f, -q) are given. */
  function FlagCount(d: bool, f: bool, q: bool): nat
  {
    (if d then 1 else 0) + (if f then 1 else 0) + (if q then 1 else 0)
  }

  /**
   * The allocation conflict test: some option given and the exclusive-or of
   * the three false. It fires exactly when two of them are given, so all
   * three together pass.
   */
  function AllocationConflict(d: bool, f: bool, q: bool): (r: bool)
    ensures r <==> FlagCount(d, f, q) == 2
  {
    (d || f || q) && !((d != f) != q)
  }

  /**
   * The checks that end parse_cmdline_encoder: a cinema profile with more
   * than one layer falls back to the standard profile; conflicting
   * allocation options fail; no layer means one lossless layer with
   * distortion allocation; a tile origin past the image origin fails.
   * The result pairs the new parameters with success.
   */
  function CheckOutcome(p: CParams): (r: (CParams, bool))
    requires |p.layers.rates| >= 1
    ensures r.1 <==> !AllocationConflict(p.layers.distoAlloc, p.layers.fixedAlloc, p.layers.fixedQuality)
                     && p.tiling.tx0 <= p.placement.offsetX0 && p.tiling.ty0 <= p.placement.offsetY0
    ensures r.0.profile == if p.profile.cinema != CinemaOff && p.layers.numLayers > 1 then p.profile.(rsiz := StdRsiz) else p.profile
    ensures AllocationConflict(p.layers.distoAlloc, p.layers.fixedAlloc, p.layers.fixedQuality) || p.layers.numLayers != 0 ==>
      r.0.layers == p.layers
    ensures !AllocationConflict(p.layers.distoAlloc, p.layers.fixedAlloc, p.layers.fixedQuality) && p.layers.numLayers == 0 ==>
      && r.0.layers.numLayers == 1 && r.0.layers.distoAlloc
      && |r.0.layers.rates| == |p.layers.rates| && r.0.layers.rates[0] == 0.0 && r.0.layers.rates[1..] == p.layers.rates[1..]
      && r.0.layers.fixedAlloc == p.layers.fixedAlloc && r.0.layers.fixedQuality == p.layers.fixedQuality
    ensures r.0.tiling == p.tiling && r.0.placement == p.placement && r.0.coding == p.coding
    ensures r.0.numPocs == p.numPocs && r.0.pocs == p.pocs
  {
    var p1 := if p.profile.cinema != CinemaOff && p.layers.numLayers > 1 then p.(profile := p.profile.(rsiz := StdRsiz)) else p;
    var l := p1.layers;
    if AllocationConflict(l.distoAlloc, l.fixedAlloc, l.fixedQuality) then (p1, false)
    else
      var p2 := if l.numLayers == 0 then p1.(layers := l.(rates := l.rates[0 := 0.0], numLayers := 1, distoAlloc := true)) else p1;
      (p2, !(p2.tiling.tx0 > p2.placement.offsetX0 || p2.tiling.ty0 > p2.placement.offsetY0))
  }

  /**
   * Whether the checks pass depends on the allocation options only through
   * how many are given: none, one or all three pass, exactly two fail.
   */
  lemma CheckAllocationCount(p: CParams)
    requires |p.layers.rates| >= 1 && p.tiling.tx0 <= p.placement.offsetX0 && p.tiling.ty0 <= p.placement.offsetY0
    ensures CheckOutcome(p).1 <==> FlagCount(p.layers.distoAlloc, p.layers.fixedAlloc, p.layers.fixedQuality) != 2
  {
  }

  /** A successful check always leaves at least one layer when the count was not negative. */
  lemma CheckLeavesALayer(p: CParams)
    requires |p.layers.rates| >= 1 && p.layers.numLayers >= 0 && CheckOutcome(p).1
    ensures CheckOutcome(p).0.layers.numLayers >= 1
  {
  }

  /** opj_cparameters_t as the wrapper updates it in place, its fields grouped as in CParams. */
  class Parameters {
    var tiling: Tiling
    var placement: Placement
    var coding: Coding
    var profile: Profile
    var layers: Layers
    var numPocs: int
    var pocs: array<Poc>

    /** The fixed-size tables of the structure: 32 POC entries and 100 layer rates. */
    ghost predicate Valid()
      reads this
    {
      pocs.Length == MaxPocs && |layers.rates| == MaxLayers
    }

    /** The current values of all fields. */
    function Snapshot(): CParams
      reads this, pocs
    {
      CParams(tiling, placement, coding, profile, layers, numPocs, pocs[..])
    }

    /** A structure holding given values (opj_set_default_encoder_parameters is the codec's). */
    constructor (p: CParams)
      requires |p.pocs| == MaxPocs && |p.layers.rates| == MaxLayers
      ensures Valid() && Snapshot() == p && fresh(pocs)
    {
      tiling, placement, coding, profile, layers, numPocs := p.tiling, p.placement, p.coding, p.profile, p.layers, p.numPocs;
      pocs := new Poc[|p.pocs|](i requires 0 <= i < |p.pocs| => p.pocs[i]);
      new;
      assert pocs[..] == p.pocs;
    }

    /** cinema_parameters on the structure. */
    method CinemaParameters()
      requires Valid()
      modifies this
      ensures Valid() && Snapshot() == CinemaDefaults(old(Snapshot()))
    {
      tiling := Tiling(false, 1, 1, 0, 0, 1, 'C');
      placement := Placement(0, 0, 1, 1);
      coding := coding.(cblockw := 32, cblockh := 32, csty := SetBit(coding.csty, 0),
                        progOrder := CPRL, irreversible := 1, roiCompno := -1);
    }

    /** cinema_setup_encoder on the structure, for the image about to be encoded. */
    method CinemaSetupEncoder(image: Image)
      requires Valid() && |image.comps| >= 1
      modifies this, pocs
      ensures Valid() && Snapshot() == SetupCinema(old(Snapshot()), image.comps[0].w, image.comps[0].h)
    {
      var w, h := image.comps[0].w, image.comps[0].h;
      var c := profile.cinema;
      var numres, rsiz := coding.numResolution, profile.rsiz;
      if c == Cinema2K24 || c == Cinema2K48 {
        if numres > 6 {
          numres := 6;
        }
        if !(w == 2048 || h == 1080) {
          rsiz := StdRsiz;
        }
      } else if c == Cinema4K24 {
        if numres < 1 {
          numres := 1;
        } else if numres > 7 {
          numres := 7;
        }
        if !(w == 4096 || h == 2160) {
          rsiz := StdRsiz;
        }
        numPocs := Initialise4KPoc(pocs, numres);
      } else {
        return;
      }
      coding := coding.(numResolution := numres);
      profile := Profile(c, rsiz, if c == Cinema2K48 then Comp48Cs else Comp24Cs);
      layers := layers.(distoAlloc := true);
    }

    /** The -b option: stores the code-block size, or fails and changes nothing. */
    method SetCodeBlock(w: int, h: int) returns (ok: bool)
      requires Valid()
      modifies this
      ensures Valid()
      ensures ok <==> CodeBlockSizeValid(w, h)
      ensures Snapshot() == if ok then old(Snapshot()).(coding := old(coding).(cblockw := w, cblockh := h)) else old(Snapshot())
    {
      if w * h > 4096 || w > 1024 || w < 4 || h > 1024 || h < 4 {
        return false;
      }
      coding := coding.(cblockw := w, cblockh := h);
      ok := true;
    }

    /** The -M option once its value is parsed. */
    method SetMode(value: int32)
      requires Valid()
      modifies this
      ensures Valid()
      ensures Snapshot() == old(Snapshot()).(coding := old(coding).(mode := coding.mode))
      ensures forall j: nat :: Bit(coding.mode, j) <==> Bit(old(coding.mode), j) || (j < 6 && Bit(Bits32(value), j))
    {
      var m := ModeSwitch(coding.mode, value);
      coding := coding.(mode := m);
    }

    /** The end of parse_cmdline_encoder on the structure; true means success. */
    method CheckParameters() returns (ok: bool)
      requires Valid()
      modifies this
      ensures Valid() && (Snapshot(), ok) == CheckOutcome(old(Snapshot()))
    {
      if profile.cinema != CinemaOff && layers.numLayers > 1 {
        profile := profile.(rsiz := StdRsiz);
      }
      if (layers.distoAlloc || layers.fixedAlloc || layers.fixedQuality)
         && !((layers.distoAlloc != layers.fixedAlloc) != layers.fixedQuality) {
        return false;
      }
      if layers.numLayers == 0 {
        layers := layers.(rates := layers.rates[0 := 0.0]);
        layers := layers.(numLayers := layers.numLayers + 1);
        layers := layers.(distoAlloc := true);
      }
      if tiling.tx0 > placement.offsetX0 || tiling.ty0 > placement.offsetY0 {
        return false;
      }
      ok := true;
    }
  }
}
