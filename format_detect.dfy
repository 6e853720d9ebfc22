/**
 * Format detection of the decoder wrapper: magic bytes of a memory buffer
 * (JPEG 2000 signature box of ISO/IEC 15444-1 Annex I.5.1, SOC+SIZ markers
 * of ISO/IEC 15444-1 A.4.1/A.5.1), classification of a file name by its
 * extension through a fixed table, and the precedence rule combining both.
 */
module FormatDetect {

  import opened Options

  /** The format codes the decoder wrapper distinguishes; `None` stands for the C code -1. */
  datatype Format = J2K | JP2 | JPT | PGX | PXM | BMP | TIF | RAW | TGA

  /** The JP2 signature box, 12 bytes. */
  const Jp2Rfc3745Magic: seq<bv8> := [0x00, 0x00, 0x00, 0x0c, 0x6a, 0x50, 0x20, 0x20, 0x0d, 0x0a, 0x87, 0x0a]
  /** The last 4 bytes of the signature box, accepted on their own. */
  const Jp2Magic: seq<bv8> := [0x0d, 0x0a, 0x87, 0x0a]
  /** SOC marker followed by SIZ marker: the start of a raw codestream. */
  const J2kCodestreamMagic: seq<bv8> := [0xff, 0x4f, 0xff, 0x51]

  predicate StartsWith(b: seq<bv8>, magic: seq<bv8>)
  {
    |magic| <= |b| && b[..|magic|] == magic
  }

  /**
   * The magic test shared by buffer_format and infile_format, on a header
   * of at least 12 bytes: JP2 for either JP2 signature, else J2K for the
   * codestream markers, else unrecognised.
   */
  function MagicFormat(header: seq<bv8>): (r: Option<Format>)
    requires |header| >= 12
    ensures r == Some(JP2) <==> StartsWith(header, Jp2Rfc3745Magic) || StartsWith(header, Jp2Magic)
    ensures r == Some(J2K) <==> r != Some(JP2) && StartsWith(header, J2kCodestreamMagic)
    ensures r == None || r == Some(JP2) || r == Some(J2K)
  {
    if header[..12] == Jp2Rfc3745Magic || header[..4] == Jp2Magic then Some(JP2)
    else if header[..4] == J2kCodestreamMagic then Some(J2K)
    else None
  }

  /** buffer_format: classify the `len` bytes of a buffer; fewer than 12 bytes is -1. */
  function BufferFormat(buf: seq<bv8>): (r: Option<Format>)
    ensures |buf| < 12 ==> r == None
    ensures r != Some(JPT)
    ensures |buf| >= 12 ==> r == MagicFormat(buf)
  {
    if |buf| < 12 then None else MagicFormat(buf)
  }

  /** A buffer that starts with the signature box is a JP2 file. */
  lemma SignatureBoxIsJp2(buf: seq<bv8>)
    requires StartsWith(buf, Jp2Rfc3745Magic)
    ensures BufferFormat(buf) == Some(JP2)
  {
  }

  /** A buffer of at least 12 bytes that starts with SOC+SIZ is a raw codestream. */
  lemma CodestreamIsJ2k(buf: seq<bv8>)
    requires |buf| >= 12 && StartsWith(buf, J2kCodestreamMagic)
    ensures BufferFormat(buf) == Some(J2K)
  {
    assert buf[..4] != Jp2Magic by { assert buf[0] == 0xff; }
    assert buf[..12] != Jp2Rfc3745Magic by { assert buf[0] == 0xff; }
  }

  // ---------------------------------------------------------------------
  // Extensions

  /** C's tolower in the "C" locale. */
  function ToLower(c: char): (r: char)
    ensures 'A' <= c <= 'Z' ==> 'a' <= r <= 'z' && r as int - c as int == 'a' as int - 'A' as int
    ensures !('A' <= c <= 'Z') ==> r == c
  {
    if 'A' <= c <= 'Z' then (c as int + 32) as char else c
  }

  /**
   * strnicmp(ext, e, 3) == 0 for a 3-letter lower-case table entry `e`:
   * the first 3 characters of `ext` exist and match case-insensitively
   * (a shorter `ext` ends at its NUL, which differs from the entry).
   */
  predicate ExtMatches(ext: string, e: string)
    requires |e| == 3
  {
    |ext| >= 3 && ToLower(ext[0]) == e[0] && ToLower(ext[1]) == e[1] && ToLower(ext[2]) == e[2]
  }

  /** The position of the last '.' in `s`, as strrchr finds it. */
  function LastDot(s: string): (r: Option<nat>)
    ensures r.None? <==> '.' !in s
    ensures r.Some? ==> r.value < |s| && s[r.value] == '.' && '.' !in s[r.value + 1..]
  {
    if s == [] then None
    else if s[|s| - 1] == '.' then Some(|s| - 1)
    else
      var r := LastDot(s[..|s| - 1]);
      assert s == s[..|s| - 1] + [s[|s| - 1]];
      if r.Some? then
        assert s[r.value + 1..] == s[..|s| - 1][r.value + 1..] + [s[|s| - 1]];
        r
      else r
  }

  /** The text after the last '.', or None when there is no '.'. */
  function Extension(fname: string): (r: Option<string>)
    ensures r.None? <==> '.' !in fname
    ensures r.Some? ==> '.' !in r.value && exists k :: 0 <= k < |fname| && fname[k] == '.' && r.value == fname[k + 1..]
  {
    match LastDot(fname)
    case None => None
    case Some(k) => Some(fname[k + 1..])
  }

  datatype Entry = Entry(ext: string, format: Format)
  predicate WellFormedTable(table: seq<Entry>)
  {
    forall i | 0 <= i < |table| :: |table[i].ext| == 3
  }

  /** Entry `i` is the first one `ext` matches, and its format is `f`. */
  predicate FirstMatch(ext: string, table: seq<Entry>, i: nat, f: Format)
    requires WellFormedTable(table) && i < |table|
  {
    table[i].format == f && forall j | 0 <= j < i :: !ExtMatches(ext, table[j].ext)
  }

  /** The table scan: the format of the first entry that matches `ext`. */
  function Lookup(ext: string, table: seq<Entry>): (r: Option<Format>)
    requires WellFormedTable(table)
    ensures r.None? <==> forall i | 0 <= i < |table| :: !ExtMatches(ext, table[i].ext)
    ensures r.Some? ==> exists i :: 0 <= i < |table| && ExtMatches(ext, table[i].ext) && FirstMatch(ext, table, i, r.value)
  {
    if table == [] then None
    else if ExtMatches(ext, table[0].ext) then Some(table[0].format)
    else
      var r := Lookup(ext, table[1..]);
      assert forall i | 1 <= i < |table| :: table[i] == table[1..][i - 1];
      if r.Some? then
        ghost var i :| 0 <= i < |table[1..]| && ExtMatches(ext, table[1..][i].ext)
          && FirstMatch(ext, table[1..], i, r.value);
        assert ExtMatches(ext, table[i + 1].ext) && r.value == table[i + 1].format;
        assert forall j | 0 <= j < i + 1 :: !ExtMatches(ext, table[j].ext) by {
          forall j | 0 <= j < i + 1 ensures !ExtMatches(ext, table[j].ext) {
            if j > 0 { assert table[j] == table[1..][j - 1]; }
          }
        }
        r
      else r
  }

  /** The table of ext_file_format. */
  const CodecTable: seq<Entry> := [Entry("j2k", J2K), Entry("jp2", JP2), Entry("jpt", JPT), Entry("j2c", J2K), Entry("jpc", J2K)]

  /** The table of get_file_format: raster formats first, and no "jpc" entry. */
  const FileTable: seq<Entry> := [Entry("pgx", PGX), Entry("pnm", PXM), Entry("pgm", PXM), Entry("ppm", PXM),
    Entry("bmp", BMP), Entry("tif", TIF), Entry("raw", RAW), Entry("tga", TGA),
    Entry("j2k", J2K), Entry("jp2", JP2), Entry("jpt", JPT), Entry("j2c", J2K)]

  /** ext_file_format: no '.' or nothing after it is -1, else the table scan. */
  function ExtFileFormat(fname: string): (r: Option<Format>)
    ensures '.' !in fname ==> r == None
    ensures r.Some? ==> r.value in {J2K, JP2, JPT}
  {
    match Extension(fname)
    case None => None
    case Some(ext) => if ext == [] then None else Lookup(ext, CodecTable)
  }

  /** get_file_format: the same scan over the larger table. */
  function GetFileFormat(fname: string): (r: Option<Format>)
    ensures '.' !in fname ==> r == None
  {
    match Extension(fname)
    case None => None
    case Some(ext) => Lookup(ext, FileTable)
  }

  /** The lower-cased first three letters of a string of at least 3. */
  function Lower3(ext: string): string
    requires |ext| >= 3
  {
    [ToLower(ext[0]), ToLower(ext[1]), ToLower(ext[2])]
  }

  lemma ExtMatchesLower3(ext: string, e: string)
    requires |e| == 3
    ensures ExtMatches(ext, e) <==> |ext| >= 3 && Lower3(ext) == e
  {
  }

  /** The scan answers the format of the first matching entry. */
  lemma {:induction false} LookupFirst(ext: string, table: seq<Entry>, i: nat)
    requires WellFormedTable(table) && i < |table| && ExtMatches(ext, table[i].ext)
    requires forall j | 0 <= j < i :: !ExtMatches(ext, table[j].ext)
    ensures Lookup(ext, table) == Some(table[i].format)
  {
    if i > 0 {
      assert forall j | 0 <= j < i - 1 :: table[1..][j] == table[j + 1];
      LookupFirst(ext, table[1..], i - 1);
    }
  }

  /** No two entries of a table have the same extension. */
  predicate DistinctExts(table: seq<Entry>)
  {
    forall i, j | 0 <= i < j < |table| :: table[i].ext != table[j].ext
  }

  /** With distinct extensions, the scan answers `f` exactly when some entry for `f` is the lower-cased extension. */
  lemma LookupByLower3(ext: string, table: seq<Entry>, f: Format)
    requires WellFormedTable(table) && DistinctExts(table)
    ensures Lookup(ext, table) == Some(f) <==> |ext| >= 3 && Entry(Lower3(ext), f) in table
  {
    forall e: string | |e| == 3 ensures ExtMatches(ext, e) <==> |ext| >= 3 && Lower3(ext) == e {
      ExtMatchesLower3(ext, e);
    }
    if |ext| >= 3 && Entry(Lower3(ext), f) in table {
      var i :| 0 <= i < |table| && table[i] == Entry(Lower3(ext), f);
      LookupFirst(ext, table, i);
    }
  }

  /** The extensions ext_file_format maps to each format: the codec names only. */
  function CodecExts(f: Format): set<string>
  {
    match f
    case J2K => {"j2k", "j2c", "jpc"}
    case JP2 => {"jp2"}
    case JPT => {"jpt"}
    case _ => {}
  }

  /** The extensions get_file_format maps to each format; J2K lacks "jpc" there. */
  function FileExts(f: Format): set<string>
  {
    match f
    case PGX => {"pgx"}
    case PXM => {"pnm", "pgm", "ppm"}
    case BMP => {"bmp"}
    case TIF => {"tif"}
    case RAW => {"raw"}
    case TGA => {"tga"}
    case J2K => {"j2k", "j2c"}
    case JP2 => {"jp2"}
    case JPT => {"jpt"}
  }

  lemma CodecTableEntries(l: string, f: Format)
    ensures Entry(l, f) in CodecTable <==> l in CodecExts(f)
  {
    if Entry(l, f) in CodecTable {
      var i :| 0 <= i < |CodecTable| && CodecTable[i] == Entry(l, f);
      assert i in {0, 1, 2, 3, 4};
    }
  }

  lemma FileTableEntries(l: string, f: Format)
    ensures Entry(l, f) in FileTable <==> l in FileExts(f)
  {
    if Entry(l, f) in FileTable {
      var i :| 0 <= i < |FileTable| && FileTable[i] == Entry(l, f);
      assert i in {0, 1, 2, 3, 4, 5, 6, 7, 8, 9, 10, 11};
    }
  }

  lemma CodecTableDistinct()
    ensures DistinctExts(CodecTable)
  {
    assert forall i, j | 0 <= i < j < |CodecTable| ::
      CodecTable[i].ext[0] != CodecTable[j].ext[0] || CodecTable[i].ext[1] != CodecTable[j].ext[1] || CodecTable[i].ext[2] != CodecTable[j].ext[2];
  }

  lemma FileTableDistinct()
    ensures DistinctExts(FileTable)
  {
    assert forall i, j | 0 <= i < j < |FileTable| ::
      FileTable[i].ext[0] != FileTable[j].ext[0] || FileTable[i].ext[1] != FileTable[j].ext[1] || FileTable[i].ext[2] != FileTable[j].ext[2];
  }

  /** ext_file_format answers `f` exactly when the first three letters, in any case, are a codec extension of `f`. */
  lemma ExtFileFormatCases(fname: string, ext: string, f: Format)
    requires Extension(fname) == Some(ext)
    ensures ExtFileFormat(fname) == Some(f) <==> |ext| >= 3 && Lower3(ext) in CodecExts(f)
  {
    CodecTableDistinct();
    LookupByLower3(ext, CodecTable, f);
    if |ext| >= 3 {
      CodecTableEntries(Lower3(ext), f);
    }
  }

  /** get_file_format answers `f` exactly when the first three letters, in any case, are a file extension of `f`. */
  lemma GetFileFormatCases(fname: string, ext: string, f: Format)
    requires Extension(fname) == Some(ext)
    ensures GetFileFormat(fname) == Some(f) <==> |ext| >= 3 && Lower3(ext) in FileExts(f)
  {
    FileTableDistinct();
    LookupByLower3(ext, FileTable, f);
    if |ext| >= 3 {
      FileTableEntries(Lower3(ext), f);
    }
  }

  /** Apart from "jpc", both tables map the same extensions to the codec formats. */
  lemma TablesAgreeOnCodecs(fname: string, ext: string, f: Format)
    requires Extension(fname) == Some(ext) && f in {J2K, JP2, JPT}
    requires |ext| < 3 || Lower3(ext) != "jpc"
    ensures ExtFileFormat(fname) == Some(f) <==> GetFileFormat(fname) == Some(f)
  {
    ExtFileFormatCases(fname, ext, f);
    GetFileFormatCases(fname, ext, f);
  }

  /** get_file_format has no "jpc" entry, so a ".jpc" name is unknown there and J2K for ext_file_format. */
  lemma JpcOnlyInCodecTable(fname: string)
    requires Extension(fname) == Some("jpc")
    ensures ExtFileFormat(fname) == Some(J2K)
    ensures GetFileFormat(fname) == None
  {
    ExtFileFormatCases(fname, "jpc", J2K);
    JpcNotInFileTable(fname);
  }

  /** A ".jpc" name is unknown to get_file_format. */
  lemma JpcNotInFileTable(fname: string)
    requires Extension(fname) == Some("jpc")
    ensures GetFileFormat(fname) == None
  {
    FileTableHasNoJpc();
  }

  /** No entry of the get_file_format table matches "jpc". */
  lemma FileTableHasNoJpc()
    ensures Lookup("jpc", FileTable) == None
  {
    assert forall i | 0 <= i < |FileTable| :: !ExtMatches("jpc", FileTable[i].ext);
  }

  // ---------------------------------------------------------------------
  // infile_format

  /** The decision of infile_format, and whether its extension warning is printed. */
  datatype Detection = Detection(format: Option<Format>, warned: bool)

  /** fread fills the 12-byte header, which was zeroed, with the bytes the file has. */
  function PadHeader(read: seq<bv8>): (r: seq<bv8>)
    requires |read| <= 12
    ensures |r| == 12 && r[..|read|] == read
    ensures forall i | |read| <= i < 12 :: r[i] == 0
  {
    read + seq(12 - |read|, _ => 0 as bv8)
  }

  /**
   * infile_format after its fopen: `read` are the (at most 12) bytes fread
   * obtained. A "jpt" extension wins without looking at the bytes; otherwise
   * unrecognised magic is -1, and recognised magic wins over the extension,
   * with a warning when they disagree.
   */
  function InfileFormat(read: seq<bv8>, fname: string): (r: Detection)
    requires |read| <= 12
    ensures ExtFileFormat(fname) == Some(JPT) ==> r == Detection(Some(JPT), false)
    ensures ExtFileFormat(fname) != Some(JPT) ==> r.format == MagicFormat(PadHeader(read))
    ensures r.warned <==> ExtFileFormat(fname) != Some(JPT) && r.format.Some? && r.format != ExtFileFormat(fname)
  {
    var ext := ExtFileFormat(fname);
    if ext == Some(JPT) then Detection(Some(JPT), false)
    else
      var magic := MagicFormat(PadHeader(read));
      if magic.None? then Detection(None, false)
      else if magic == ext then Detection(ext, false)
      else Detection(magic, true)
  }

  /** infile_format never answers a format other than J2K, JP2 or JPT. */
  lemma InfileFormatRange(read: seq<bv8>, fname: string)
    requires |read| <= 12
    ensures var r := InfileFormat(read, fname).format; r.None? || r.value in {J2K, JP2, JPT}
  {
  }

  /** On a full 12-byte header the magic decision of infile_format is that of buffer_format. */
  lemma InfileAgreesWithBuffer(read: seq<bv8>, fname: string)
    requires |read| == 12 && ExtFileFormat(fname) != Some(JPT)
    ensures InfileFormat(read, fname).format == BufferFormat(read)
  {
    assert PadHeader(read) == read;
  }

  /** A file of just the 4-byte JP2 signature is JP2 for infile_format but -1 for buffer_format. */
  lemma ShortJp2FileDiffers()
    ensures InfileFormat(Jp2Magic, "a.jp2") == Detection(Some(JP2), false)
    ensures BufferFormat(Jp2Magic) == None
  {
    assert Extension("a.jp2") == Some("jp2") by { assert LastDot("a.jp2") == Some(1); }
    ExtFileFormatCases("a.jp2", "jp2", JP2);
    assert PadHeader(Jp2Magic)[..4] == Jp2Magic;
  }
}
