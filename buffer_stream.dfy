/**
 * The memory stream of the decoder wrapper: an opj_buffer_info_t
 * {buf, cur, len} and the read, write, skip and seek callbacks the codec
 * calls on it. The pointer `cur` is modelled as its offset from `buf`.
 */
module BufferStream {

  /** (OPJ_UINT32)-1: what the read callback returns when no byte is left. */
  const ReadEnd: nat := 0xFFFF_FFFF
  /** (OPJ_SIZE_T)-1 on a 64-bit target: what the skip callback returns on failure. */
  const SkipFailed: nat := 0xFFFF_FFFF_FFFF_FFFF

  /** The number of bytes a read of `n` delivers when `remaining` bytes are left. */
  function ReadCount(n: nat, remaining: nat): (k: nat)
    ensures k <= n && k <= remaining
    ensures k == n || k == remaining
  {
    if n < remaining then n else remaining
  }

  /** What the read callback returns for a count of `k` bytes copied. */
  function ReadResult(k: nat): (r: nat)
    ensures r == ReadEnd <==> k == 0 || k == ReadEnd
    ensures r != ReadEnd ==> r == k
  {
    if k == 0 then ReadEnd else k
  }

  /** Where a skip or seek of `n` from `cur` leaves the cursor, and whether it succeeded. */
  function Advance(cur: nat, len: nat, n: nat): (r: (nat, bool))
    ensures r.1 <==> cur + n < len
    ensures r.1 ==> r.0 == cur + n
    ensures !r.1 ==> r.0 == len
    ensures r.0 <= len || cur > len
  {
    if cur + n < len then (cur + n, true) else (len, false)
  }

  /** A read of `a` then a read of `b` bytes deliver as many bytes as one read of `a + b`. */
  lemma ReadsCompose(cur: nat, len: nat, a: nat, b: nat)
    requires cur <= len
    ensures ReadCount(a, len - cur) + ReadCount(b, len - cur - ReadCount(a, len - cur)) == ReadCount(a + b, len - cur)
  {
  }

  /** A skip that fails leaves the cursor at the end, so every later read reports end of stream. */
  lemma FailedAdvanceExhausts(cur: nat, len: nat, n: nat, m: nat)
    requires cur <= len && !Advance(cur, len, n).1
    ensures ReadCount(m, len - Advance(cur, len, n).0) == 0
    ensures ReadResult(ReadCount(m, len - Advance(cur, len, n).0)) == ReadEnd
  {
  }

  /** Advancing exactly to the end fails: the test is strict. */
  lemma AdvanceToEndFails(cur: nat, len: nat)
    requires cur <= len
    ensures Advance(cur, len, len - cur) == (len, false)
  {
  }

  /** opj_buffer_info_t: a region `buf`, the valid length `len`, and the cursor `cur`. */
  class BufferInfo {
    var buf: array<bv8>
    var cur: nat
    var len: nat

    /** The cursor never passes the valid length, which never passes the region. */
    ghost predicate Valid()
      reads this
    {
      cur <= len <= buf.Length
    }

    /** The wrapper points the cursor at the start of the host array. */
    constructor (data: array<bv8>)
      ensures Valid() && buf == data && cur == 0 && len == data.Length
    {
      buf := data;
      cur := 0;
      len := data.Length;
    }

    /**
     * opj_read_from_buffer: copies min(n, len - cur) bytes from the cursor
     * into `dest` and advances the cursor by that count; returns the count,
     * or ReadEnd when no byte was left.
     */
    method Read(dest: array<bv8>, n: nat) returns (r: nat)
      requires Valid() && dest != buf && n <= dest.Length
      modifies this, dest
      ensures Valid() && buf == old(buf) && len == old(len)
      ensures var k := ReadCount(n, old(len) - old(cur));
        && cur == old(cur) + k
        && dest[..k] == buf[old(cur)..old(cur) + k]
        && dest[k..] == old(dest[k..])
        && r == ReadResult(k)
      ensures buf[..] == old(buf[..])
    {
      var k: nat := if cur + n < len then n else len - cur;
      var i := 0;
      while i < k
        modifies dest
        invariant 0 <= i <= k
        invariant dest[..i] == buf[cur..cur + i]
        invariant dest[k..] == old(dest[k..])
      {
        dest[i] := buf[cur + i];
        i := i + 1;
      }
      cur := cur + k;
      r := if k != 0 then k else ReadEnd;
    }

    /**
     * opj_write_from_buffer: copies n bytes of `src` to the cursor and
     * advances both the cursor and the length by n. There is no bounds
     * check in the source: the room is the caller's obligation.
     */
    method Write(src: array<bv8>, n: nat) returns (r: nat)
      requires Valid() && src != buf && n <= src.Length && len + n <= buf.Length
      modifies this, buf
      ensures Valid() && buf == old(buf)
      ensures cur == old(cur) + n && len == old(len) + n && r == n
      ensures buf[..] == old(buf[..cur]) + src[..n] + old(buf[cur + n..])
    {
      var i := 0;
      while i < n
        modifies buf
        invariant 0 <= i <= n
        invariant buf[..] == old(buf[..cur]) + src[..i] + old(buf[cur + i..])
      {
        buf[cur + i] := src[i];
        i := i + 1;
      }
      cur := cur + n;
      len := len + n;
      r := n;
    }

    /**
     * opj_skip_from_buffer: advances by n when that stays strictly before
     * the end; otherwise moves the cursor to the end and fails.
     */
    method Skip(n: nat) returns (r: nat)
      requires Valid()
      modifies this`cur
      ensures Valid()
      ensures cur == Advance(old(cur), len, n).0
      ensures r == if Advance(old(cur), len, n).1 then n else SkipFailed
    {
      if cur + n < len {
        cur := cur + n;
        r := n;
      } else {
        cur := len;
        r := SkipFailed;
      }
    }

    /** opj_seek_from_buffer: the same move as Skip, reported as a boolean. */
    method Seek(n: nat) returns (ok: bool)
      requires Valid()
      modifies this`cur
      ensures Valid()
      ensures (cur, ok) == Advance(old(cur), len, n)
    {
      if cur + n < len {
        cur := cur + n;
        ok := true;
      } else {
        cur := len;
        ok := false;
      }
    }
  }
}
