/** Skipping trailing spaces a machine word at a time, at any alignment of the buffer. */
module TrailingSpace {
  import opened Basics

  const SPACE: byte := 0x20
  const SIZEOF_INT: int := 4
  const SPACE_INT: int := 0x20202020

  // ---------- the simple form ----------

  /** The backward scan, byte by byte, from n. */
  function Scan(b: seq<byte>, n: nat): (r: nat)
    requires n <= |b|
    ensures r <= n && forall k :: r <= k < n ==> b[k] == SPACE
    ensures r == 0 || b[r - 1] != SPACE
  {
    if n > 0 && b[n - 1] == SPACE then Scan(b, n - 1) else n
  }

  /** Any end that has only spaces behind it and no space before it is the one that the scan finds. */
  lemma {:induction false} ScanIsUnique(b: seq<byte>, n: nat, r: nat)
    requires r <= n <= |b| && forall k :: r <= k < n ==> b[k] == SPACE
    requires r == 0 || b[r - 1] != SPACE
    ensures Scan(b, n) == r
  {
    if r < n { ScanIsUnique(b, n - 1, r); }
  }

  /** Dropping known spaces does not change the result. */
  lemma {:induction false} ScanFromFurtherDown(b: seq<byte>, n: nat, m: nat)
    requires m <= n <= |b| && forall k :: m <= k < n ==> b[k] == SPACE
    ensures Scan(b, n) == Scan(b, m)
  {
    if m < n { ScanFromFurtherDown(b, n - 1, m); }
  }

  // ---------- words ----------

  /** Four bytes read as an unsigned int, on a machine of either byte order. */
  function Word(b0: byte, b1: byte, b2: byte, b3: byte, bigEndian: bool): int {
    if bigEndian then ((b0 * 256 + b1) * 256 + b2) * 256 + b3
    else ((b3 * 256 + b2) * 256 + b1) * 256 + b0
  }

  /** A word is the word of spaces just when each of its bytes is a space. */
  lemma WordOfSpaces(b0: byte, b1: byte, b2: byte, b3: byte, bigEndian: bool)
    ensures Word(b0, b1, b2, b3, bigEndian) == SPACE_INT
       <==> b0 == SPACE && b1 == SPACE && b2 == SPACE && b3 == SPACE
  {
    if bigEndian { BytesOfWord(b0, b1, b2, b3); } else { BytesOfWord(b3, b2, b1, b0); }
  }

  lemma BytesOfWord(high: byte, b: byte, c: byte, low: byte)
    ensures ((high * 256 + b) * 256 + c) * 256 + low == SPACE_INT
       <==> high == SPACE && b == SPACE && c == SPACE && low == SPACE
  {
    SplitByte((high * 256 + b) * 256 + c, low, 0x202020);
    SplitByte(high * 256 + b, c, 0x2020);
    SplitByte(high, b, 0x20);
  }

  lemma SplitByte(upper: int, low: byte, upperSpaces: int)
    ensures upper * 256 + low == upperSpaces * 256 + SPACE <==> upper == upperSpaces && low == SPACE
  {
  }

  /** The largest multiple of the word size up to an address, and the smallest from it on. */
  function AlignDown(address: nat): (r: nat)
    ensures r <= address < r + SIZEOF_INT && r % SIZEOF_INT == 0
  {
    address / SIZEOF_INT * SIZEOF_INT
  }

  function AlignUp(address: nat): (r: nat)
    ensures address <= r < address + SIZEOF_INT && r % SIZEOF_INT == 0
  {
    (address + SIZEOF_INT - 1) / SIZEOF_INT * SIZEOF_INT
  }

  // ---------- the fast form ----------

  /** The read of a word that ends at index end of the buffer. */
  method ReadWordBefore(buf: array<byte>, end: nat, bigEndian: bool) returns (w: int)
    requires SIZEOF_INT <= end <= buf.Length
    ensures w == SPACE_INT <==> forall k :: end - SIZEOF_INT <= k < end ==> buf[k] == SPACE
  {
    WordOfSpaces(buf[end - 4], buf[end - 3], buf[end - 2], buf[end - 1], bigEndian);
    w := Word(buf[end - 4], buf[end - 3], buf[end - 2], buf[end - 1], bigEndian);
  }

  /** skip_trailing_space on a buffer at an address.  Pointers are indices into the buffer, so that
      every read is seen to be inside it; the word reads are seen to be aligned. */
  method SkipTrailingSpace(buf: array<byte>, address: nat, bigEndian: bool) returns (end: nat)
    ensures end <= buf.Length && end == Scan(buf[..], buf.Length)
  {
    var len := buf.Length;
    end := len;
    if len > 20 {
      var endWords, startWords := AlignDown(address + len) - address, AlignUp(address) - address;
      if endWords > 0 {
        while end > endWords && buf[end - 1] == SPACE
          invariant endWords <= end <= len
          invariant forall k :: end <= k < len ==> buf[k] == SPACE
        {
          end := end - 1;
        }
        if buf[end - 1] == SPACE && startWords < endWords {
          assert end == endWords && (address + end) % SIZEOF_INT == 0;
          while end > startWords
            invariant startWords <= end <= len && (address + end) % SIZEOF_INT == 0
            invariant forall k :: end <= k < len ==> buf[k] == SPACE
          {
            assert end >= startWords + SIZEOF_INT;
            var w := ReadWordBefore(buf, end, bigEndian);
            if w != SPACE_INT { break; }
            end := end - SIZEOF_INT;
          }
        }
      }
    }
    ScanFromFurtherDown(buf[..], len, end);
    while end > 0 && buf[end - 1] == SPACE
      invariant end <= len && Scan(buf[..], len) == Scan(buf[..], end)
    {
      end := end - 1;
    }
  }
}
