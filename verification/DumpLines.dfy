/** The dump of a buffer in lines: in hexadecimal with a fixed width, or as text, where each CRLF starts
    a new line.  Sizes and indices are of type size_t and wrap around. */
module DumpLines {
  import opened Basics

  const CR: byte := 0x0D
  const LF: byte := 0x0A
  const DOT: byte := 0x2E
  const SIZES: int := 0x1_0000_0000_0000_0000

  /** The character that stands for a byte. */
  function Shown(b: byte): byte {
    if 0x20 <= b < 0x80 then b else DOT
  }

  function ShownAll(s: seq<byte>): (r: seq<byte>)
    ensures |r| == |s|
  {
    seq(|s|, i requires 0 <= i < |s| => Shown(s[i]))
  }

  datatype Column = Hex(value: byte) | Blank

  /** One line of output. */
  datatype Line = Line(offset: nat, hex: seq<Column>, chars: seq<byte>)

  // ---------- text: segments between CRLFs ----------

  predicate CrlfAt(b: seq<byte>, k: int) {
    0 <= k && k + 1 < |b| && b[k] == CR && b[k + 1] == LF
  }

  predicate HasNoCrlf(b: seq<byte>) {
    forall k :: 0 <= k < |b| ==> !CrlfAt(b, k)
  }

  /** Where the first CRLF from i on begins, or the end. */
  function NextCrlf(b: seq<byte>, i: nat): (n: nat)
    requires i <= |b|
    ensures i <= n <= |b| && (n == |b| || CrlfAt(b, n))
    ensures forall k :: i <= k < n ==> !CrlfAt(b, k)
    decreases |b| - i
  {
    if i == |b| || CrlfAt(b, i) then i else NextCrlf(b, i + 1)
  }

  /** The segments between the CRLFs from i on; the last one may be empty. */
  function Split(b: seq<byte>, i: nat): (segments: seq<seq<byte>>)
    requires i <= |b|
    ensures segments != []
    decreases |b| - i
  {
    var n := NextCrlf(b, i);
    if n == |b| then [b[i..]] else [b[i..n]] + Split(b, n + 2)
  }

  function Join(segments: seq<seq<byte>>): seq<byte>
    requires segments != []
  {
    if |segments| == 1 then segments[0] else segments[0] + [CR, LF] + Join(segments[1..])
  }

  /** The lines of one segment: full lines of the given width and a last one, which is empty only if
      the segment is. */
  function WrapLines(segment: seq<byte>, offset: nat, width: nat): seq<Line>
    requires width >= 1
    decreases |segment|
  {
    if |segment| <= width then [Line(offset, [], ShownAll(segment))]
    else [Line(offset, [], ShownAll(segment[..width]))] + WrapLines(segment[width..], offset + width, width)
  }

  /** The lines of all segments.  The last segment has no CRLF after it, and no line if it is empty. */
  function LinesOf(segments: seq<seq<byte>>, offset: nat, width: nat): seq<Line>
    requires segments != [] && width >= 1
  {
    if |segments| == 1 then
      if segments[0] == [] then [] else WrapLines(segments[0], offset, width)
    else
      WrapLines(segments[0], offset, width) + LinesOf(segments[1..], offset + |segments[0]| + 2, width)
  }

  const TEXT_WIDTH: nat := 0x40
  const HEX_WIDTH: nat := 0x10

  /** The text form of the dump, by its meaning. */
  function TextLines(b: seq<byte>): seq<Line> {
    LinesOf(Split(b, 0), 0, TEXT_WIDTH)
  }

  lemma CutAtCrlf(b: seq<byte>, i: nat, n: nat)
    requires i <= n && CrlfAt(b, n)
    ensures b[i..n] + [CR, LF] + b[n + 2..] == b[i..]
  {
  }

  lemma JoinCons(segment: seq<byte>, segments: seq<seq<byte>>)
    requires segments != []
    ensures Join([segment] + segments) == segment + [CR, LF] + Join(segments)
  {
    assert ([segment] + segments)[1..] == segments;
  }

  /** Splitting loses nothing. */
  lemma {:induction false} SplitThenJoin(b: seq<byte>, i: nat)
    requires i <= |b|
    ensures Join(Split(b, i)) == b[i..]
    decreases |b| - i
  {
    var n := NextCrlf(b, i);
    if n < |b| {
      SplitThenJoin(b, n + 2);
      JoinCons(b[i..n], Split(b, n + 2));
      CutAtCrlf(b, i, n);
    }
  }

  /** No segment has a CRLF inside it. */
  lemma {:induction false} SegmentsHaveNoCrlf(b: seq<byte>, i: nat)
    requires i <= |b|
    ensures forall k :: 0 <= k < |Split(b, i)| ==> HasNoCrlf(Split(b, i)[k])
    decreases |b| - i
  {
    var n := NextCrlf(b, i);
    forall k | 0 <= k < n - i ensures !CrlfAt(b[i..n], k) {
      assert !CrlfAt(b, i + k);
    }
    assert n == |b| ==> b[i..n] == b[i..];
    if n < |b| { SegmentsHaveNoCrlf(b, n + 2); }
  }

  // ---------- the same lines, found from left to right ----------

  /** The characters of the text line at i, and where the next line begins. */
  function LineEnd(b: seq<byte>, i: nat): (e: nat)
    requires i <= |b|
    ensures i <= e <= |b|
  {
    Min(i + TEXT_WIDTH, NextCrlf(b, i))
  }

  function NextLine(b: seq<byte>, i: nat): (n: nat)
    requires i < |b|
    ensures i < n && (n <= |b| || n <= i + TEXT_WIDTH)
  {
    var e := LineEnd(b, i);
    if CrlfAt(b, e) then e + 2 else i + TEXT_WIDTH
  }

  function LinesFrom(b: seq<byte>, i: nat): seq<Line>
    decreases |b| - i
  {
    if i >= |b| then []
    else [TextLine(b, i, LineEnd(b, i))] + LinesFrom(b, NextLine(b, i))
  }

  function TextLine(b: seq<byte>, i: nat, e: nat): Line
    requires i <= e <= |b|
  {
    Line(i, [], ShownAll(b[i..e]))
  }

  function WrapRange(b: seq<byte>, i: nat, n: nat): seq<Line>
    requires i <= n <= |b|
    decreases n - i
  {
    if n - i <= TEXT_WIDTH then [TextLine(b, i, n)]
    else [TextLine(b, i, i + TEXT_WIDTH)] + WrapRange(b, i + TEXT_WIDTH, n)
  }

  lemma {:induction false} WrapRangeIsWrapLines(b: seq<byte>, i: nat, n: nat)
    requires i <= n <= |b|
    ensures WrapRange(b, i, n) == WrapLines(b[i..n], i, TEXT_WIDTH)
    decreases n - i
  {
    var segment := b[i..n];
    if n - i > TEXT_WIDTH {
      var j := i + TEXT_WIDTH;
      WrapRangeIsWrapLines(b, j, n);
      assert segment[..TEXT_WIDTH] == b[i..j] && segment[TEXT_WIDTH..] == b[j..n];
    }
  }

  lemma {:induction false} NextCrlfSkips(b: seq<byte>, i: nat, j: nat)
    requires i <= j <= |b| && i <= |b| && j <= NextCrlf(b, i)
    ensures NextCrlf(b, j) == NextCrlf(b, i)
    decreases j - i
  {
    if i < j { NextCrlfSkips(b, i + 1, j); }
  }

  lemma SnocAssoc<T>(s: seq<T>, x: T, t: seq<T>)
    ensures s + [x] + t == s + ([x] + t)
  {
  }

  lemma ConsAssoc<T>(x: T, s: seq<T>, t: seq<T>)
    ensures [x] + s + t == [x] + (s + t)
  {
  }

  /** The lines behind a segment that ends at n. */
  function LinesBehind(b: seq<byte>, n: nat): seq<Line> {
    if n == |b| then [] else LinesFrom(b, n + 2)
  }

  lemma LastLineOfSegment(b: seq<byte>, i: nat)
    requires i < |b| && NextCrlf(b, i) <= i + TEXT_WIDTH
    ensures LineEnd(b, i) == NextCrlf(b, i) && LinesFrom(b, NextLine(b, i)) == LinesBehind(b, NextCrlf(b, i))
  {
  }

  lemma FullLineOfSegment(b: seq<byte>, i: nat)
    requires i < |b| && NextCrlf(b, i) > i + TEXT_WIDTH
    ensures var j := i + TEXT_WIDTH;
      LineEnd(b, i) == NextLine(b, i) == j && NextCrlf(b, j) == NextCrlf(b, i)
  {
    NextCrlfSkips(b, i, i + TEXT_WIDTH);
    assert !CrlfAt(b, i + TEXT_WIDTH);
  }

  /** The lines of the segment that begins at i, then the rest. */
  lemma {:induction false} LinesOfSegment(b: seq<byte>, i: nat, n: nat, behind: seq<Line>)
    requires i < |b| && n == NextCrlf(b, i) && behind == LinesBehind(b, n)
    ensures LinesFrom(b, i) == WrapRange(b, i, n) + behind
    decreases |b| - i
  {
    var line, next := TextLine(b, i, LineEnd(b, i)), LinesFrom(b, NextLine(b, i));
    assert LinesFrom(b, i) == [line] + next;
    if n > i + TEXT_WIDTH {
      FullLineOfSegment(b, i);
      LinesOfSegment(b, i + TEXT_WIDTH, n, behind);
      ConsAssoc(line, WrapRange(b, i + TEXT_WIDTH, n), behind);
    } else {
      LastLineOfSegment(b, i);
    }
  }

  lemma LinesOfCons(segment: seq<byte>, segments: seq<seq<byte>>, offset: nat, width: nat)
    requires segments != [] && width >= 1
    ensures LinesOf([segment] + segments, offset, width)
         == WrapLines(segment, offset, width) + LinesOf(segments, offset + |segment| + 2, width)
  {
    assert ([segment] + segments)[1..] == segments;
  }

  lemma LinesOfLastSegment(b: seq<byte>, i: nat, segments: seq<seq<byte>>)
    requires i <= |b| && NextCrlf(b, i) == |b| && segments == [b[i..]]
    ensures LinesFrom(b, i) == LinesOf(segments, i, TEXT_WIDTH)
  {
    if i < |b| {
      LinesOfSegment(b, i, |b|, []);
      WrapRangeIsWrapLines(b, i, |b|);
      assert b[i..|b|] == b[i..];
    }
  }

  lemma LinesOfOneMoreSegment(b: seq<byte>, i: nat, n: nat, segments: seq<seq<byte>>, rest: seq<seq<byte>>)
    requires i < |b| && n == NextCrlf(b, i) < |b| && rest != [] && segments == [b[i..n]] + rest
    requires LinesFrom(b, n + 2) == LinesOf(rest, n + 2, TEXT_WIDTH)
    ensures LinesFrom(b, i) == LinesOf(segments, i, TEXT_WIDTH)
  {
    LinesOfSegment(b, i, n, LinesFrom(b, n + 2));
    WrapRangeIsWrapLines(b, i, n);
    LinesOfCons(b[i..n], rest, i, TEXT_WIDTH);
  }

  /** The lines found from left to right are those of the segments. */
  lemma {:induction false} LinesFromIsLinesOf(b: seq<byte>, i: nat)
    requires i <= |b|
    ensures LinesFrom(b, i) == LinesOf(Split(b, i), i, TEXT_WIDTH)
    decreases |b| - i
  {
    var n := NextCrlf(b, i);
    if n == |b| {
      LinesOfLastSegment(b, i, Split(b, i));
    } else {
      LinesFromIsLinesOf(b, n + 2);
      LinesOfOneMoreSegment(b, i, n, Split(b, i), Split(b, n + 2));
    }
  }

  // ---------- hexadecimal ----------

  function HexColumns(chunk: seq<byte>): seq<Column>
    requires |chunk| <= HEX_WIDTH
  {
    seq(HEX_WIDTH, c requires 0 <= c < HEX_WIDTH => if c < |chunk| then Hex(chunk[c]) else Blank)
  }

  /** The hexadecimal form of the dump from offset i on. */
  function HexLinesFrom(b: seq<byte>, i: nat): seq<Line>
    decreases |b| - i
  {
    if i >= |b| then []
    else
      var chunk := b[i..Min(i + HEX_WIDTH, |b|)];
      [Line(i, HexColumns(chunk), ShownAll(chunk))] + HexLinesFrom(b, i + HEX_WIDTH)
  }

  function Values(columns: seq<Column>): seq<byte> {
    if columns == [] then []
    else (if columns[0].Hex? then [columns[0].value] else []) + Values(columns[1..])
  }

  function AllValues(lines: seq<Line>): seq<byte> {
    if lines == [] then [] else Values(lines[0].hex) + AllValues(lines[1..])
  }

  lemma {:induction false} ValuesOfColumns(columns: seq<Column>, chunk: seq<byte>)
    requires |chunk| <= |columns|
    requires forall c :: 0 <= c < |columns| ==> columns[c] == if c < |chunk| then Hex(chunk[c]) else Blank
    ensures Values(columns) == chunk
  {
    if columns != [] {
      if chunk == [] {
        ValuesOfColumns(columns[1..], []);
      } else {
        ValuesOfColumns(columns[1..], chunk[1..]);
        assert chunk == [chunk[0]] + chunk[1..];
      }
    }
  }

  /** The buffer can be read back from the hexadecimal columns. */
  lemma {:induction false} HexShowsEverything(b: seq<byte>, i: nat)
    requires i <= |b|
    ensures AllValues(HexLinesFrom(b, i)) == b[i..]
    decreases |b| - i
  {
    if i < |b| {
      var e := Min(i + HEX_WIDTH, |b|);
      ValuesOfColumns(HexColumns(b[i..e]), b[i..e]);
      if e < |b| {
        HexShowsEverything(b, e);
      } else {
        assert HexLinesFrom(b, i + HEX_WIDTH) == [];
      }
      assert b[i..] == b[i..e] + b[e..];
      assert HexLinesFrom(b, i)[1..] == HexLinesFrom(b, i + HEX_WIDTH);
    }
  }

  // ---------- what the lines show ----------

  /** A printable byte stands for itself, any other is shown as a dot. */
  ghost predicate ShownAs(b: byte, c: byte) {
    c == if 32 <= b < 128 then b else '.' as int
  }

  /** The characters show the bytes from i on, one for one. */
  ghost predicate ShowsFrom(b: seq<byte>, i: nat, chars: seq<byte>) {
    i + |chars| <= |b| && forall k :: 0 <= k < |chars| ==> ShownAs(b[i + k], chars[k])
  }

  lemma ShownAllShows(b: seq<byte>, i: nat, e: nat)
    requires i <= e <= |b|
    ensures ShowsFrom(b, i, ShownAll(b[i..e]))
  {
    assert '.' as int == DOT;
  }

  /** A line of text ends before a CRLF, or where the buffer ends, or when it is full, whichever is first. */
  ghost predicate IsTextLine(b: seq<byte>, line: Line) {
    var end := line.offset + |line.chars|;
    && line.hex == [] && ShowsFrom(b, line.offset, line.chars) && |line.chars| <= 64
    && (forall k :: line.offset <= k < end ==> !CrlfAt(b, k))
    && (end == |b| || CrlfAt(b, end) || |line.chars| == 64)
  }

  /** Where the next line begins: behind the CRLF, if there is one. */
  ghost function Behind(b: seq<byte>, line: Line): nat {
    var end := line.offset + |line.chars|;
    if CrlfAt(b, end) then end + 2 else end
  }

  /** From i on, the lines show the whole buffer: each begins where the one before it ends. */
  ghost predicate TextTiles(b: seq<byte>, i: nat, lines: seq<Line>)
    decreases |lines|
  {
    if lines == [] then i >= |b|
    else
      && i == lines[0].offset < |b| && IsTextLine(b, lines[0])
      && TextTiles(b, Behind(b, lines[0]), lines[1..])
  }

  lemma TextLineAt(b: seq<byte>, i: nat)
    requires i < |b|
    ensures var line := TextLine(b, i, LineEnd(b, i));
      && line.offset == i && IsTextLine(b, line)
      && (Behind(b, line) == NextLine(b, i) || (Behind(b, line) == |b| <= NextLine(b, i)))
  {
    var e := LineEnd(b, i);
    ShownAllShows(b, i, e);
    assert i + |ShownAll(b[i..e])| == e;
  }

  lemma {:induction false} LinesFromTile(b: seq<byte>, i: nat)
    ensures TextTiles(b, i, LinesFrom(b, i))
    decreases |b| - i
  {
    if i < |b| {
      TextLineAt(b, i);
      LinesFromTile(b, NextLine(b, i));
      var line, rest := TextLine(b, i, LineEnd(b, i)), LinesFrom(b, NextLine(b, i));
      assert LinesFrom(b, i) == [line] + rest && ([line] + rest)[1..] == rest;
    }
  }

  /** Line r in hexadecimal: sixteen columns with the bytes from 16 r on, blank behind the end, and beside them the
      same bytes as characters. */
  ghost predicate IsHexLine(b: seq<byte>, line: Line, r: nat) {
    && line.offset == 16 * r < |b| && |line.hex| == 16
    && (forall c :: 0 <= c < 16 ==> line.hex[c] == if 16 * r + c < |b| then Hex(b[16 * r + c]) else Blank)
    && |line.chars| == Min(16, |b| - 16 * r) && ShowsFrom(b, 16 * r, line.chars)
  }

  /** The lines from line r on, to the end of the buffer. */
  ghost predicate AreHexLines(b: seq<byte>, r: nat, lines: seq<Line>) {
    && (forall k :: 0 <= k < |lines| ==> IsHexLine(b, lines[k], r + k))
    && |b| <= 16 * (r + |lines|)
  }

  lemma HexLineAt(b: seq<byte>, r: nat)
    requires 16 * r < |b|
    ensures var chunk := b[16 * r..Min(16 * r + HEX_WIDTH, |b|)];
      IsHexLine(b, Line(16 * r, HexColumns(chunk), ShownAll(chunk)), r)
  {
    ShownAllShows(b, 16 * r, Min(16 * r + HEX_WIDTH, |b|));
  }

  lemma HexLinesCons(b: seq<byte>, r: nat, line: Line, rest: seq<Line>)
    requires IsHexLine(b, line, r) && AreHexLines(b, r + 1, rest)
    ensures AreHexLines(b, r, [line] + rest)
  {
    var lines := [line] + rest;
    forall k | 0 <= k < |lines| ensures IsHexLine(b, lines[k], r + k) {
      if k > 0 { assert lines[k] == rest[k - 1] && IsHexLine(b, rest[k - 1], r + 1 + (k - 1)); }
    }
  }

  lemma {:induction false} HexLinesAre(b: seq<byte>, r: nat)
    ensures AreHexLines(b, r, HexLinesFrom(b, 16 * r))
    decreases |b| - 16 * r
  {
    if 16 * r < |b| {
      var chunk := b[16 * r..Min(16 * r + HEX_WIDTH, |b|)];
      HexLineAt(b, r);
      HexLinesAre(b, r + 1);
      HexLinesCons(b, r, Line(16 * r, HexColumns(chunk), ShownAll(chunk)), HexLinesFrom(b, 16 * (r + 1)));
    }
  }

  // ---------- the program ----------

  /** The arithmetic of size_t. */
  function SizeT(x: int): (r: int)
    ensures 0 <= x < SIZES ==> r == x
    ensures 0 <= r < SIZES
  {
    Wrap(x, SIZES)
  }

  function Rest(b: seq<byte>, i: nat, nohex: bool): seq<Line> {
    if nohex then LinesFrom(b, i) else HexLinesFrom(b, i)
  }

  lemma ShownAllSnoc(b: seq<byte>, i: nat, e: nat)
    requires i <= e < |b|
    ensures ShownAll(b[i..e + 1]) == ShownAll(b[i..e]) + [Shown(b[e])]
  {
  }

  /** The columns of one line. */
  method Columns(b: seq<byte>, i: nat) returns (hex: seq<Column>)
    requires i < |b| <= SIZES - TEXT_WIDTH
    ensures hex == HexColumns(b[i..Min(i + HEX_WIDTH, |b|)])
  {
    hex := [];
    for c := 0 to HEX_WIDTH
      invariant |hex| == c
      invariant forall k :: 0 <= k < c ==> hex[k] == if i + k < |b| then Hex(b[i + k]) else Blank
    {
      hex := hex + [if SizeT(i + c) < |b| then Hex(b[SizeT(i + c)]) else Blank];
    }
  }

  /** The inner loop of a line beside hexadecimal columns, where CRLF means nothing. */
  method TextOfChunk(b: seq<byte>, i: nat) returns (chars: seq<byte>)
    requires i < |b| <= SIZES - TEXT_WIDTH
    ensures chars == ShownAll(b[i..Min(i + HEX_WIDTH, |b|)])
  {
    chars := [];
    var c := 0;
    while c < HEX_WIDTH && SizeT(i + c) < |b|
      invariant c <= HEX_WIDTH && i + c <= |b|
      invariant chars == ShownAll(b[i..i + c])
    {
      ShownAllSnoc(b, i, i + c);
      chars := chars + [Shown(b[i + c])];
      c := c + 1;
    }
  }

  lemma NextCrlfIs(b: seq<byte>, i: nat, m: nat)
    requires i <= m <= |b| && forall k :: i <= k < m ==> !CrlfAt(b, k)
    ensures NextCrlf(b, i) >= m && (m == |b| || CrlfAt(b, m) ==> NextCrlf(b, i) == m)
  {
    var n := NextCrlf(b, i);
    assert n < m ==> CrlfAt(b, n);
  }

  /** The assignment i += d - width. */
  function SetBack(i: nat, d: nat): int {
    SizeT(i + SizeT(d - TEXT_WIDTH))
  }

  /** Going back by the width beforehand is undone when the width is added, whatever wraps around. */
  lemma WrapBack(i: nat, d: nat)
    ensures SizeT(SetBack(i, d) + TEXT_WIDTH) == SizeT(i + d)
  {
    WrapSum(d - TEXT_WIDTH, i);
    WrapSum(i + d - TEXT_WIDTH, TEXT_WIDTH);
  }

  lemma WrapSum(x: int, y: int)
    ensures SizeT(SizeT(x) + y) == SizeT(x + y)
  {
  }

  /** A CRLF behind the first d characters of a line ends it; the index is set back so that adding the
      width leads past the CRLF. */
  lemma LineEndsAt(b: seq<byte>, i: nat, d: nat)
    requires i < |b| && d <= TEXT_WIDTH && CrlfAt(b, i + d)
    requires forall k :: i <= k < i + d ==> !CrlfAt(b, k)
    ensures LineEnd(b, i) == i + d
    ensures SizeT(SetBack(i, d + 2) + TEXT_WIDTH) == SizeT(NextLine(b, i))
  {
    NextCrlfIs(b, i, i + d);
    WrapBack(i, d + 2);
  }

  /** Without a CRLF the line is full or the buffer ends. */
  lemma LineRunsFull(b: seq<byte>, i: nat, d: nat)
    requires i < |b| && i + d <= |b|
    requires d == TEXT_WIDTH || (d < TEXT_WIDTH && i + d == |b|)
    requires forall k :: i <= k <= i + d ==> !CrlfAt(b, k)
    ensures LineEnd(b, i) == i + d && NextLine(b, i) == i + TEXT_WIDTH
  {
    NextCrlfIs(b, i, i + d);
  }

  /** The check for CRLF at an index as the program makes it, with the index arithmetic of size_t. */
  predicate SeesCrlf(b: seq<byte>, k: nat)
    requires |b| <= SIZES - TEXT_WIDTH && k <= |b|
    ensures SeesCrlf(b, k) <==> CrlfAt(b, k)
  {
    SizeT(k + 1) < |b| && b[k] == CR && b[SizeT(k + 1)] == LF
  }

  /** The body of the inner loop of a text line.  Where the program breaks out of the loop, ended is
      true, and i' is what is left in i, before the width is added. */
  method TextOfByte(b: seq<byte>, i: nat, c: nat, chars: seq<byte>) returns (chars': seq<byte>, i': int, ended: bool)
    requires i < |b| <= SIZES - TEXT_WIDTH && c < TEXT_WIDTH && i + c < |b|
    requires chars == ShownAll(b[i..i + c])
    requires forall k :: i <= k < i + c ==> !CrlfAt(b, k)
    ensures ended ==> chars' == ShownAll(b[i..LineEnd(b, i)]) && SizeT(i' + TEXT_WIDTH) == SizeT(NextLine(b, i))
    ensures !ended ==> chars' == ShownAll(b[i..i + c + 1]) && i' == i && !CrlfAt(b, i + c) && !CrlfAt(b, i + c + 1)
  {
    if SeesCrlf(b, i + c) {
      LineEndsAt(b, i, c);
      return chars, SetBack(i, c + 2), true;
    }
    ShownAllSnoc(b, i, i + c);
    chars' := chars + [Shown(b[i + c])];
    if SeesCrlf(b, i + c + 1) {
      LineEndsAt(b, i, c + 1);
      return chars', SetBack(i, c + 3), true;
    }
    return chars', i, false;
  }

  /** The inner loop of a text line. */
  method TextOfLine(b: seq<byte>, i: nat) returns (chars: seq<byte>, i': int)
    requires i < |b| <= SIZES - TEXT_WIDTH
    ensures chars == ShownAll(b[i..LineEnd(b, i)])
    ensures SizeT(i' + TEXT_WIDTH) == SizeT(NextLine(b, i))
  {
    chars, i' := [], i;
    var c := 0;
    while c < TEXT_WIDTH && SizeT(i + c) < |b|
      invariant c <= TEXT_WIDTH && i + c <= |b| && i' == i
      invariant chars == ShownAll(b[i..i + c])
      invariant forall k :: i <= k < i + c ==> !CrlfAt(b, k)
      invariant c > 0 ==> !CrlfAt(b, i + c)
    {
      var ended;
      chars, i', ended := TextOfByte(b, i, c, chars);
      if ended { return; }
      c := c + 1;
    }
    LineRunsFull(b, i, c);
  }

  /** The body of the outer loop: one line, and the index of the next. */
  method OneLine(b: seq<byte>, i: nat, nohex: bool) returns (line: Line, next: nat)
    requires i < |b| <= SIZES - TEXT_WIDTH
    ensures next > i && Rest(b, i, nohex) == [line] + Rest(b, next, nohex)
  {
    var hex, chars, i', width := [], [], i as int, HEX_WIDTH;
    if nohex {
      width := TEXT_WIDTH;
      chars, i' := TextOfLine(b, i);
    } else {
      hex := Columns(b, i);
      chars := TextOfChunk(b, i);
    }
    line := Line(i, hex, chars);
    next := SizeT(i' + width);
  }

  /** dump.  No buffer reaches into the last bytes of the range of size_t, so the index does not wrap around
      behind the last line. */
  method Dump(b: seq<byte>, nohex: bool) returns (lines: seq<Line>)
    requires |b| <= SIZES - TEXT_WIDTH
    ensures lines == if nohex then TextLines(b) else HexLinesFrom(b, 0)
    ensures if nohex then TextTiles(b, 0, lines) else AreHexLines(b, 0, lines)
  {
    LinesFromTile(b, 0);
    HexLinesAre(b, 0);
    lines := [];
    var i := 0;
    LinesFromIsLinesOf(b, 0);
    while i < |b|
      invariant lines + Rest(b, i, nohex) == Rest(b, 0, nohex)
      decreases |b| - i
    {
      var line, next := OneLine(b, i, nohex);
      SnocAssoc(lines, line, Rest(b, next, nohex));
      lines, i := lines + [line], next;
    }
    assert Rest(b, i, nohex) == [];
  }
}
