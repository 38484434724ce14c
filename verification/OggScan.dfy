/** The duration of an Opus file from its Ogg pages (section 6 of RFC 3533): a scan over page headers that
    keeps the greatest granule position. */
module OggScan {
  import opened Basics

  type Byte = b: int | 0 <= b < 256

  const CAPTURE: seq<Byte> := [0x4F, 0x67, 0x67, 0x53]
  const HEADER := 27
  const SAMPLE_RATE := 48000.0

  /** Little-endian value of the bytes. */
  function LittleEndian(bytes: seq<Byte>): (n: nat) {
    if bytes == [] then 0 else bytes[0] + 256 * LittleEndian(bytes[1..])
  }

  /** The bits of an unsigned 64-bit integer read as a signed one. */
  function Signed(n: nat): int {
    if n < 0x8000_0000_0000_0000 then n else n - 0x1_0000_0000_0000_0000
  }

  function Sum(sizes: seq<Byte>): (n: nat) {
    if sizes == [] then 0 else sizes[0] + Sum(sizes[1..])
  }

  predicate IsPageAt(data: seq<Byte>, pos: nat) {
    pos + HEADER <= |data| && data[pos..pos + 4] == CAPTURE
  }

  function GranuleAt(data: seq<Byte>, pos: nat): int {
    if pos + 14 <= |data| then Signed(LittleEndian(data[pos + 6..pos + 14])) else 0
  }

  /** Where the page at `pos` ends, if its segment table is complete. */
  function PageEnd(data: seq<Byte>, pos: nat): (end: nat)
    requires IsPageAt(data, pos) && pos + HEADER + data[pos + 26] <= |data|
    ensures pos < end
  {
    var table := pos + HEADER;
    table + data[pos + 26] + Sum(data[table..table + data[pos + 26]])
  }

  /** Where the scan looks next: one byte on where no page starts, after a page, or nowhere when a page's
      segment table is cut off. */
  function Advance(data: seq<Byte>, pos: nat): (next: nat)
    requires pos + HEADER <= |data|
    ensures pos < next
  {
    if !IsPageAt(data, pos) then pos + 1
    else if pos + HEADER + data[pos + 26] > |data| then |data|
    else PageEnd(data, pos)
  }

  /** The positions at which the scan from `pos` finds a page. */
  function PagesFrom(data: seq<Byte>, pos: nat): (pages: seq<nat>)
    decreases |data| - pos
  {
    if pos + HEADER > |data| then []
    else (if IsPageAt(data, pos) then [pos] else []) + PagesFrom(data, Advance(data, pos))
  }

  /** The greatest of `least` and the granule positions of the pages. */
  function Greatest(data: seq<Byte>, pages: seq<nat>, least: int): int {
    if pages == [] then least else Greatest(data, pages[1..], Max(least, GranuleAt(data, pages[0])))
  }

  /** The pages found are pages, in increasing order: the scan moves forward on any bytes. */
  lemma {:induction false} PagesArePages(data: seq<Byte>, pos: nat)
    ensures forall i :: 0 <= i < |PagesFrom(data, pos)| ==>
              IsPageAt(data, PagesFrom(data, pos)[i]) && pos <= PagesFrom(data, pos)[i]
    ensures forall i, j :: 0 <= i < j < |PagesFrom(data, pos)| ==> PagesFrom(data, pos)[i] < PagesFrom(data, pos)[j]
    decreases |data| - pos
  {
    if pos + HEADER <= |data| {
      PagesArePages(data, Advance(data, pos));
    }
  }

  /** What is left to find from `pos` on, given the greatest position so far. */
  function Remaining(data: seq<Byte>, pos: nat, least: int): int {
    Greatest(data, PagesFrom(data, pos), least)
  }

  lemma RemainingNone(data: seq<Byte>, pos: nat, least: int)
    requires pos + HEADER > |data|
    ensures Remaining(data, pos, least) == least
  {
  }

  lemma RemainingStep(data: seq<Byte>, pos: nat, least: int)
    requires pos + HEADER <= |data|
    ensures Remaining(data, pos, least) ==
            Remaining(data, Advance(data, pos), if IsPageAt(data, pos) then Max(least, GranuleAt(data, pos)) else least)
  {
    var pages, rest := PagesFrom(data, pos), PagesFrom(data, Advance(data, pos));
    if IsPageAt(data, pos) {
      assert pages[0] == pos && pages[1..] == rest;
    } else {
      assert pages == rest;
    }
  }

  lemma SubSlice<T>(data: seq<T>, start: nat, length: nat, a: nat, b: nat)
    requires start + length <= |data| && a <= b <= length
    ensures data[start..start + length][a..b] == data[start + a..start + b]
  {
    var left, right := data[start..start + length][a..b], data[start + a..start + b];
    assert |left| == |right| && forall i :: 0 <= i < |left| ==> left[i] == right[i];
  }

  /** What one header says: whether it is a page's, its granule position and its number of segments. */
  method ParseHeader(data: seq<Byte>, start: nat) returns (isPage: bool, granulePos: int, numSegments: nat)
    requires start + HEADER <= |data|
    ensures isPage <==> IsPageAt(data, start)
    ensures isPage ==> granulePos == GranuleAt(data, start) && numSegments == data[start + 26]
  {
    var buf := data[start..start + HEADER];
    SubSlice(data, start, HEADER, 0, 4);
    SubSlice(data, start, HEADER, 6, 14);
    isPage, granulePos, numSegments := buf[0..4] == CAPTURE, 0, 0;
    if isPage {
      granulePos := Signed(LittleEndian(buf[6..14]));
      numSegments := buf[26];
    }
  }

  /** One turn of the loop. */
  method ScanHeader(data: seq<Byte>, start: nat, least: int) returns (pos: nat, totalGranulePos: int)
    requires start + HEADER <= |data|
    ensures pos == Advance(data, start)
    ensures totalGranulePos == if IsPageAt(data, start) then Max(least, GranuleAt(data, start)) else least
  {
    var isPage, granulePos, numSegments := ParseHeader(data, start);
    pos, totalGranulePos := start + HEADER, least;
    if !isPage {
      pos := pos - 26;
      return;
    }
    if granulePos > totalGranulePos {
      totalGranulePos := granulePos;
    }
    pos := SkipSegments(data, pos, numSegments);
  }

  /** Past the segment table at `pos` and the payload it describes; to the end if the table is cut off. */
  method SkipSegments(data: seq<Byte>, pos: nat, numSegments: nat) returns (end: nat)
    ensures end == if pos + numSegments > |data| then |data|
                   else pos + numSegments + Sum(data[pos..pos + numSegments])
  {
    if pos + numSegments > |data| {
      return |data|;
    }
    var segmentTable := data[pos..pos + numSegments];
    var pageSize := SumSegments(segmentTable);
    return pos + numSegments + pageSize;
  }

  /** `getOpusDuration` over a file read in full: terminates on any bytes, and returns the greatest granule
      position of the pages it visits, in seconds. */
  method OpusDuration(data: seq<Byte>) returns (duration: real)
    ensures duration == Greatest(data, PagesFrom(data, 0), 0) as real / 48000.0
  {
    var totalGranulePos := 0;
    var pos := 0;
    ghost var answer := Remaining(data, 0, 0);
    while pos + HEADER <= |data|
      invariant 0 <= pos && Remaining(data, pos, totalGranulePos) == answer
      decreases |data| - pos
    {
      RemainingStep(data, pos, totalGranulePos);
      pos, totalGranulePos := ScanHeader(data, pos, totalGranulePos);
    }
    RemainingNone(data, pos, totalGranulePos);
    duration := totalGranulePos as real / SAMPLE_RATE;
  }

  method SumSegments(table: seq<Byte>) returns (pageSize: nat)
    ensures pageSize == Sum(table)
  {
    pageSize := 0;
    for i := 0 to |table|
      invariant pageSize + Sum(table[i..]) == Sum(table)
    {
      assert table[i..][1..] == table[i + 1..];
      pageSize := pageSize + table[i];
    }
  }

  // ----- Well-formed files -----

  /** A page: version and type, granule position, serial number, sequence number and checksum, and a payload cut
      into at most 255 segments. */
  datatype PageParts = PageParts(flags: seq<Byte>, granule: int, rest: seq<Byte>, segments: seq<Byte>, payload: seq<Byte>)

  predicate WellFormed(p: PageParts) {
    && |p.flags| == 2 && |p.rest| == 12 && |p.segments| <= 255 && |p.payload| == Sum(p.segments)
    && -0x8000_0000_0000_0000 <= p.granule < 0x8000_0000_0000_0000
  }

  type Page = p: PageParts | WellFormed(p)
    witness PageParts([0, 0], 0, [0, 0, 0, 0, 0, 0, 0, 0, 0, 0, 0, 0], [], [])

  /** The `k` low bytes of `n`, low byte first. */
  function LowBytes(n: nat, k: nat): (bytes: seq<Byte>)
    ensures |bytes| == k
    decreases k
  {
    if k == 0 then [] else [n % 256] + LowBytes(n / 256, k - 1)
  }

  function Unsigned(g: int): nat
    requires -0x8000_0000_0000_0000 <= g < 0x8000_0000_0000_0000
  {
    if g < 0 then g + 0x1_0000_0000_0000_0000 else g
  }

  function Header(p: Page): seq<Byte>
  {
    CAPTURE + p.flags + LowBytes(Unsigned(p.granule), 8) + p.rest + [|p.segments|]
  }

  function Length(p: PageParts): nat {
    HEADER + |p.segments| + |p.payload|
  }

  function Encode(p: Page): (bytes: seq<Byte>)
    ensures |bytes| == Length(p)
  {
    Header(p) + p.segments + p.payload
  }

  function EncodeAll(pages: seq<Page>): seq<Byte>
  {
    if pages == [] then [] else Encode(pages[0]) + EncodeAll(pages[1..])
  }

  function Power(k: nat): nat {
    if k == 0 then 1 else 256 * Power(k - 1)
  }

  /** Reading back what was written. */
  lemma {:induction false} LowBytesRoundTrip(n: nat, k: nat)
    requires n < Power(k)
    ensures LittleEndian(LowBytes(n, k)) == n
    decreases k
  {
    if k != 0 {
      LowBytesRoundTrip(n / 256, k - 1);
      assert LowBytes(n, k)[1..] == LowBytes(n / 256, k - 1);
    }
  }

  lemma GranuleRoundTrip(g: int)
    requires -0x8000_0000_0000_0000 <= g < 0x8000_0000_0000_0000
    ensures Signed(LittleEndian(LowBytes(Unsigned(g), 8))) == g
  {
    assert Power(4) == 0x1_0000_0000;
    assert Power(8) == 0x1_0000_0000_0000_0000;
    LowBytesRoundTrip(Unsigned(g), 8);
  }

  lemma Prefix<T>(a: seq<T>, b: seq<T>, from: nat, to: nat)
    requires from <= to <= |a|
    ensures (a + b)[from..to] == a[from..to]
  {
  }

  lemma Suffix<T>(a: seq<T>, b: seq<T>)
    ensures (a + b)[|a|..] == b && (a + b)[|a|..|a| + |b|] == b
  {
  }

  lemma HeaderFields(p: Page)
    ensures |Header(p)| == HEADER && Header(p)[0..4] == CAPTURE && Header(p)[26] == |p.segments|
    ensures Header(p)[6..14] == LowBytes(Unsigned(p.granule), 8)
  {
    var granule := LowBytes(Unsigned(p.granule), 8);
    var start, end := CAPTURE + p.flags, p.rest + [|p.segments|];
    assert Header(p) == start + granule + end;
    Suffix(start, granule);
    Prefix(start + granule, end, 6, 14);
    Prefix(start + granule, end, 0, 4);
    Prefix(start, granule, 0, 4);
    Prefix(CAPTURE, p.flags, 0, 4);
    assert CAPTURE[0..4] == CAPTURE;
  }

  lemma PageFields(p: Page)
    ensures Encode(p)[0..4] == CAPTURE && Encode(p)[26] == |p.segments|
    ensures Encode(p)[6..14] == LowBytes(Unsigned(p.granule), 8)
    ensures Encode(p)[HEADER..HEADER + |p.segments|] == p.segments
  {
    var header, body := Header(p), p.segments + p.payload;
    HeaderFields(p);
    assert Encode(p) == header + body;
    Prefix(header, body, 0, 4);
    Prefix(header, body, 6, 14);
    assert (header + body)[HEADER..HEADER + |p.segments|] == body[..|p.segments|] == p.segments;
  }

  /** The bytes of page `p` start at `pos`. */
  predicate Holds(data: seq<Byte>, pos: nat, p: Page)
  {
    pos + Length(p) <= |data| && data[pos..pos + Length(p)] == Encode(p)
  }

  /** A page inside a file is recognised, with its granule position and its end. */
  lemma PageIsFound(data: seq<Byte>, pos: nat, p: Page)
    requires Holds(data, pos, p)
    ensures IsPageAt(data, pos) && GranuleAt(data, pos) == p.granule
    ensures pos + HEADER + data[pos + 26] <= |data| && PageEnd(data, pos) == pos + Length(p)
  {
    var page := data[pos..pos + Length(p)];
    assert page[0..4] == CAPTURE && page[6..14] == LowBytes(Unsigned(p.granule), 8) &&
           page[26] == |p.segments| && page[HEADER..HEADER + |p.segments|] == p.segments by { PageFields(p); }
    SubSlice(data, pos, Length(p), 0, 4);
    SubSlice(data, pos, Length(p), 6, 14);
    GranuleRoundTrip(p.granule);
    assert data[pos + 26] == page[26];
    SubSlice(data, pos, Length(p), HEADER, HEADER + |p.segments|);
  }

  /** What the scan needs to see of page `p` at `pos`. */
  predicate Reads(data: seq<Byte>, pos: nat, p: PageParts) {
    && IsPageAt(data, pos) && GranuleAt(data, pos) == p.granule
    && Advance(data, pos) == pos + Length(p)
  }

  predicate ReadsAll(data: seq<Byte>, pos: nat, pages: seq<PageParts>)
    decreases |pages|
  {
    if pages == [] then pos == |data|
    else Reads(data, pos, pages[0]) && ReadsAll(data, pos + Length(pages[0]), pages[1..])
  }

  lemma FirstEncoded(data: seq<Byte>, pos: nat, next: nat, pages: seq<Page>, tail: seq<Page>)
    requires pages != [] && tail == pages[1..] && next == pos + Length(pages[0])
    requires pos <= |data| && data[pos..] == EncodeAll(pages)
    ensures Reads(data, pos, pages[0]) && next <= |data| && data[next..] == EncodeAll(tail)
  {
    var first, rest, n := Encode(pages[0]), EncodeAll(tail), Length(pages[0]);
    Prefix(first, rest, 0, n);
    Suffix(first, rest);
    assert data[pos..pos + n] == data[pos..][0..n] == first[0..n] == first;
    assert data[pos + n..] == data[pos..][n..] == rest;
    PageIsFound(data, pos, pages[0]);
  }

  lemma {:induction false} EncodedReads(data: seq<Byte>, pos: nat, pages: seq<Page>)
    requires pos <= |data| && data[pos..] == EncodeAll(pages)
    ensures ReadsAll(data, pos, pages)
    decreases |pages|
  {
    if pages == [] {
      assert |data[pos..]| == 0;
    } else {
      var tail, next := pages[1..], pos + Length(pages[0]);
      FirstEncoded(data, pos, next, pages, tail);
      EncodedReads(data, next, tail);
      ReadsAllCons(data, pos, next, pages, tail);
    }
  }

  lemma ReadsAllCons(data: seq<Byte>, pos: nat, next: nat, pages: seq<PageParts>, tail: seq<PageParts>)
    requires pages != [] && tail == pages[1..] && next == pos + Length(pages[0])
    requires Reads(data, pos, pages[0]) && ReadsAll(data, next, tail)
    ensures ReadsAll(data, pos, pages)
  {
  }

  function Boundaries(pages: seq<PageParts>, pos: nat): seq<nat> {
    if pages == [] then [] else [pos] + Boundaries(pages[1..], pos + Length(pages[0]))
  }

  function MaxGranule(pages: seq<PageParts>, least: int): int {
    if pages == [] then least else MaxGranule(pages[1..], Max(least, pages[0].granule))
  }

  /** Where pages follow each other the scan visits exactly their boundaries. */
  lemma {:induction false} ScanFindsPages(data: seq<Byte>, pos: nat, pages: seq<PageParts>)
    requires ReadsAll(data, pos, pages)
    ensures PagesFrom(data, pos) == Boundaries(pages, pos)
    decreases |pages|
  {
    if pages != [] {
      var tail, next := pages[1..], pos + Length(pages[0]);
      ReadsAllSplit(data, pos, next, pages, tail);
      ScanFindsPages(data, next, tail);
      FirstPage(data, pos, next);
      BoundariesSplit(pages, tail, pos, next);
    }
  }

  lemma ReadsAllSplit(data: seq<Byte>, pos: nat, next: nat, pages: seq<PageParts>, tail: seq<PageParts>)
    requires pages != [] && tail == pages[1..] && next == pos + Length(pages[0]) && ReadsAll(data, pos, pages)
    ensures Reads(data, pos, pages[0]) && ReadsAll(data, next, tail)
  {
  }

  lemma FirstPage(data: seq<Byte>, pos: nat, next: nat)
    requires IsPageAt(data, pos) && Advance(data, pos) == next
    ensures PagesFrom(data, pos) == [pos] + PagesFrom(data, next)
  {
  }

  lemma BoundariesSplit(pages: seq<PageParts>, tail: seq<PageParts>, pos: nat, next: nat)
    requires pages != [] && tail == pages[1..] && next == pos + Length(pages[0])
    ensures Boundaries(pages, pos) == [pos] + Boundaries(tail, next)
  {
  }

  /** ... and reads their granule positions there. */
  lemma {:induction false} ScanFindsGreatest(data: seq<Byte>, pos: nat, pages: seq<PageParts>, least: int)
    requires ReadsAll(data, pos, pages)
    ensures Greatest(data, Boundaries(pages, pos), least) == MaxGranule(pages, least)
    decreases |pages|
  {
    if pages != [] {
      var tail, next := pages[1..], pos + Length(pages[0]);
      ReadsAllSplit(data, pos, next, pages, tail);
      ScanFindsGreatest(data, next, tail, Max(least, pages[0].granule));
      BoundariesSplit(pages, tail, pos, next);
      assert Boundaries(pages, pos)[1..] == Boundaries(tail, next);
    }
  }

  /** A file of well-formed pages: the scan visits exactly the page boundaries, and returns the greatest of zero
      and the pages' granule positions. */
  lemma DurationOfPages(data: seq<Byte>, pages: seq<Page>)
    requires data == EncodeAll(pages)
    ensures PagesFrom(data, 0) == Boundaries(pages, 0)
    ensures Greatest(data, PagesFrom(data, 0), 0) == MaxGranule(pages, 0)
  {
    assert data[0..] == data;
    EncodedReads(data, 0, pages);
    ScanFindsPages(data, 0, pages);
    ScanFindsGreatest(data, 0, pages, 0);
  }

  /** A byte at which no page starts is skipped: junk before the first page changes nothing. */
  lemma {:induction false} ScanSkipsJunk(data: seq<Byte>, pos: nat, start: nat)
    requires pos <= start && start + HEADER <= |data|
    requires forall i :: pos <= i < start ==> !IsPageAt(data, i)
    ensures PagesFrom(data, pos) == PagesFrom(data, start)
    decreases start - pos
  {
    if pos < start {
      ScanSkipsJunk(data, pos + 1, start);
      assert Advance(data, pos) == pos + 1;
    }
  }

  // ----- The layout, written out -----

  /** Bytes are put together low byte first, and the top bit of eight is the sign. */
  lemma NumbersExactly(low: Byte, rest: seq<Byte>, n: nat)
    ensures LittleEndian([]) == 0 && LittleEndian([low] + rest) == low + 256 * LittleEndian(rest)
    ensures Sum([]) == 0 && Sum([low] + rest) == low + Sum(rest)
    ensures Signed(n) == if n < 9223372036854775808 then n else n - 18446744073709551616
  {
    assert ([low] + rest)[1..] == rest;
  }

  /** A page starts with "OggS"; its granule position is at byte 6, its segment count at byte 26 and its segment table
      at byte 27; and it ends after the payload the table adds up to. */
  lemma LayoutExactly(data: seq<Byte>, pos: nat)
    ensures IsPageAt(data, pos) <==>
            && pos + 27 <= |data|
            && data[pos] == 79 && data[pos + 1] == 103 && data[pos + 2] == 103 && data[pos + 3] == 83
    ensures IsPageAt(data, pos) ==> GranuleAt(data, pos) == Signed(LittleEndian(data[pos + 6..pos + 14]))
    ensures IsPageAt(data, pos) ==>
              Advance(data, pos) ==
              if |data| < pos + 27 + data[pos + 26] then |data|
              else pos + 27 + data[pos + 26] + Sum(data[pos + 27..pos + 27 + data[pos + 26]])
    ensures pos + 27 <= |data| && !IsPageAt(data, pos) ==> Advance(data, pos) == pos + 1
  {
    if pos + 27 <= |data| {
      var start := data[pos..pos + 4];
      assert start == [data[pos], data[pos + 1], data[pos + 2], data[pos + 3]];
    }
  }

  /** The greatest granule position: none of the pages exceeds it, and it is one of theirs or the one begun with. */
  lemma {:induction false} GreatestExactly(data: seq<Byte>, pages: seq<nat>, least: int)
    ensures var g := Greatest(data, pages, least);
            && least <= g && (forall i :: 0 <= i < |pages| ==> GranuleAt(data, pages[i]) <= g)
            && (g == least || exists i :: 0 <= i < |pages| && GranuleAt(data, pages[i]) == g)
    decreases |pages|
  {
    if pages != [] {
      var rest := pages[1..];
      GreatestExactly(data, rest, Max(least, GranuleAt(data, pages[0])));
      assert forall i :: 0 <= i < |rest| ==> rest[i] == pages[i + 1];
      assert forall i :: 1 <= i < |pages| ==> pages[i] == rest[i - 1];
    }
  }

  /** The same for the pages of a well-formed file. */
  lemma {:induction false} MaxGranuleExactly(pages: seq<PageParts>, least: int)
    ensures var g := MaxGranule(pages, least);
            && least <= g && (forall i :: 0 <= i < |pages| ==> pages[i].granule <= g)
            && (g == least || exists i :: 0 <= i < |pages| && pages[i].granule == g)
    decreases |pages|
  {
    if pages != [] {
      var rest := pages[1..];
      MaxGranuleExactly(rest, Max(least, pages[0].granule));
      assert forall i :: 0 <= i < |rest| ==> rest[i] == pages[i + 1];
      assert forall i :: 1 <= i < |pages| ==> pages[i] == rest[i - 1];
    }
  }
}
