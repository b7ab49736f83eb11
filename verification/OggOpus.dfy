/**
 Finding the duration of an Opus file by walking its Ogg pages.

 Page layout: section 6 of RFC 3533. Granule positions at 48 kHz: section 4 of RFC 7845.
 A read fills its buffer whenever the bytes are there.
 */
module OggOpus {
  import opened Basics

  const CAPTURE: Bytes := [79, 103, 103, 83]
  const HEADER := 27
  const SAMPLE_RATE := 48000

  function Unsigned(s: Bytes): nat {
    if s == [] then 0 else s[0] + 256 * Unsigned(s[1..])
  }

  /** Eight little-endian bytes read as a signed 64-bit number. */
  function Signed64(s: Bytes): int {
    var v := Unsigned(s);
    if v >= 0x8000_0000_0000_0000 then v - 0x1_0000_0000_0000_0000 else v
  }

  function Sum(s: Bytes): nat {
    if s == [] then 0 else Sum(s[..|s| - 1]) + s[|s| - 1]
  }

  /** A full header's worth of bytes starting with the capture pattern. */
  predicate IsHeader(data: Bytes, pos: nat) {
    pos + HEADER <= |data| && data[pos..pos + 4] == CAPTURE
  }

  function Granule(data: Bytes, pos: nat): int
    requires pos + HEADER <= |data|
  {
    Signed64(data[pos + 6..pos + 14])
  }

  /** Where the walk goes on after the header at pos, if its segment table is complete. */
  function NextPage(data: Bytes, pos: nat): (next: int)
    requires pos + HEADER <= |data|
    ensures next < 0 || next >= pos + HEADER
  {
    var table := pos + HEADER + data[pos + 26];
    if table > |data| then -1 else table + Sum(data[pos + HEADER..table])
  }

  /** The positions taken for page headers from pos on. */
  function Headers(data: Bytes, pos: nat): seq<nat>
    decreases |data| - pos
  {
    if pos + HEADER > |data| then []
    else if !IsHeader(data, pos) then Headers(data, pos + 1)
    else
      var next := NextPage(data, pos);
      [pos] + if next < 0 then [] else Headers(data, next)
  }

  function Max(a: int, b: int): int {
    if b > a then b else a
  }

  /** The largest granule position over the given headers, and not below the bound. */
  function Largest(data: Bytes, headers: seq<nat>, bound: int): int
    requires forall h :: h in headers ==> h + HEADER <= |data|
  {
    if headers == [] then bound
    else
      assert headers[0] in headers && forall h :: h in headers[1..] ==> h in headers;
      Largest(data, headers[1..], Max(bound, Granule(data, headers[0])))
  }

  lemma {:induction false} HeadersInside(data: Bytes, pos: nat)
    ensures forall h :: h in Headers(data, pos) ==> h + HEADER <= |data| && IsHeader(data, h)
    decreases |data| - pos
  {
    if pos + HEADER <= |data| {
      if !IsHeader(data, pos) {
        HeadersInside(data, pos + 1);
      } else if NextPage(data, pos) >= 0 {
        HeadersInside(data, NextPage(data, pos));
      }
    }
  }

  /** One turn of the walk: past the end, at no header, at a header. */
  lemma WalkStep(data: Bytes, pos: nat, bound: int)
    ensures forall h :: h in Headers(data, pos) ==> h + HEADER <= |data|
    ensures pos + HEADER > |data| ==> Largest(data, Headers(data, pos), bound) == bound
    ensures pos + HEADER <= |data| && !IsHeader(data, pos) ==> Headers(data, pos) == Headers(data, pos + 1)
    ensures IsHeader(data, pos) ==>
              var next, larger := NextPage(data, pos), Max(bound, Granule(data, pos));
              if next < 0 then Largest(data, Headers(data, pos), bound) == larger
              else (forall h :: h in Headers(data, next) ==> h + HEADER <= |data|) &&
                   Largest(data, Headers(data, pos), bound) == Largest(data, Headers(data, next), larger)
  {
    hide NextPage, Granule, IsHeader, Max;
    HeadersInside(data, pos);
    if IsHeader(data, pos) {
      IsHeaderFits(data, pos);
      var next := NextPage(data, pos);
      if next >= 0 { HeadersInside(data, next); }
      assert Headers(data, pos)[1..] == if next < 0 then [] else Headers(data, next);
    }
  }

  lemma IsHeaderFits(data: Bytes, pos: nat)
    ensures IsHeader(data, pos) ==> pos + HEADER <= |data|
  {}

  /** getOpusDuration: terminates on every input; a byte at a time until a header, then page by page. */
  method GetOpusDuration(data: Bytes) returns (samples: int, duration: real)
    ensures (forall h :: h in Headers(data, 0) ==> h + HEADER <= |data|) &&
            samples == Largest(data, Headers(data, 0), 0)
    ensures duration == samples as real / SAMPLE_RATE as real
  {
    hide Headers, Largest, Granule;
    HeadersInside(data, 0);
    samples := 0;
    var pos := 0;
    while true
      invariant pos >= 0
      invariant forall h :: h in Headers(data, pos) ==> h + HEADER <= |data|
      invariant Largest(data, Headers(data, pos), samples) == Largest(data, Headers(data, 0), 0)
      decreases |data| - pos
    {
      WalkStep(data, pos, samples);
      if pos + HEADER > |data| {
        break;
      }
      if data[pos..pos + 4] != CAPTURE {
        pos := pos + 1;
        continue;
      }
      samples := Max(samples, Granule(data, pos));
      var segments := data[pos + 26];
      if pos + HEADER + segments > |data| {
        break;
      }
      var table := data[pos + HEADER..pos + HEADER + segments];
      var pageSize: int := 0;
      for i := 0 to |table|
        invariant pageSize == Sum(table[..i])
      {
        assert table[..i + 1][..i] == table[..i];
        pageSize := pageSize + table[i];
      }
      assert table[..|table|] == table;
      pos := pos + HEADER + segments + pageSize;
    }
    duration := samples as real / SAMPLE_RATE as real;
  }

  // ---- damaged files ------------------------------------------------------------------------------

  /** Bytes at which no header starts are passed over one by one, however many there are. */
  lemma {:induction false} JunkIsSkipped(data: Bytes, pos: nat, k: nat)
    requires forall i :: pos <= i < pos + k ==> !IsHeader(data, i)
    ensures Headers(data, pos) == Headers(data, pos + k)
  {
    hide IsHeader;
    if k > 0 {
      JunkIsSkipped(data, pos, k - 1);
      SkipsOne(data, pos + k - 1);
    }
  }

  lemma SkipsOne(data: Bytes, pos: nat)
    requires !IsHeader(data, pos)
    ensures Headers(data, pos) == Headers(data, pos + 1)
  {}

  /** The walk ends with a header whose segment table is cut off, and that header still counts. */
  lemma CutTableEnds(data: Bytes, pos: nat)
    requires IsHeader(data, pos) && pos + HEADER + data[pos + 26] > |data|
    ensures Headers(data, pos) == [pos]
  {}

  // ---- granule positions ---------------------------------------------------------------------------

  function Pow256(k: nat): nat {
    if k == 0 then 1 else 256 * Pow256(k - 1)
  }

  /** The k low bytes of n, least significant first. */
  function LittleEndian(n: nat, k: nat): Bytes {
    if k == 0 then [] else [n % 256] + LittleEndian(n / 256, k - 1)
  }

  lemma {:induction false} UnsignedLittleEndian(n: nat, k: nat)
    requires n < Pow256(k)
    ensures |LittleEndian(n, k)| == k && Unsigned(LittleEndian(n, k)) == n
  {
    if k > 0 {
      UnsignedLittleEndian(n / 256, k - 1);
      assert LittleEndian(n, k)[1..] == LittleEndian(n / 256, k - 1);
    }
  }

  /** Every signed 64-bit granule position is read back from its eight bytes. */
  lemma GranuleRoundTrip(g: int)
    requires -0x8000_0000_0000_0000 <= g < 0x8000_0000_0000_0000
    ensures var bytes := LittleEndian(if g < 0 then g + 0x1_0000_0000_0000_0000 else g, 8);
            |bytes| == 8 && Signed64(bytes) == g
  {
    assert Pow256(2) == 0x1_0000;
    assert Pow256(4) == 0x1_0000_0000;
    assert Pow256(6) == 0x1_0000_0000_0000;
    assert Pow256(8) == 0x1_0000_0000_0000_0000;
    UnsignedLittleEndian(if g < 0 then g + 0x1_0000_0000_0000_0000 else g, 8);
  }

  // ---- well-formed files --------------------------------------------------------------------------

  /** A page: ids stands for serial number, sequence number and checksum. */
  datatype Page = Page(version: Byte, flags: Byte, granule: Bytes, ids: Bytes, segments: Bytes, payload: Bytes)

  predicate WellFormed(p: Page) {
    |p.granule| == 8 && |p.ids| == 12 && |p.segments| <= 255 && |p.payload| == Sum(p.segments)
  }

  function Head(p: Page): Bytes
    requires WellFormed(p)
  {
    CAPTURE + [p.version, p.flags] + p.granule + p.ids + [|p.segments|]
  }

  function Encode(p: Page): Bytes
    requires WellFormed(p)
  {
    Head(p) + p.segments + p.payload
  }

  function EncodeAll(pages: seq<Page>): Bytes
    requires forall p :: p in pages ==> WellFormed(p)
  {
    if pages == [] then []
    else
      assert pages[0] in pages;
      Encode(pages[0]) + EncodeAll(pages[1..])
  }

  /** Where the pages of a file begin. */
  function Offsets(pages: seq<Page>, from: nat): seq<nat>
    requires forall p :: p in pages ==> WellFormed(p)
  {
    if pages == [] then []
    else
      assert pages[0] in pages;
      [from] + Offsets(pages[1..], from + |Encode(pages[0])|)
  }

  function LargestGranule(pages: seq<Page>, bound: int): int {
    if pages == [] then bound else LargestGranule(pages[1..], Max(bound, Signed64(pages[0].granule)))
  }

  lemma HeadParts(p: Page)
    requires WellFormed(p)
    ensures var head := Head(p);
            |head| == HEADER && head[0..4] == CAPTURE && head[6..14] == p.granule && head[26] == |p.segments|
  {}

  /** A page is read back from its place in the data. */
  lemma PageAt(data: Bytes, pos: nat, p: Page, rest: Bytes)
    requires WellFormed(p) && pos <= |data| && data[pos..] == Encode(p) + rest
    ensures IsHeader(data, pos) && Granule(data, pos) == Signed64(p.granule)
    ensures NextPage(data, pos) == pos + |Encode(p)| <= |data| && data[pos + |Encode(p)|..] == rest
  {
    hide Signed64, Head;
    HeadParts(p);
    var head, n, end := Head(p), |p.segments|, |Encode(p)|;
    var tail := data[pos..];
    assert |head| == HEADER && tail == head + (p.segments + (p.payload + rest));
    assert data[pos..pos + 4] == CAPTURE by {
      Slice(data, pos, 0, 4);
      assert tail[0..4] == head[0..4] == CAPTURE;
    }
    assert data[pos + 6..pos + 14] == p.granule by {
      Slice(data, pos, 6, 14);
      assert tail[6..14] == head[6..14] == p.granule;
    }
    assert data[pos + 26] == tail[26] == head[26] == n;
    assert data[pos + HEADER..pos + HEADER + n] == p.segments by {
      Slice(data, pos, HEADER, HEADER + n);
      assert tail[HEADER..HEADER + n] == p.segments;
    }
    assert data[pos + end..] == tail[end..] == rest;
  }

  lemma Slice(data: Bytes, pos: nat, i: nat, j: nat)
    requires i <= j && pos + j <= |data|
    ensures data[pos..][i..j] == data[pos + i..pos + j]
  {}

  /** The first page, and the rest of the file after it. */
  lemma FirstPage(data: Bytes, pos: nat, pages: seq<Page>, tail: Bytes)
    requires pages != [] && forall p :: p in pages ==> WellFormed(p)
    requires pos <= |data| && data[pos..] == EncodeAll(pages) + tail
    ensures pages[0] in pages && IsHeader(data, pos) && Granule(data, pos) == Signed64(pages[0].granule)
    ensures var next := pos + |Encode(pages[0])|;
            NextPage(data, pos) == next <= |data| && data[next..] == EncodeAll(pages[1..]) + tail
  {
    hide Encode, Signed64, Granule, IsHeader;
    assert pages[0] in pages;
    assert Encode(pages[0]) + (EncodeAll(pages[1..]) + tail) == EncodeAll(pages) + tail;
    PageAt(data, pos, pages[0], EncodeAll(pages[1..]) + tail);
  }

  /** Payload bytes are never taken for a header: the walk visits exactly the page starts. */
  lemma {:induction false} VisitsExactlyPages(data: Bytes, pos: nat, pages: seq<Page>, tail: Bytes, bound: int)
    requires forall p :: p in pages ==> WellFormed(p)
    requires pos <= |data| && data[pos..] == EncodeAll(pages) + tail && |tail| < HEADER
    ensures Headers(data, pos) == Offsets(pages, pos)
    ensures (forall h :: h in Headers(data, pos) ==> h + HEADER <= |data|) &&
            Largest(data, Headers(data, pos), bound) == LargestGranule(pages, bound)
    decreases |pages|
  {
    hide Encode, IsHeader, NextPage, Signed64, Granule, EncodeAll, WellFormed;
    HeadersInside(data, pos);
    if pages == [] {
      assert EncodeAll(pages) == [] by { NoPages(); }
      assert |data[pos..]| == |tail|;
    } else {
      FirstPage(data, pos, pages, tail);
      var next := pos + |Encode(pages[0])|;
      VisitsExactlyPages(data, next, pages[1..], tail, Max(bound, Signed64(pages[0].granule)));
      assert Headers(data, pos) == [pos] + Headers(data, next);
      assert Headers(data, pos)[1..] == Headers(data, next);
    }
  }

  lemma NoPages()
    ensures EncodeAll([]) == []
  {}

  lemma {:induction false} LargestGranuleIsMax(pages: seq<Page>, bound: int)
    ensures var m := LargestGranule(pages, bound);
            m >= bound && (forall p :: p in pages ==> m >= Signed64(p.granule)) &&
            (m == bound || exists p :: p in pages && m == Signed64(p.granule))
  {
    if pages != [] {
      LargestGranuleIsMax(pages[1..], Max(bound, Signed64(pages[0].granule)));
      assert pages == [pages[0]] + pages[1..];
    }
  }

  /** On any well-formed file, with at most an incomplete header after it, the walk stops at every page and
      finds the largest granule position, or 0 when none is positive. */
  lemma WellFormedFile(pages: seq<Page>, tail: Bytes)
    requires (forall p :: p in pages ==> WellFormed(p)) && |tail| < HEADER
    ensures var data := EncodeAll(pages) + tail;
            Headers(data, 0) == Offsets(pages, 0) &&
            (forall h :: h in Headers(data, 0) ==> h + HEADER <= |data|) &&
            var samples := Largest(data, Headers(data, 0), 0);
            samples >= 0 && (forall p :: p in pages ==> samples >= Signed64(p.granule)) &&
            (samples == 0 || exists p :: p in pages && samples == Signed64(p.granule))
  {
    var data := EncodeAll(pages) + tail;
    assert data[0..] == data;
    VisitsExactlyPages(data, 0, pages, tail, 0);
    LargestGranuleIsMax(pages, 0);
  }
}
