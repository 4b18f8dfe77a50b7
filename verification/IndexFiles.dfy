/** The two index files: how an index is written, byte by byte, and read back. */
module IndexFiles {
  import opened Bytes
  import opened Wrappers
  import opened Matchers
  import opened Bloom
  import opened BloomIndex
  import opened LineIndex

  const U32: nat := 0x1_0000_0000
  const U64: nat := 0x1_0000_0000_0000_0000

  // ---- fixed-width numbers, least byte first

  function LE(v: nat, n: nat): (s: Word)
    ensures |s| == n
  {
    if n == 0 then [] else [(v % 256) as byte] + LE(v / 256, n - 1)
  }

  function FromLE(s: Word): nat {
    if s == [] then 0 else s[0] as nat + 256 * FromLE(s[1..])
  }

  function Pow256(n: nat): (p: nat)
    ensures p > 0
  {
    if n == 0 then 1 else 256 * Pow256(n - 1)
  }

  lemma {:induction false} ReadsBack(v: nat, n: nat)
    requires v < Pow256(n)
    ensures FromLE(LE(v, n)) == v
  {
    if n != 0 {
      assert v / 256 < Pow256(n - 1);
      ReadsBack(v / 256, n - 1);
      assert LE(v, n)[1..] == LE(v / 256, n - 1);
    }
  }

  /** Byte `i` is the `i`-th digit to the base 256, the lowest first. */
  lemma {:induction false} LEDigit(v: nat, n: nat, i: nat)
    requires i < n
    ensures LE(v, n)[i] as int == v / Pow256(i) % 256
    decreases n
  {
    if i == 0 {
      assert Pow256(0) == 1;
    } else {
      LEDigit(v / 256, n - 1, i - 1);
      DivTwice(v, Pow256(i - 1));
    }
  }

  lemma {:induction false} DivTwice(v: nat, p: nat)
    requires p > 0
    ensures 256 * p > 0 && v / 256 / p == v / (256 * p)
  {
    var q, r := v / 256, v % 256;
    var a, b := q / p, q % p;
    assert v == 256 * (p * a + b) + r;
    assert 256 * b + r < 256 * p;
    assert v == 256 * p * a + (256 * b + r);
    QuotientIs(v, 256 * p, a, 256 * b + r);
  }

  lemma {:induction false} QuotientIs(v: nat, d: nat, a: nat, r: nat)
    requires d > 0 && r < d && v == d * a + r
    ensures v / d == a
  {
    var q := v / d;
    assert d * (q - a) == r - v % d;
    Between(d, q - a);
  }

  /** A multiple of `d` that lies between -d and d is 0. */
  lemma Between(d: nat, m: int)
    requires 0 < d + d * m && d * m < d
    ensures m == 0
  {
    if m >= 1 {
      Grows(d, 1, m);
    } else if m <= -1 {
      Grows(d, m, -1);
    }
  }

  lemma Grows(d: nat, x: int, y: int)
    requires x <= y
    ensures d * x <= d * y
  {}

  lemma {:induction false} DivMod(b: nat, r: nat)
    requires b < 256
    ensures (b + 256 * r) % 256 == b && (b + 256 * r) / 256 == r
  {}

  lemma {:induction false} WritesBack(s: Word)
    ensures FromLE(s) < Pow256(|s|) && LE(FromLE(s), |s|) == s
  {
    if s != [] {
      WritesBack(s[1..]);
      DivMod(s[0] as nat, FromLE(s[1..]));
      assert s == [s[0]] + s[1..];
    }
  }

  lemma {:induction false} Widths()
    ensures Pow256(4) == U32 && Pow256(8) == U64
  {
    assert Pow256(2) == 0x1_0000;
    assert Pow256(4) == 256 * (256 * Pow256(2));
    assert Pow256(6) == 256 * (256 * Pow256(4));
    assert Pow256(8) == 256 * (256 * Pow256(6));
  }

  /** The unsigned value with the same bits as a signed one, of `m` values in all. */
  function ToUnsigned(x: int, m: nat): int {
    if x < 0 then x + m else x
  }

  function ToSigned(u: int, m: nat): int {
    if u >= m / 2 then u - m else u
  }

  predicate Fits(x: int, m: nat) {
    -(m / 2) <= x < m / 2
  }

  function Put64(x: int): (s: Word)
    requires Fits(x, U64)
    ensures |s| == 8
  {
    LE(ToUnsigned(x, U64), 8)
  }

  function Get64(s: Word): int
    requires |s| == 8
  {
    ToSigned(FromLE(s), U64)
  }

  function Put32(x: int): (s: Word)
    requires Fits(x, U32)
    ensures |s| == 4
  {
    LE(ToUnsigned(x, U32), 4)
  }

  function Get32(s: Word): int
    requires |s| == 4
  {
    ToSigned(FromLE(s), U32)
  }

  /** Signed numbers survive writing and reading, in both directions. */
  lemma {:induction false} SignedRoundTrip64(x: int, s: Word)
    ensures Fits(x, U64) ==> Get64(Put64(x)) == x
    ensures |s| == 8 ==> Fits(Get64(s), U64) && Put64(Get64(s)) == s
  {
    Widths();
    if Fits(x, U64) {
      ReadsBack(ToUnsigned(x, U64), 8);
    }
    WritesBack(s);
  }

  /** Negative numbers are written as what they are modulo 2 to the width. */
  lemma {:induction false} TwosComplement(x: int)
    ensures Fits(x, U64) ==> FromLE(Put64(x)) == x % 0x1_0000_0000_0000_0000
    ensures Fits(x, U32) ==> FromLE(Put32(x)) == x % 0x1_0000_0000
  {
    Widths();
    if Fits(x, U64) {
      ReadsBack(ToUnsigned(x, U64), 8);
    }
    if Fits(x, U32) {
      ReadsBack(ToUnsigned(x, U32), 4);
    }
  }

  lemma {:induction false} SignedRoundTrip32(x: int, s: Word)
    ensures Fits(x, U32) ==> Get32(Put32(x)) == x
    ensures |s| == 4 ==> Fits(Get32(s), U32) && Put32(Get32(s)) == s
  {
    Widths();
    if Fits(x, U32) {
      ReadsBack(ToUnsigned(x, U32), 4);
    }
    WritesBack(s);
  }

  lemma {:induction false} LEStep(v: nat, n: nat, i: nat, rest: nat)
    requires i < n && LE(v, n)[i..] == LE(rest, n - i)
    ensures LE(v, n)[i] == (rest % 256) as byte && LE(v, n)[i + 1..] == LE(rest / 256, n - (i + 1))
  {
    assert LE(v, n)[i] == LE(v, n)[i..][0];
    assert LE(v, n)[i + 1..] == LE(v, n)[i..][1..];
    assert LE(rest, n - i)[1..] == LE(rest / 256, n - i - 1);
  }

  /** Writes `v` at `at`, least byte first. */
  method PutUint(buf: array<byte>, at: nat, n: nat, v: nat)
    requires at + n <= buf.Length
    modifies buf
    ensures buf[..] == old(buf[..at]) + LE(v, n) + old(buf[at + n..])
  {
    var rest := v;
    for i := 0 to n
      invariant forall k | 0 <= k < buf.Length && !(at <= k < at + i) :: buf[k] == old(buf[k])
      invariant forall k | 0 <= k < i :: buf[at + k] == LE(v, n)[k]
      invariant LE(v, n)[i..] == LE(rest, n - i)
    {
      LEStep(v, n, i, rest);
      buf[at + i] := (rest % 256) as byte;
      rest := rest / 256;
    }
    forall k | at <= k < at + n ensures buf[k] == LE(v, n)[k - at] {
      assert buf[at + (k - at)] == LE(v, n)[k - at];
    }
  }

  // ---- the header both files share

  const HEADER_SIZE: nat := 36

  datatype Header = Header(count: int, totalLines: int, fileSize: int, modTimeNano: int) {
    predicate Ok() {
      0 <= count < U32 && Fits(totalLines, U64) && Fits(fileSize, U64) && Fits(modTimeNano, U64)
    }
  }

  function HeaderBytes(magic: Word, hd: Header): (s: Word)
    requires |magic| == 8 && hd.Ok()
    ensures |s| == HEADER_SIZE
  {
    magic + LE(hd.count, 4) + Put64(hd.totalLines) + Put64(hd.fileSize) + Put64(hd.modTimeNano)
  }

  function HeaderOf(file: Word): Header
    requires |file| >= HEADER_SIZE
  {
    Header(FromLE(file[8..12]), Get64(file[12..20]), Get64(file[20..28]), Get64(file[28..36]))
  }

  lemma {:induction false} HeaderFields(magic: Word, hd: Header, payload: Word)
    requires |magic| == 8 && hd.Ok()
    ensures var file := HeaderBytes(magic, hd) + payload;
      && file[..8] == magic && HeaderOf(file) == hd && file[36..] == payload
      && file[8..12] == LE(hd.count, 4) && file[12..20] == Put64(hd.totalLines)
      && file[20..28] == Put64(hd.fileSize) && file[28..36] == Put64(hd.modTimeNano)
  {
    var file := HeaderBytes(magic, hd) + payload;
    assert file[..8] == magic;
    assert file[8..12] == LE(hd.count, 4);
    assert file[12..20] == Put64(hd.totalLines);
    assert file[20..28] == Put64(hd.fileSize);
    assert file[28..36] == Put64(hd.modTimeNano);
    Widths();
    ReadsBack(hd.count, 4);
    SignedRoundTrip64(hd.totalLines, []);
    SignedRoundTrip64(hd.fileSize, []);
    SignedRoundTrip64(hd.modTimeNano, []);
  }

  lemma {:induction false} HeaderRebuilds(file: Word)
    requires |file| >= HEADER_SIZE
    ensures HeaderOf(file).Ok() && HeaderBytes(file[..8], HeaderOf(file)) + file[HEADER_SIZE..] == file
  {
    Widths();
    WritesBack(file[8..12]);
    SignedRoundTrip64(0, file[12..20]);
    SignedRoundTrip64(0, file[20..28]);
    SignedRoundTrip64(0, file[28..36]);
  }

  /** Fills the header buffer field by field. */
  method WriteHeader(magic: Word, hd: Header) returns (s: Word)
    requires |magic| == 8 && hd.Ok()
    ensures s == HeaderBytes(magic, hd)
  {
    var header := new byte[HEADER_SIZE];
    forall i | 0 <= i < 8 {
      header[i] := magic[i];
    }
    assert header[..8] == magic;
    PutUint(header, 8, 4, hd.count);
    assert header[..12] == magic + LE(hd.count, 4);
    PutUint(header, 12, 8, ToUnsigned(hd.totalLines, U64));
    assert header[..20] == magic + LE(hd.count, 4) + Put64(hd.totalLines);
    PutUint(header, 20, 8, ToUnsigned(hd.fileSize, U64));
    assert header[..28] == magic + LE(hd.count, 4) + Put64(hd.totalLines) + Put64(hd.fileSize);
    PutUint(header, 28, 8, ToUnsigned(hd.modTimeNano, U64));
    s := header[..];
  }

  // ---- the line index file

  function LineMagic(): (m: Word)
    ensures |m| == 8
  {
    Text("LIDX0001")
  }

  predicate LineIndexFits(idx: SparseLineIndex) {
    && idx.step < U32 && Fits(idx.totalLines, U64) && Fits(idx.fileSize, U64) && Fits(idx.modTimeNano, U64)
    && forall i | 0 <= i < |idx.offsets| :: Fits(idx.offsets[i], U64)
  }

  function PutAll(xs: seq<int>): (s: Word)
    requires forall i | 0 <= i < |xs| :: Fits(xs[i], U64)
    ensures |s| == 8 * |xs|
  {
    if xs == [] then [] else PutAll(xs[..|xs| - 1]) + Put64(xs[|xs| - 1])
  }

  function GetAll(s: Word): (xs: seq<int>)
    requires |s| % 8 == 0
    ensures |xs| == |s| / 8
  {
    if s == [] then [] else GetAll(s[..|s| - 8]) + [Get64(s[|s| - 8..])]
  }

  lemma {:induction false} LastEight(a: Word, b: Word)
    requires |b| == 8
    ensures (a + b)[..|a + b| - 8] == a && (a + b)[|a + b| - 8..] == b
  {}

  lemma {:induction false} AllReadBack(xs: seq<int>)
    requires forall i | 0 <= i < |xs| :: Fits(xs[i], U64)
    ensures GetAll(PutAll(xs)) == xs
  {
    if xs != [] {
      var n := |xs| - 1;
      AllReadBack(xs[..n]);
      SignedRoundTrip64(xs[n], []);
      LastEight(PutAll(xs[..n]), Put64(xs[n]));
    }
  }

  lemma {:induction false} AllWriteBack(s: Word)
    requires |s| % 8 == 0
    ensures forall i | 0 <= i < |GetAll(s)| :: Fits(GetAll(s)[i], U64)
    ensures PutAll(GetAll(s)) == s
  {
    if s != [] {
      var init, last := s[..|s| - 8], s[|s| - 8..];
      AllWriteBack(init);
      SignedRoundTrip64(0, last);
      var xs := GetAll(s);
      assert xs[..|xs| - 1] == GetAll(init);
      assert s == init + last;
    }
  }

  function LineHeader(idx: SparseLineIndex): Header {
    Header(idx.step, idx.totalLines, idx.fileSize, idx.modTimeNano)
  }

  function LineFile(idx: SparseLineIndex): Word
    requires LineIndexFits(idx)
  {
    HeaderBytes(LineMagic(), LineHeader(idx)) + PutAll(idx.offsets)
  }

  predicate IsLineFile(file: Word) {
    |file| >= HEADER_SIZE && file[..8] == LineMagic() && (|file| - HEADER_SIZE) % 8 == 0
  }

  function ParsedLine(file: Word): SparseLineIndex
    requires IsLineFile(file)
  {
    var hd := HeaderOf(file);
    SparseLineIndex(hd.count, hd.totalLines, GetAll(file[HEADER_SIZE..]), hd.fileSize, hd.modTimeNano)
  }

  /** Every index is read back field for field. */
  lemma {:induction false} LineFileReadsBack(idx: SparseLineIndex)
    requires LineIndexFits(idx)
    ensures IsLineFile(LineFile(idx)) && ParsedLine(LineFile(idx)) == idx
  {
    HeaderFields(LineMagic(), LineHeader(idx), PutAll(idx.offsets));
    AllReadBack(idx.offsets);
  }

  /** Every well-formed file is the file of what is read from it, so no two files mean the same
      index. */
  lemma {:induction false} LineFileWritesBack(file: Word)
    requires IsLineFile(file)
    ensures LineIndexFits(ParsedLine(file)) && LineFile(ParsedLine(file)) == file
  {
    HeaderRebuilds(file);
    AllWriteBack(file[HEADER_SIZE..]);
  }

  method SaveLineIndexToDisk(idx: SparseLineIndex) returns (file: Word)
    requires LineIndexFits(idx)
    ensures file == LineFile(idx)
  {
    file := WriteHeader(LineMagic(), LineHeader(idx));
    for i := 0 to |idx.offsets|
      invariant file == HeaderBytes(LineMagic(), LineHeader(idx)) + PutAll(idx.offsets[..i])
    {
      assert idx.offsets[..i + 1][..i] == idx.offsets[..i];
      file := file + Put64(idx.offsets[i]);
    }
    TakeAll(idx.offsets);
  }

  /** The offsets read from the payload grow by the next eight bytes of the file. */
  lemma {:induction false} OneMoreOffset(f: Word, i: nat)
    requires HEADER_SIZE + 8 * i + 8 <= |f|
    ensures var payload, at := f[HEADER_SIZE..], HEADER_SIZE + 8 * i;
            GetAll(payload[..8 * (i + 1)]) == GetAll(payload[..8 * i]) + [Get64(f[at..at + 8])]
  {
    var payload, at := f[HEADER_SIZE..], HEADER_SIZE + 8 * i;
    var more := payload[..8 * (i + 1)];
    assert |more| == 8 * i + 8;
    LastEight(payload[..8 * i], f[at..at + 8]);
    assert more == payload[..8 * i] + f[at..at + 8];
  }

  /** Reads an index file, if it is there: it must be whole, of the right kind, and made for a
      file of the expected size and time. */
  method LoadLineIndexFromDisk(file: Option<Word>, expectedSize: int, expectedModTimeNano: int)
    returns (r: Result<SparseLineIndex>)
    ensures r.Ok? <==> (file.Some? && IsLineFile(file.value) && ParsedLine(file.value).fileSize == expectedSize
                        && ParsedLine(file.value).modTimeNano == expectedModTimeNano)
    ensures r.Ok? ==> r.value == ParsedLine(file.value)
  {
    if file.None? {
      return Err;
    }
    var f := file.value;
    if |f| < HEADER_SIZE {
      return Err;
    }
    if f[0..8] != LineMagic() {
      return Err;
    }
    var hd := HeaderOf(f);
    if hd.fileSize != expectedSize || hd.modTimeNano != expectedModTimeNano {
      return Err;
    }
    var payloadSize := |f| - HEADER_SIZE;
    if payloadSize % 8 != 0 {
      return Err;
    }
    var count := payloadSize / 8;
    var offsets: seq<int> := [];
    ghost var payload := f[HEADER_SIZE..];
    for i := 0 to count
      invariant offsets == GetAll(payload[..8 * i])
    {
      var at := HEADER_SIZE + 8 * i;
      OneMoreOffset(f, i);
      offsets := offsets + [Get64(f[at..at + 8])];
    }
    assert payload[..8 * count] == payload;
    r := Ok(SparseLineIndex(hd.count, hd.totalLines, offsets, hd.fileSize, hd.modTimeNano));
  }

  // ---- the chunk index file

  const RECORD_SIZE: nat := 1056

  function BloomMagic(): (m: Word)
    ensures |m| == 8
  {
    Text("BIDX0002")
  }

  function AsByte(b: bv8): byte {
    b as byte
  }

  function AsBits(b: byte): bv8 {
    b as bv8
  }

  lemma {:induction false} ByteRoundTrip(b: bv8)
    ensures AsBits(AsByte(b)) == b
  {}

  function FilterBytes(filter: seq<bv8>): (s: Word)
    ensures |s| == |filter|
  {
    seq(|filter|, i requires 0 <= i < |filter| => AsByte(filter[i]))
  }

  function FilterOf(s: Word): (filter: seq<bv8>)
    ensures |filter| == |s|
  {
    seq(|s|, i requires 0 <= i < |s| => AsBits(s[i]))
  }

  lemma {:induction false} FilterRoundTrip(filter: seq<bv8>)
    ensures FilterOf(FilterBytes(filter)) == filter
  {
    forall i | 0 <= i < |filter| ensures FilterOf(FilterBytes(filter))[i] == filter[i] {
      ByteRoundTrip(filter[i]);
    }
  }

  predicate ChunkFits(c: BloomChunkMeta) {
    && Fits(c.chunkIndex, U32) && Fits(c.startLine, U64) && Fits(c.lineCount, U32)
    && Fits(c.startOffset, U64) && Fits(c.endOffset, U64) && |c.filter| == FILTER_BYTES
  }

  predicate ChunksFit(chunks: seq<BloomChunkMeta>) {
    forall i | 0 <= i < |chunks| :: ChunkFits(chunks[i])
  }

  predicate BloomIndexFits(idx: ChunkBloomIndex) {
    && |idx.chunks| < U32 && Fits(idx.totalLines, U64) && Fits(idx.fileSize, U64) && Fits(idx.modTimeNano, U64)
    && ChunksFit(idx.chunks)
  }

  function Record(c: BloomChunkMeta): (s: Word)
    requires ChunkFits(c)
    ensures |s| == RECORD_SIZE
  {
    Put32(c.chunkIndex) + Put64(c.startLine) + Put32(c.lineCount) + Put64(c.startOffset) + Put64(c.endOffset)
      + FilterBytes(c.filter)
  }

  function RecordOf(s: Word): BloomChunkMeta
    requires |s| == RECORD_SIZE
  {
    BloomChunkMeta(Get32(s[0..4]), Get64(s[4..12]), Get32(s[12..16]), Get64(s[16..24]), Get64(s[24..32]),
      FilterOf(s[32..]))
  }

  lemma {:induction false} RecordReadsBack(c: BloomChunkMeta)
    requires ChunkFits(c)
    ensures RecordOf(Record(c)) == c
  {
    var s := Record(c);
    assert s[0..4] == Put32(c.chunkIndex);
    assert s[4..12] == Put64(c.startLine);
    assert s[12..16] == Put32(c.lineCount);
    assert s[16..24] == Put64(c.startOffset);
    assert s[24..32] == Put64(c.endOffset);
    assert s[32..] == FilterBytes(c.filter);
    SignedRoundTrip32(c.chunkIndex, []);
    SignedRoundTrip64(c.startLine, []);
    SignedRoundTrip32(c.lineCount, []);
    SignedRoundTrip64(c.startOffset, []);
    SignedRoundTrip64(c.endOffset, []);
    FilterRoundTrip(c.filter);
  }

  /** The two kinds of files begin with LIDX0001 and BIDX0002. */
  lemma Magics()
    ensures LineMagic() == [76, 73, 68, 88, 48, 48, 48, 49] && BloomMagic() == [66, 73, 68, 88, 48, 48, 48, 50]
  {}

  /** Where the fields of a record stand. */
  lemma {:induction false} RecordFields(c: BloomChunkMeta)
    requires ChunkFits(c)
    ensures var s := Record(c);
      && s[0..4] == Put32(c.chunkIndex) && s[4..12] == Put64(c.startLine) && s[12..16] == Put32(c.lineCount)
      && s[16..24] == Put64(c.startOffset) && s[24..32] == Put64(c.endOffset) && s[32..] == FilterBytes(c.filter)
  {}

  function Records(chunks: seq<BloomChunkMeta>): (s: Word)
    requires ChunksFit(chunks)
    ensures |s| == RECORD_SIZE * |chunks|
  {
    if chunks == [] then [] else Records(chunks[..|chunks| - 1]) + Record(chunks[|chunks| - 1])
  }

  /** The first `n` records of a payload. */
  function RecordsOf(s: Word, n: nat): (chunks: seq<BloomChunkMeta>)
    requires RECORD_SIZE * n <= |s|
    ensures |chunks| == n
  {
    if n == 0 then []
    else RecordsOf(s, n - 1) + [RecordOf(s[RECORD_SIZE * (n - 1)..RECORD_SIZE * (n - 1) + RECORD_SIZE])]
  }

  lemma {:induction false} RecordsReadBack(chunks: seq<BloomChunkMeta>, rest: Word)
    requires ChunksFit(chunks)
    ensures RecordsOf(Records(chunks) + rest, |chunks|) == chunks
    decreases |chunks|
  {
    if chunks != [] {
      var n := |chunks| - 1;
      var a, b := Records(chunks[..n]), Record(chunks[n]);
      RecordsReadBack(chunks[..n], b + rest);
      RecordReadsBack(chunks[n]);
      MiddleOfThree(a, b, rest);
      LastRecordOf(a, b, rest, n);
    }
  }

  lemma {:induction false} LastRecordOf(a: Word, b: Word, rest: Word, n: nat)
    requires |a| == n * RECORD_SIZE && |b| == RECORD_SIZE
    ensures |a + b + rest| >= (n + 1) * RECORD_SIZE
    ensures RecordsOf(a + b + rest, n + 1) == RecordsOf(a + (b + rest), n) + [RecordOf(b)]
  {
    MiddleOfThree(a, b, rest);
  }

  lemma {:induction false} MiddleOfThree(a: Word, b: Word, c: Word)
    ensures a + b + c == a + (b + c) && (a + b + c)[|a|..|a| + |b|] == b
  {}

  function BloomHeader(idx: ChunkBloomIndex): Header {
    Header(|idx.chunks|, idx.totalLines, idx.fileSize, idx.modTimeNano)
  }

  function BloomFile(idx: ChunkBloomIndex): Word
    requires BloomIndexFits(idx)
  {
    HeaderBytes(BloomMagic(), BloomHeader(idx)) + Records(idx.chunks)
  }

  /** A chunk index file: bytes after the last record are ignored. */
  predicate IsBloomFile(file: Word) {
    |file| >= HEADER_SIZE && file[..8] == BloomMagic() && |file| - HEADER_SIZE >= RECORD_SIZE * HeaderOf(file).count
  }

  function ParsedBloom(file: Word): ChunkBloomIndex
    requires IsBloomFile(file) && HeaderOf(file).Ok()
  {
    var hd := HeaderOf(file);
    ChunkBloomIndex(hd.fileSize, hd.modTimeNano, hd.totalLines, RecordsOf(file[HEADER_SIZE..], hd.count))
  }

  /** Every index is read back field for field. */
  lemma {:induction false} BloomFileReadsBack(idx: ChunkBloomIndex)
    requires BloomIndexFits(idx)
    ensures var file := BloomFile(idx);
      IsBloomFile(file) && HeaderOf(file).Ok() && ParsedBloom(file) == idx
  {
    HeaderFields(BloomMagic(), BloomHeader(idx), Records(idx.chunks));
    assert Records(idx.chunks) + [] == Records(idx.chunks);
    RecordsReadBack(idx.chunks, []);
  }

  function RecordAt(k: nat): nat {
    HEADER_SIZE + RECORD_SIZE * k
  }

  lemma {:induction false} RecordsAt(chunks: seq<BloomChunkMeta>, k: nat)
    requires ChunksFit(chunks) && k < |chunks|
    ensures Records(chunks)[RECORD_SIZE * k..RECORD_SIZE * k + RECORD_SIZE] == Record(chunks[k])
    decreases |chunks|
  {
    var n := |chunks| - 1;
    var init := Records(chunks[..n]);
    if k < n {
      RecordsAt(chunks[..n], k);
      SliceOfPrefix(init, Records(chunks), RECORD_SIZE * k, RECORD_SIZE * k + RECORD_SIZE);
    } else {
      MiddleOfThree(init, Record(chunks[n]), []);
      assert init + Record(chunks[n]) + [] == Records(chunks);
    }
  }

  lemma SliceOfPrefix(p: Word, s: Word, lo: nat, hi: nat)
    requires p <= s && lo <= hi <= |p|
    ensures p[lo..hi] == s[lo..hi]
  {}

  /** Record `k` of the file of an index is that of chunk `k`. */
  lemma {:induction false} FileRecordAt(idx: ChunkBloomIndex, k: nat)
    requires BloomIndexFits(idx) && k < |idx.chunks|
    ensures RecordAt(k) + RECORD_SIZE <= |BloomFile(idx)|
    ensures BloomFile(idx)[RecordAt(k)..RecordAt(k) + RECORD_SIZE] == Record(idx.chunks[k])
  {
    RecordsAt(idx.chunks, k);
    var header := HeaderBytes(BloomMagic(), BloomHeader(idx));
    var at := RECORD_SIZE * k;
    assert BloomFile(idx)[HEADER_SIZE..] == Records(idx.chunks);
    SliceOfSlice(BloomFile(idx), HEADER_SIZE, |BloomFile(idx)|, at, at + RECORD_SIZE);
  }

  /** Chunk `k` of what is read from a file is what its record says. */
  lemma {:induction false} ParsedRecordAt(payload: Word, n: nat, k: nat)
    requires k < n && RECORD_SIZE * n <= |payload|
    ensures RecordsOf(payload, n)[k] == RecordOf(payload[RECORD_SIZE * k..RECORD_SIZE * k + RECORD_SIZE])
    decreases n
  {
    if k < n - 1 {
      ParsedRecordAt(payload, n - 1, k);
    }
  }

  method SaveBloomIndexToDisk(idx: ChunkBloomIndex) returns (file: Word)
    requires BloomIndexFits(idx)
    ensures file == BloomFile(idx)
  {
    file := WriteHeader(BloomMagic(), BloomHeader(idx));
    for i := 0 to |idx.chunks|
      invariant file == HeaderBytes(BloomMagic(), BloomHeader(idx)) + Records(idx.chunks[..i])
    {
      assert idx.chunks[..i + 1][..i] == idx.chunks[..i];
      file := file + Record(idx.chunks[i]);
    }
    TakeAll(idx.chunks);
  }

  /** Reads an index file, if it is there: it must be of the right kind, made for a file of the
      expected size and time, and hold all the records it announces. */
  method LoadBloomIndexFromDisk(file: Option<Word>, expectedSize: int, expectedModTimeNano: int)
    returns (r: Result<ChunkBloomIndex>)
    ensures r.Ok? <==> (file.Some? && IsBloomFile(file.value) && HeaderOf(file.value).fileSize == expectedSize
                        && HeaderOf(file.value).modTimeNano == expectedModTimeNano)
    ensures r.Ok? ==> HeaderOf(file.value).Ok() && r.value == ParsedBloom(file.value)
  {
    if file.None? {
      return Err;
    }
    var f := file.value;
    if |f| < HEADER_SIZE {
      return Err;
    }
    if f[0..8] != BloomMagic() {
      return Err;
    }
    HeaderRebuilds(f);
    var hd := HeaderOf(f);
    if hd.fileSize != expectedSize || hd.modTimeNano != expectedModTimeNano {
      return Err;
    }
    ghost var payload := f[HEADER_SIZE..];
    var chunks: seq<BloomChunkMeta> := [];
    for i := 0 to hd.count
      invariant RECORD_SIZE * i <= |payload| && chunks == RecordsOf(payload, i)
    {
      var at := HEADER_SIZE + RECORD_SIZE * i;
      if |f| - at < RECORD_SIZE {
        return Err;
      }
      assert payload[RECORD_SIZE * i..RECORD_SIZE * i + RECORD_SIZE] == f[at..at + RECORD_SIZE];
      chunks := chunks + [RecordOf(f[at..at + RECORD_SIZE])];
    }
    r := Ok(ChunkBloomIndex(hd.fileSize, hd.modTimeNano, hd.totalLines, chunks));
  }
}
