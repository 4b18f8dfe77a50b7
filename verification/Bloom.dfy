/** The 8192-bit Bloom filter of one chunk, and the tokens that go into it. */
module Bloom {
  import opened Bytes

  const FILTER_BYTES: nat := 1024
  const FILTER_BITS: nat := 8192
  const UINT32: nat := 0x1_0000_0000

  /** Any deterministic hash of a word to two unsigned 32-bit values. */
  type Hash = Word -> (nat, nat)

  // ---- bits

  /** The mask of bit `k` of a byte. */
  function Mask(k: nat): bv8 {
    if k == 0 then 1 else if k == 1 then 2 else if k == 2 then 4 else if k == 3 then 8
    else if k == 4 then 16 else if k == 5 then 32 else if k == 6 then 64 else 128
  }

  lemma {:induction false} MaskIsShift(k: nat)
    requires k < 8
    ensures Mask(k) == (1 as bv8) << k
  {}

  predicate Bit(b: bv8, k: nat) {
    b & Mask(k) != 0
  }

  lemma {:induction false} BitOfWithBit(b: bv8, k: nat, j: nat)
    requires k < 8 && j < 8
    ensures Bit(b | Mask(k), j) <==> j == k || Bit(b, j)
  {}

  predicate BitAt(filter: seq<bv8>, p: nat)
    requires p < 8 * |filter|
  {
    Bit(filter[p / 8], p % 8)
  }

  /** The set bits of a filter. */
  ghost function Bits(filter: seq<bv8>): set<nat> {
    set p: nat | p < 8 * |filter| && BitAt(filter, p)
  }

  predicate LongPureDigits(word: Word) {
    |word| > 4 && forall j | 0 <= j < |word| :: IsDigit(word[j])
  }

  method IsLongPureDigits(word: Word) returns (r: bool)
    ensures r <==> LongPureDigits(word)
    ensures r <==> |word| > 4 && forall j | 0 <= j < |word| :: OneOf(word[j], DIGITS)
  {
    forall j | 0 <= j < |word| ensures IsDigit(word[j]) <==> OneOf(word[j], DIGITS) {
      DigitBytes(word[j]);
    }
    if |word| <= 4 {
      return false;
    }
    for i := 0 to |word|
      invariant forall j | 0 <= j < i :: IsDigit(word[j])
    {
      if word[i] as int < '0' as int || word[i] as int > '9' as int {
        return false;
      }
    }
    r := true;
  }

  /** The bit the `i`-th hash function picks, with 32-bit wrap-around. */
  function BitPos(h: Hash, word: Word, i: nat): (p: nat)
    ensures p < FILTER_BITS
  {
    ((h(word).0 + i * h(word).1 % UINT32) % UINT32) % FILTER_BITS
  }

  /** The 32-bit wrap-around of sum and product does not show in the bit. */
  lemma WrapIsHarmless(h: Hash, word: Word, i: nat)
    ensures BitPos(h, word, i) == (h(word).0 + i * h(word).1) % 8192
  {
    var a, m := h(word).0, i * h(word).1;
    assert m == m / UINT32 * UINT32 + m % UINT32;
    var n := a + m % UINT32;
    assert n == n / UINT32 * UINT32 + n % UINT32;
  }

  /** The bits that stand for a word; the empty word and long numbers have none. */
  ghost function WordBits(h: Hash, word: Word): set<nat> {
    if word == [] || LongPureDigits(word) then {} else PositionsTo(h, word, 4)
  }

  ghost function PositionsTo(h: Hash, word: Word, n: nat): set<nat> {
    set i | 0 <= i < n :: BitPos(h, word, i)
  }

  lemma {:induction false} OneMorePosition(h: Hash, word: Word, n: nat)
    ensures PositionsTo(h, word, n + 1) == PositionsTo(h, word, n) + {BitPos(h, word, n)}
  {}

  function WithBit(filter: seq<bv8>, p: nat): (r: seq<bv8>)
    requires p < 8 * |filter|
    ensures |r| == |filter|
  {
    filter[p / 8 := filter[p / 8] | Mask(p % 8)]
  }

  lemma {:induction false} SetOneBit(filter: seq<bv8>, p: nat)
    requires p < 8 * |filter|
    ensures Bits(WithBit(filter, p)) == Bits(filter) + {p}
  {
    var after := WithBit(filter, p);
    forall q: nat | q < 8 * |filter| ensures BitAt(after, q) <==> q == p || BitAt(filter, q) {
      if q / 8 == p / 8 {
        BitOfWithBit(filter[p / 8], p % 8, q % 8);
      }
    }
  }

  method SetBit(b: array<bv8>, bitPos: nat)
    requires bitPos < 8 * b.Length
    modifies b
    ensures Bits(b[..]) == Bits(old(b[..])) + {bitPos}
  {
    MaskIsShift(bitPos % 8);
    SetOneBit(b[..], bitPos);
    ghost var after := WithBit(b[..], bitPos);
    b[bitPos / 8] := b[bitPos / 8] | (1 << (bitPos % 8));
    assert b[..] == after;
  }

  method Add(b: array<bv8>, h: Hash, word: Word)
    requires b.Length == FILTER_BYTES
    modifies b
    ensures Bits(b[..]) == Bits(old(b[..])) + WordBits(h, word)
  {
    var digits := IsLongPureDigits(word);
    if |word| == 0 || digits {
      return;
    }
    for i := 0 to 4
      invariant Bits(b[..]) == Bits(old(b[..])) + PositionsTo(h, word, i)
    {
      var bitPos := BitPos(h, word, i);
      OneMorePosition(h, word, i);
      SetBit(b, bitPos);
    }
  }

  method MayContain(filter: seq<bv8>, h: Hash, word: Word) returns (r: bool)
    requires |filter| == FILTER_BYTES
    ensures r <==> WordBits(h, word) <= Bits(filter)
  {
    var digits := IsLongPureDigits(word);
    if |word| == 0 || digits {
      return true;
    }
    for i := 0 to 4
      invariant PositionsTo(h, word, i) <= Bits(filter)
    {
      var bitPos := BitPos(h, word, i);
      OneMorePosition(h, word, i);
      MaskIsShift(bitPos % 8);
      if filter[bitPos / 8] & (1 << (bitPos % 8)) == 0 {
        assert bitPos in PositionsTo(h, word, 4) && bitPos !in Bits(filter);
        return false;
      }
    }
    r := true;
  }

  // ---- tokens

  predicate IsTokenByte(b: byte) {
    || 'a' as int <= b as int <= 'z' as int
    || 'A' as int <= b as int <= 'Z' as int
    || '0' as int <= b as int <= '9' as int
    || b as int == '_' as int || b as int == '-' as int
  }

  /** The bytes of tokens are the letters, the digits, the underscore and the hyphen. */
  lemma TokenBytes(b: byte)
    ensures IsTokenByte(b) <==> OneOf(b, SMALLS + CAPITALS + DIGITS + "_-")
  {
    CapitalBytes(b);
    SmallBytes(b);
    DigitBytes(b);
  }

  /** A maximal run of token bytes, of a length that is indexed. */
  predicate TokenAt(data: Word, a: int, b: int) {
    && 0 <= a < b <= |data| && 2 <= b - a <= 64
    && (forall j | a <= j < b :: IsTokenByte(data[j]))
    && (a == 0 || !IsTokenByte(data[a - 1]))
    && (b == |data| || !IsTokenByte(data[b]))
  }

  /** Where the run of token bytes that ends at `b` starts. */
  function RunStart(data: Word, b: nat): (a: nat)
    requires b <= |data|
    ensures a <= b && (forall j | a <= j < b :: IsTokenByte(data[j]))
    ensures a == 0 || !IsTokenByte(data[a - 1])
  {
    if b > 0 && IsTokenByte(data[b - 1]) then RunStart(data, b - 1) else b
  }

  lemma {:induction false} RunStartUnique(data: Word, a: nat, b: nat)
    requires a < b <= |data| && (forall j | a <= j < b :: IsTokenByte(data[j]))
    requires a == 0 || !IsTokenByte(data[a - 1])
    ensures RunStart(data, b) == a
  {
    var r := RunStart(data, b);
    assert !(r < a) && !(a < r);
  }

  /** The bits of the token that ends at `b`, if one does. */
  ghost function EndBits(h: Hash, data: Word, b: nat): set<nat>
    requires b <= |data|
  {
    if TokenAt(data, RunStart(data, b), b) then WordBits(h, Lower(data[RunStart(data, b)..b])) else {}
  }

  /** The bits of the lowered tokens that end within the first `n` bytes. */
  ghost function TokenBits(h: Hash, data: Word, n: nat): set<nat>
    requires n <= |data|
  {
    if n == 0 then {} else TokenBits(h, data, n - 1) + EndBits(h, data, n)
  }

  /** Bit `p` is one of those of the word between `a` and `b`. */
  ghost predicate TokenWithBit(h: Hash, content: Word, a: nat, b: nat, p: nat)
    requires a <= b <= |content|
  {
    p in WordBits(h, Lower(content[a..b]))
  }

  /** Those are the bits of every maximal run of indexed length, and no others. */
  lemma {:induction false} TokenBitsAre(h: Hash, data: Word, n: nat, p: nat)
    requires n <= |data|
    ensures p in TokenBits(h, data, n)
      <==> exists a, b :: TokenAt(data, a, b) && b <= n && TokenWithBit(h, data, a, b, p)
  {
    if n != 0 {
      TokenBitsAre(h, data, n - 1, p);
      forall a, b | TokenAt(data, a, b) && b == n ensures a == RunStart(data, b) {
        RunStartUnique(data, a, b);
      }
    }
  }

  method ToLowerAscii(src: Word, dst: array<byte>)
    requires |src| <= dst.Length
    modifies dst
    ensures dst[..|src|] == Lower(src)
  {
    for i := 0 to |src|
      invariant forall j | 0 <= j < i :: dst[j] == LowerByte(src[j])
    {
      var c := src[i];
      if 'A' as int <= c as int <= 'Z' as int {
        dst[i] := c + 32;
      } else {
        dst[i] := c;
      }
    }
  }

  /** Adds the token `data[start..end]`, when its length is indexed. */
  method AddToken(b: array<bv8>, h: Hash, data: Word, start: nat, end: nat, lowerBuf: array<byte>)
    requires b.Length == FILTER_BYTES && lowerBuf.Length >= 64 && b as object != lowerBuf
    requires start < end <= |data| && start == RunStart(data, end)
    requires end == |data| || !IsTokenByte(data[end])
    modifies b, lowerBuf
    ensures Bits(b[..]) == Bits(old(b[..])) + EndBits(h, data, end)
  {
    var tokenLen := end - start;
    if 2 <= tokenLen <= 64 {
      ToLowerAscii(data[start..end], lowerBuf);
      assert b[..] == old(b[..]);
      Add(b, h, lowerBuf[..tokenLen]);
    }
  }

  /** The bits recorded when the scan stands before byte `i`: a run still open has none yet. */
  ghost function Recorded(h: Hash, data: Word, i: nat): set<nat>
    requires i <= |data|
  {
    TokenBits(h, data, Closed(data, i))
  }

  lemma {:induction false} RecordedStep(h: Hash, data: Word, i: nat)
    requires i < |data|
    ensures IsTokenByte(data[i]) ==> Recorded(h, data, i + 1) == Recorded(h, data, i)
    ensures !IsTokenByte(data[i]) ==>
      Recorded(h, data, i + 1) == Recorded(h, data, i)
        + if i > 0 && IsTokenByte(data[i - 1]) then EndBits(h, data, i) else {}
  {
    if IsTokenByte(data[i]) {
      assert EndBits(h, data, i) == {};
    } else {
      assert EndBits(h, data, i + 1) == {};
      assert TokenBits(h, data, i + 1) == TokenBits(h, data, i);
      assert i > 0 ==> TokenBits(h, data, i) == TokenBits(h, data, i - 1) + EndBits(h, data, i);
    }
  }

  /** Sets exactly the bits of the tokens of `data`. */
  method ExtractTokensToBloom(b: array<bv8>, h: Hash, data: Word, lowerBuf: array<byte>)
    requires b.Length == FILTER_BYTES && lowerBuf.Length >= 64 && b as object != lowerBuf
    modifies b, lowerBuf
    ensures Bits(b[..]) == Bits(old(b[..])) + TokenBits(h, data, |data|)
  {
    var start := -1;
    for i := 0 to |data|
      invariant start == if i > 0 && IsTokenByte(data[i - 1]) then RunStart(data, i) else -1
      invariant Bits(b[..]) == Bits(old(b[..])) + Recorded(h, data, i)
    {
      RecordedStep(h, data, i);
      if IsTokenByte(data[i]) {
        if start == -1 {
          start := i;
        }
      } else {
        if start != -1 {
          AddToken(b, h, data, start, i, lowerBuf);
          start := -1;
        }
      }
    }
    if start != -1 {
      AddToken(b, h, data, start, |data|, lowerBuf);
    }
  }

  // ---- asking for a keyword

  predicate IsSpace(b: byte) {
    b == 32 || 9 <= b <= 13
  }

  /** Without leading and trailing white space. */
  function Trim(s: Word): Word {
    if s != [] && IsSpace(s[0]) then Trim(s[1..])
    else if s != [] && IsSpace(s[|s| - 1]) then Trim(s[..|s| - 1])
    else s
  }

  /** White space is the blank, the tabs, and the bytes that end or feed lines and pages. */
  lemma SpaceBytes(b: byte)
    ensures IsSpace(b) <==> b in [9, 10, 11, 12, 13, 32]
  {}

  /** Trimming takes white space off both ends, and nothing else. */
  lemma {:induction false} TrimIs(s: Word)
    ensures exists from: nat, to: nat :: TrimmedAt(s, from, to)
    decreases |s|
  {
    if s != [] && IsSpace(s[0]) {
      TrimIs(s[1..]);
      var from: nat, to: nat :| TrimmedAt(s[1..], from, to);
      assert TrimmedAt(s, from + 1, to + 1);
    } else if s != [] && IsSpace(s[|s| - 1]) {
      var front := s[..|s| - 1];
      TrimIs(front);
      var from: nat, to: nat :| TrimmedAt(front, from, to);
      assert s[from..to] == front[from..to];
      assert TrimmedAt(s, from, to);
    } else {
      assert TrimmedAt(s, 0, |s|);
    }
  }

  /** The trimmed text is the stretch between the two places, which begins and ends with no white
      space, and there is nothing but white space around it. */
  ghost predicate TrimmedAt(s: Word, from: nat, to: nat) {
    && from <= to <= |s| && Trim(s) == s[from..to]
    && (from < to ==> !IsSpace(s[from]) && !IsSpace(s[to - 1]))
    && (forall j | 0 <= j < from :: IsSpace(s[j])) && forall j | to <= j < |s| :: IsSpace(s[j])
  }

  predicate IsAscii(s: Word) {
    forall j | 0 <= j < |s| :: s[j] < 128
  }

  predicate NoCapitals(s: Word) {
    forall j | 0 <= j < |s| :: LowerByte(s[j]) == s[j]
  }

  /** What the library's lower-casing and trimming make of a keyword: no capital letter is left,
      and on ASCII text it is the plain thing. Beyond ASCII anything may happen. */
  predicate IsCleaned(kw: Word, cleanKw: Word) {
    && NoCapitals(cleanKw)
    && (IsAscii(kw) ==> cleanKw == Lower(Trim(kw)))
  }

  /** The cleaned keyword: plain on ASCII text, and otherwise what the library `lib` makes of it. */
  function Cleaned(lib: Word -> Word, kw: Word): (cleanKw: Word)
    requires NoCapitals(lib(kw))
    ensures IsCleaned(kw, cleanKw)
  {
    if IsAscii(kw) then Lower(Trim(kw)) else lib(kw)
  }

  predicate HasTokenWithin(data: Word, n: nat)
    requires n <= |data|
  {
    exists a, b :: 0 <= a <= b <= n && TokenAt(data, a, b)
  }

  /** What the filter's bits must hold for a keyword to be searched for in the chunk. */
  ghost predicate Admits(bits: set<nat>, h: Hash, cleanKw: Word) {
    || |cleanKw| < 2
    || (TokenBits(h, cleanKw, |cleanKw|) <= bits
        && (HasTokenWithin(cleanKw, |cleanKw|) || |cleanKw| > 64 || WordBits(h, cleanKw) <= bits))
  }

  /** Checks the token that ends at `end`, when its length is indexed. */
  method CheckToken(filter: seq<bv8>, h: Hash, cleanKw: Word, start: nat, end: nat, hasToken0: bool)
    returns (hasToken: bool, possible: bool)
    requires |filter| == FILTER_BYTES && start < end <= |cleanKw| && start == RunStart(cleanKw, end)
    requires (end == |cleanKw| || !IsTokenByte(cleanKw[end])) && NoCapitals(cleanKw)
    requires hasToken0 <==> HasTokenWithin(cleanKw, end - 1)
    ensures possible <==> EndBits(h, cleanKw, end) <= Bits(filter)
    ensures hasToken <==> HasTokenWithin(cleanKw, end)
  {
    hasToken, possible := hasToken0, true;
    var tok := cleanKw[start..end];
    forall a | TokenAt(cleanKw, a, end) ensures a == start {
      RunStartUnique(cleanKw, a, end);
    }
    if 2 <= |tok| <= 64 {
      hasToken := true;
      assert TokenAt(cleanKw, start, end);
      assert Lower(tok) == tok;
      possible := MayContain(filter, h, tok);
    }
  }

  lemma {:induction false} TokenBitsGrow(h: Hash, data: Word, n: nat, m: nat)
    requires n <= m <= |data|
    ensures TokenBits(h, data, n) <= TokenBits(h, data, m)
    decreases m - n
  {
    if n < m {
      TokenBitsGrow(h, data, n, m - 1);
    }
  }

  lemma {:induction false} NoTokenEnds(data: Word, i: nat)
    requires i < |data|
    ensures IsTokenByte(data[i]) ==> (HasTokenWithin(data, i) <==> HasTokenWithin(data, Closed(data, i)))
    ensures HasTokenWithin(data, Closed(data, i + 1)) <==> HasTokenWithin(data, i)
  {}

  /** The runs closed before byte `i` end by here. */
  function Closed(data: Word, i: nat): (n: nat)
    requires i <= |data|
    ensures n <= i
  {
    if i > 0 && IsTokenByte(data[i - 1]) then i - 1 else i
  }

  /** What the scan of the keyword knows before byte `i`. */
  ghost predicate CheckedTo(bits: set<nat>, h: Hash, cleanKw: Word, i: nat, start: int, hasToken: bool)
    requires i <= |cleanKw|
  {
    && start == (if i > 0 && IsTokenByte(cleanKw[i - 1]) then RunStart(cleanKw, i) else -1)
    && (hasToken <==> HasTokenWithin(cleanKw, Closed(cleanKw, i)))
    && Recorded(h, cleanKw, i) <= bits
  }

  /** Takes one byte of the keyword, checking the token that ends before it. */
  method CheckByte(filter: seq<bv8>, h: Hash, cleanKw: Word, i: nat, start0: int, hasToken0: bool)
    returns (start: int, hasToken: bool, possible: bool)
    requires |filter| == FILTER_BYTES && NoCapitals(cleanKw) && i < |cleanKw|
    requires CheckedTo(Bits(filter), h, cleanKw, i, start0, hasToken0)
    ensures possible ==> CheckedTo(Bits(filter), h, cleanKw, i + 1, start, hasToken)
    ensures !possible ==> !(TokenBits(h, cleanKw, |cleanKw|) <= Bits(filter))
  {
    start, hasToken, possible := start0, hasToken0, true;
    RecordedStep(h, cleanKw, i);
    NoTokenEnds(cleanKw, i);
    if IsTokenByte(cleanKw[i]) {
      if start == -1 {
        start := i;
      }
    } else if start != -1 {
      hasToken, possible := CheckToken(filter, h, cleanKw, start, i, hasToken);
      TokenBitsGrow(h, cleanKw, i, |cleanKw|);
      start := -1;
    }
  }

  /** Checks the tokens of the cleaned keyword one by one, up to one that is not there. */
  method CheckTokens(filter: seq<bv8>, h: Hash, cleanKw: Word) returns (hasToken: bool, possible: bool)
    requires |filter| == FILTER_BYTES && NoCapitals(cleanKw)
    ensures possible <==> TokenBits(h, cleanKw, |cleanKw|) <= Bits(filter)
    ensures possible ==> (hasToken <==> HasTokenWithin(cleanKw, |cleanKw|))
  {
    var start := -1;
    hasToken, possible := false, true;
    for i := 0 to |cleanKw|
      invariant possible && CheckedTo(Bits(filter), h, cleanKw, i, start, hasToken)
    {
      start, hasToken, possible := CheckByte(filter, h, cleanKw, i, start, hasToken);
      if !possible {
        return;
      }
    }
    if start != -1 {
      hasToken, possible := CheckToken(filter, h, cleanKw, start, |cleanKw|, hasToken);
    }
  }

  /** Answers whether the chunk may hold the keyword: every indexed token of the cleaned keyword
      must be there, or the keyword itself when it has none and is not too long. */
  method MayContainSearchKeyword(filter: seq<bv8>, h: Hash, lib: Word -> Word, kw: Word) returns (r: bool)
    requires |filter| == FILTER_BYTES && NoCapitals(lib(kw))
    ensures r <==> Admits(Bits(filter), h, Cleaned(lib, kw))
  {
    var cleanKw := Cleaned(lib, kw);
    if |cleanKw| < 2 {
      return true;
    }
    var hasToken, possible := CheckTokens(filter, h, cleanKw);
    if !possible {
      return false;
    }
    if !hasToken && 2 <= |cleanKw| <= 64 {
      r := MayContain(filter, h, cleanKw);
      return;
    }
    r := true;
  }
}
