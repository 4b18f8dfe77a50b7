/** When the search may skip a chunk: exactly which keywords and texts the Bloom filters serve. */
module SkipScan {
  import opened Bytes
  import opened Lines
  import opened Matchers
  import opened Bloom
  import opened BloomIndex

  /** `w` is one of the lowered tokens read between `s` and `e`. */
  ghost predicate WordRead(content: Word, cuts: set<nat>, s: int, e: int, w: Word) {
    exists a: nat, b: nat :: s <= a && b <= e && TokenRead(content, cuts, a, b) && Lower(content[a..b]) == w
  }

  /** Every indexed token of the keyword, long numbers apart, was read between `s` and `e`. */
  ghost predicate TokensRead(content: Word, cuts: set<nat>, s: int, e: int, cleanKw: Word) {
    forall a, b | TokenAt(cleanKw, a, b) && !LongPureDigits(cleanKw[a..b]) ::
      WordRead(content, cuts, s, e, cleanKw[a..b])
  }

  /** The keyword is too short to be looked up, has a token of indexed length, or is too long
      to be looked up whole. */
  predicate SkipSafe(cleanKw: Word) {
    |cleanKw| < 2 || HasTokenWithin(cleanKw, |cleanKw|) || |cleanKw| > 64
  }

  ghost predicate Served(content: Word, cuts: set<nat>, s: int, e: int, cleanKw: Word) {
    |cleanKw| < 2 || (TokensRead(content, cuts, s, e, cleanKw) && SkipSafe(cleanKw))
  }

  /** The bytes that bound a whole word are those of the tokens but the hyphen. */
  lemma WordBytesAreTokenBytes(b: byte)
    ensures IsWordByte(b) <==> IsTokenByte(b) && b != 45
  {}

  // ---- served keywords are admitted, whatever the hash

  lemma {:induction false} LoweredSlice(s: Word, a: nat, b: nat)
    requires NoCapitals(s) && a <= b <= |s|
    ensures Lower(s[a..b]) == s[a..b]
  {}

  lemma {:induction false} BitIsRead(h: Hash, content: Word, cuts: set<nat>, s: int, e: int, cleanKw: Word, p: nat)
    requires NoCapitals(cleanKw) && TokensRead(content, cuts, s, e, cleanKw)
    requires p in TokenBits(h, cleanKw, |cleanKw|)
    ensures BitRead(h, content, cuts, s, e, p)
  {
    TokenBitsAre(h, cleanKw, |cleanKw|, p);
    var a, b :| TokenAt(cleanKw, a, b) && b <= |cleanKw| && TokenWithBit(h, cleanKw, a, b, p);
    LoweredSlice(cleanKw, a, b);
    assert WordRead(content, cuts, s, e, cleanKw[a..b]);
    var a': nat, b': nat :| s <= a' && b' <= e && TokenRead(content, cuts, a', b')
      && Lower(content[a'..b']) == cleanKw[a..b];
    assert TokenWithBit(h, content, a', b', p);
  }

  lemma {:induction false} ServedIsAdmitted(bits: set<nat>, h: Hash, content: Word, cuts: set<nat>, s: int, e: int,
                                            cleanKw: Word)
    requires NoCapitals(cleanKw) && FilterFor(bits, h, content, cuts, s, e) && Served(content, cuts, s, e, cleanKw)
    ensures Admits(bits, h, cleanKw)
  {
    if |cleanKw| >= 2 {
      forall p: nat | p in TokenBits(h, cleanKw, |cleanKw|) ensures p in bits {
        BitIsRead(h, content, cuts, s, e, cleanKw, p);
      }
    }
  }

  // ---- any other keyword is missed under some hash

  /** A hash that tells one word from all others; its second value is not 0, as none is. */
  function Only(w: Word): Hash {
    x => if x == w then (1, 2) else (0, 2)
  }

  lemma {:induction false} OnlyBits(w: Word, x: Word, p: nat)
    requires w != [] && !LongPureDigits(w)
    ensures 1 in WordBits(Only(w), w)
    ensures 1 in WordBits(Only(w), x) ==> x == w
  {
    assert BitPos(Only(w), w, 0) == 1;
    if x != w {
      forall i | 0 <= i < 4 ensures BitPos(Only(w), x, i) == 2 * i {}
    }
  }

  lemma {:induction false} UnreadWordHasNoBit(bits: set<nat>, content: Word, cuts: set<nat>, s: int, e: int, w: Word)
    requires w != [] && !LongPureDigits(w) && !WordRead(content, cuts, s, e, w)
    requires FilterFor(bits, Only(w), content, cuts, s, e)
    ensures 1 !in bits
  {
    if BitRead(Only(w), content, cuts, s, e, 1) {
      var a: nat, b: nat :| s <= a && b <= e && TokenRead(content, cuts, a, b)
        && TokenWithBit(Only(w), content, a, b, 1);
      OnlyBits(w, Lower(content[a..b]), 1);
    }
  }

  /** The word whose bits the filter lacks: an unread token, or the keyword itself. */
  lemma {:induction false} MissingWord(content: Word, cuts: set<nat>, s: int, e: int, cleanKw: Word) returns (w: Word)
    requires NoCapitals(cleanKw) && !Served(content, cuts, s, e, cleanKw)
    ensures w != [] && !LongPureDigits(w) && !WordRead(content, cuts, s, e, w)
    ensures forall h: Hash, bits: set<nat> | Admits(bits, h, cleanKw) :: WordBits(h, w) <= bits
  {
    if !TokensRead(content, cuts, s, e, cleanKw) {
      var a, b :| TokenAt(cleanKw, a, b) && !LongPureDigits(cleanKw[a..b])
        && !WordRead(content, cuts, s, e, cleanKw[a..b]);
      w := cleanKw[a..b];
      LoweredSlice(cleanKw, a, b);
      forall h: Hash, bits: set<nat> | Admits(bits, h, cleanKw) ensures WordBits(h, w) <= bits {
        forall p | p in WordBits(h, w) ensures p in bits {
          assert TokenWithBit(h, cleanKw, a, b, p);
          TokenBitsAre(h, cleanKw, |cleanKw|, p);
        }
      }
    } else {
      w := cleanKw;
      NotATokenItself(content, cuts, s, e, cleanKw);
    }
  }

  lemma {:induction false} NotATokenItself(content: Word, cuts: set<nat>, s: int, e: int, cleanKw: Word)
    requires NoCapitals(cleanKw) && !SkipSafe(cleanKw)
    ensures !LongPureDigits(cleanKw) && !WordRead(content, cuts, s, e, cleanKw)
  {
    if forall j | 0 <= j < |cleanKw| :: IsTokenByte(cleanKw[j]) {
      assert TokenAt(cleanKw, 0, |cleanKw|);
    }
    var j :| 0 <= j < |cleanKw| && !IsTokenByte(cleanKw[j]);
    assert !IsDigit(cleanKw[j]);
    forall a: nat, b: nat | TokenRead(content, cuts, a, b) && b - a == |cleanKw|
      ensures Lower(content[a..b]) != cleanKw
    {
      assert IsTokenByte(content[a + j]) && Lower(content[a..b])[j] == LowerByte(content[a + j]);
    }
  }

  /** The bits of the chunk between `s` and `e`. */
  ghost function FilterBits(h: Hash, content: Word, cuts: set<nat>, s: int, e: int): set<nat> {
    set p: nat | p < FILTER_BITS && BitRead(h, content, cuts, s, e, p)
  }

  lemma {:induction false} FilterBitsAre(h: Hash, content: Word, cuts: set<nat>, s: int, e: int)
    ensures FilterFor(FilterBits(h, content, cuts, s, e), h, content, cuts, s, e)
  {
    forall p: nat | BitRead(h, content, cuts, s, e, p) ensures p < FILTER_BITS {
      var a: nat, b: nat :| s <= a && b <= e && TokenRead(content, cuts, a, b) && TokenWithBit(h, content, a, b, p);
    }
  }

  ghost predicate AdmittedByAll(content: Word, cuts: set<nat>, s: int, e: int, cleanKw: Word) {
    forall h: Hash, bits: set<nat> | FilterFor(bits, h, content, cuts, s, e) :: Admits(bits, h, cleanKw)
  }

  /** The filter of a chunk admits a keyword under every hash exactly when the chunk serves it. */
  lemma {:induction false} ServedExactly(content: Word, cuts: set<nat>, s: int, e: int, cleanKw: Word)
    requires NoCapitals(cleanKw)
    ensures AdmittedByAll(content, cuts, s, e, cleanKw) <==> Served(content, cuts, s, e, cleanKw)
  {
    if Served(content, cuts, s, e, cleanKw) {
      forall h: Hash, bits: set<nat> | FilterFor(bits, h, content, cuts, s, e) ensures Admits(bits, h, cleanKw) {
        ServedIsAdmitted(bits, h, content, cuts, s, e, cleanKw);
      }
    } else {
      var w := MissingWord(content, cuts, s, e, cleanKw);
      var bits := FilterBits(Only(w), content, cuts, s, e);
      FilterBitsAre(Only(w), content, cuts, s, e);
      UnreadWordHasNoBit(bits, content, cuts, s, e, w);
      OnlyBits(w, w, 1);
    }
  }

  // ---- occurrences that are served

  /** The keyword occurs at `i`, up to case, within one read, and neither neighbour of the
      occurrence is a token byte. Line ends are no token bytes. */
  ghost predicate CoveredAt(content: Word, cuts: set<nat>, i: int, kw: Word) {
    && FoldOccursAt(content, i, kw) && NoCutInside(cuts, i, i + |kw|)
    && (i == 0 || !IsTokenByte(content[i - 1]))
    && (i + |kw| == |content| || !IsTokenByte(content[i + |kw|]))
  }

  lemma {:induction false} FoldKeepsKind(a: byte, b: byte)
    requires FoldEqual(a, b)
    ensures IsTokenByte(a) <==> IsTokenByte(b)
    ensures IsTokenByte(a) <==> IsTokenByte(LowerByte(b))
    ensures IsSpace(b) ==> !IsTokenByte(a)
  {}

  /** A token of the trimmed keyword is a token where the keyword occurs. */
  lemma {:induction false} TokenOfOccurrence(content: Word, cuts: set<nat>, i: nat, kw: Word, l: nat, r: nat, a: nat,
                                             b: nat)
    requires CoveredAt(content, cuts, i, kw) && l <= r <= |kw|
    requires forall j | 0 <= j < |kw| && !(l <= j < r) :: IsSpace(kw[j])
    requires TokenAt(Lower(kw[l..r]), a, b)
    ensures TokenRead(content, cuts, i + l + a, i + l + b)
    ensures Lower(content[i + l + a..i + l + b]) == Lower(kw[l..r])[a..b]
  {
    var clean, o := Lower(kw[l..r]), i + l;
    forall j | 0 <= j < r - l
      ensures FoldEqual(content[o + j], clean[j]) && (IsTokenByte(content[o + j]) <==> IsTokenByte(clean[j]))
    {
      assert FoldEqual(content[i + (l + j)], kw[l + j]);
      FoldKeepsKind(content[o + j], kw[l + j]);
    }
    forall j | o + a <= j < o + b ensures IsTokenByte(content[j]) {
      assert IsTokenByte(clean[j - o]) && content[o + (j - o)] == content[j];
    }
    if a > 0 {
      assert content[o + (a - 1)] == content[o + a - 1];
    } else if l > 0 {
      assert FoldEqual(content[i + (l - 1)], kw[l - 1]);
      FoldKeepsKind(content[i + (l - 1)], kw[l - 1]);
    }
    if b < r - l {
      assert content[o + b] == content[o + b];
    } else if r < |kw| {
      assert FoldEqual(content[i + r], kw[r]);
      FoldKeepsKind(content[i + r], kw[r]);
    }
  }

  /** A covered occurrence of a safe ASCII keyword is served. */
  lemma {:induction false} CoveredIsServed(content: Word, cuts: set<nat>, s: int, e: int, i: nat, kw: Word,
                                           cleanKw: Word)
    requires IsAscii(kw) && IsCleaned(kw, cleanKw) && SkipSafe(cleanKw)
    requires CoveredAt(content, cuts, i, kw) && s <= i && i + |kw| <= e
    ensures Served(content, cuts, s, e, cleanKw)
  {
    TrimIs(kw);
    var l: nat, r: nat :| TrimmedAt(kw, l, r);
    forall a, b | TokenAt(cleanKw, a, b) && !LongPureDigits(cleanKw[a..b])
      ensures WordRead(content, cuts, s, e, cleanKw[a..b])
    {
      TokenOfOccurrence(content, cuts, i, kw, l, r, a, b);
    }
  }

  /** No chunk that holds a covered occurrence of the keyword is ever skipped. */
  ghost predicate NeverMissed(kw: Word, cleanKw: Word) {
    forall content, cuts, s, e, i | CoveredAt(content, cuts, i, kw) && s <= i && i + |kw| <= e ::
      AdmittedByAll(content, cuts, s, e, cleanKw)
  }

  /** That holds of an ASCII keyword exactly when it is safe. */
  lemma {:induction false} NeverMissedExactly(kw: Word, cleanKw: Word)
    requires IsAscii(kw) && IsCleaned(kw, cleanKw)
    ensures NeverMissed(kw, cleanKw) <==> SkipSafe(cleanKw)
  {
    if SkipSafe(cleanKw) {
      forall content, cuts, s, e, i | CoveredAt(content, cuts, i, kw) && s <= i && i + |kw| <= e
        ensures AdmittedByAll(content, cuts, s, e, cleanKw)
      {
        CoveredIsServed(content, cuts, s, e, i, kw, cleanKw);
        ServedExactly(content, cuts, s, e, cleanKw);
      }
    } else {
      assert CoveredAt(kw, {}, 0, kw);
      ServedExactly(kw, {}, 0, |kw|, cleanKw);
    }
  }

  // ---- what is not served: a search by index loses each of these hits under some hash

  /** No chunk of the file serves the keyword, wherever the chunks begin and end. */
  ghost predicate Missed(content: Word, cuts: set<nat>, cleanKw: Word) {
    forall s: int, e: int :: !AdmittedByAll(content, cuts, s, e, cleanKw)
  }

  /** A one-token keyword of a length that no token read has is missed. */
  lemma {:induction false} NoTokenOfThatLength(content: Word, cuts: set<nat>, cleanKw: Word)
    requires NoCapitals(cleanKw) && TokenAt(cleanKw, 0, |cleanKw|) && !LongPureDigits(cleanKw)
    requires forall a: nat, b: nat | TokenRead(content, cuts, a, b) :: b - a != |cleanKw|
    ensures Missed(content, cuts, cleanKw)
  {
    forall s: int, e: int ensures !AdmittedByAll(content, cuts, s, e, cleanKw) {
      ServedExactly(content, cuts, s, e, cleanKw);
      assert cleanKw[0..|cleanKw|] == cleanKw;
    }
  }

  lemma {:induction false} PlainWord(kw: Word)
    requires NoCapitals(kw) && IsAscii(kw) && forall j | 0 <= j < |kw| :: IsTokenByte(kw[j])
    ensures IsCleaned(kw, kw) && (2 <= |kw| <= 64 ==> TokenAt(kw, 0, |kw|) && SkipSafe(kw))
  {
    assert Lower(kw) == kw;
    assert Trim(kw) == kw;
    assert 2 <= |kw| <= 64 ==> TokenAt(kw, 0, |kw|);
  }

  predicate AllTokenBytes(line: Word) {
    forall j | 0 <= j < |line| :: IsTokenByte(line[j])
  }

  lemma {:induction false} BytesOfCopies(line: Word, n: nat, i: nat)
    requires AllTokenBytes(line) && i < |Copies(line + [NL], n)|
    ensures IsTokenByte(Copies(line + [NL], n)[i]) <==> Copies(line + [NL], n)[i] != NL
    decreases n
  {
    var front := Copies(line + [NL], n - 1);
    if i < |front| {
      BytesOfCopies(line, n - 1, i);
    } else {
      assert Copies(line + [NL], n)[i] == (line + [NL])[i - |front|];
    }
  }

  /** At a line start of a file of equal lines stands that line. */
  lemma {:induction false} LineOfCopies(line: Word, n: nat, o: nat)
    requires AllTokenBytes(line) && LineStart(Copies(line + [NL], n), o) && o < |Copies(line + [NL], n)|
    ensures o + |line| < |Copies(line + [NL], n)| && Copies(line + [NL], n)[o + |line|] == NL
    ensures forall k | o <= k < o + |line| :: Copies(line + [NL], n)[k] != NL
    decreases n
  {
    var front, text := Copies(line + [NL], n - 1), line + [NL];
    var all := Copies(text, n);
    assert forall i | |front| <= i < |all| :: all[i] == text[i - |front|];
    if o < |front| {
      assert LineStart(front, o);
      LineOfCopies(line, n - 1, o);
    } else {
      assert o == |front|;
    }
  }

  /** In a file of equal lines of token bytes, read in pieces that end at line ends, every
      token is a whole line. */
  lemma {:induction false} TokensOfCopies(line: Word, n: nat, cuts: set<nat>, a: nat, b: nat)
    requires AllTokenBytes(line)
    requires forall c | c in cuts && c < |Copies(line + [NL], n)| :: LineStart(Copies(line + [NL], n), c)
    requires TokenRead(Copies(line + [NL], n), cuts, a, b)
    ensures b - a == |line|
  {
    var content := Copies(line + [NL], n);
    LastOfCopies(line, n);
    if a > 0 {
      BytesOfCopies(line, n, a - 1);
    }
    if b < |content| {
      BytesOfCopies(line, n, b);
    }
    assert IsTokenByte(content[b - 1]) && content[b - 1] != NL;
    LineOfCopies(line, n, a);
    assert forall j | a <= j < b :: content[j] != NL;
  }

  /** In such a file, however long, a shorter keyword is missed in every line. */
  lemma {:induction false} InsideLongerToken(line: Word, kw: Word, n: nat, cuts: set<nat>)
    requires AllTokenBytes(line) && NoCapitals(kw) && IsAscii(kw) && AllTokenBytes(kw)
    requires 2 <= |kw| <= 64 && !LongPureDigits(kw) && |kw| < |line|
    requires forall c | c in cuts && c < |Copies(line + [NL], n)| :: LineStart(Copies(line + [NL], n), c)
    ensures IsCleaned(kw, kw) && SkipSafe(kw) && Missed(Copies(line + [NL], n), cuts, kw)
  {
    PlainWord(kw);
    forall a: nat, b: nat | TokenRead(Copies(line + [NL], n), cuts, a, b) ensures b - a != |kw| {
      TokensOfCopies(line, n, cuts, a, b);
    }
    NoTokenOfThatLength(Copies(line + [NL], n), cuts, kw);
  }

  /** Lines of four bytes, the newline included, start at the multiples of four. */
  lemma {:induction false} FourthIsStart(line: Word, n: nat, c: nat)
    requires |line| == 3 && c % 4 == 0 && c <= 4 * n
    ensures c <= |Copies(line + [NL], n)| && LineStart(Copies(line + [NL], n), c)
    decreases n
  {
    if c > 0 {
      var front, text := Copies(line + [NL], n - 1), line + [NL];
      if c <= 4 * (n - 1) {
        FourthIsStart(line, n - 1, c);
        assert Copies(text, n)[c - 1] == front[c - 1];
      } else {
        assert Copies(text, n)[c - 1] == text[c - 1 - |front|] == text[3];
      }
    }
  }

  lemma {:induction false} FourByteLines(line: Word, kw: Word, n: nat, cuts: set<nat>)
    requires |line| == 3 && AllTokenBytes(line) && forall c | c in cuts :: c % 4 == 0
    requires |kw| == 2 && NoCapitals(kw) && IsAscii(kw) && AllTokenBytes(kw)
    ensures Missed(Copies(line + [NL], n), cuts, kw)
  {
    forall c | c in cuts && c < 4 * n ensures LineStart(Copies(line + [NL], n), c) {
      FourthIsStart(line, n, c);
    }
    InsideLongerToken(line, kw, n, cuts);
  }

  lemma InsideHit(line: Word, kw: Word)
    requires line == [120, 97, 98] && kw == [97, 98]
    ensures FoldContains(line, kw)
  {
    assert FoldOccursAt(line, 1, kw);
  }

  lemma HyphenHit(line: Word, kw: Word)
    requires line == [97, 98, 45] && kw == [97, 98]
    ensures ContainsWord(line, kw, true)
  {
    assert line[0..2] == kw;
    assert WordAt(line, 0, kw, true);
  }

  /** The keyword is `ab`, the lines are `xab` and `ab-`. */
  lemma TheTexts()
    ensures Text("ab") == [97, 98] && Text("xab") == [120, 97, 98] && Text("ab-") == [97, 98, 45]
  {}

  /** Hits inside a longer token; and whole-word hits beside a hyphen, which is a token byte
      but not a word byte. The file has `n` such lines, and the reads end at multiples of four
      bytes, as reads of 1 MiB do. */
  lemma {:induction false} HitsInsideTokens(n: nat, cuts: set<nat>)
    requires forall c | c in cuts :: c % 4 == 0
    ensures FoldContains(Text("xab"), Text("ab")) && Missed(Copies(Text("xab") + [NL], n), cuts, Text("ab"))
    ensures ContainsWord(Text("ab-"), Text("ab"), true) && Missed(Copies(Text("ab-") + [NL], n), cuts, Text("ab"))
  {
    TheTexts();
    var kw, inside, hyphen := Text("ab"), Text("xab"), Text("ab-");
    InsideHit(inside, kw);
    HyphenHit(hyphen, kw);
    FourByteLines(inside, kw, n, cuts);
    FourByteLines(hyphen, kw, n, cuts);
  }

  lemma {:induction false} NewlinesOnly(n: nat)
    ensures forall j | 0 <= j < n :: Copies([NL], n)[j] == NL
  {
    if n != 0 {
      NewlinesOnly(n - 1);
    }
  }

  /** A line of two letters of which the first ends a read: after `p` empty lines and before
      `m` others. With `p` one less than a multiple of 1 MiB the reads of the index end there. */
  lemma {:induction false} AcrossTwoReads(p: nat, m: nat, cuts: set<nat>)
    requires p + 1 in cuts
    ensures var kw := Text("ab");
            var content := Copies([NL], p) + kw + Copies([NL], m);
            && CoveredAt(content, {}, p, kw) && IsCleaned(kw, kw) && SkipSafe(kw)
            && Missed(content, cuts, kw)
  {
    var kw := Text("ab");
    var content := Copies([NL], p) + kw + Copies([NL], m);
    PlainWord(kw);
    OnlyWordAt(p, kw, m);
    forall a: nat, b: nat | TokenRead(content, cuts, a, b) ensures b - a != 2 {
      if b - a == 2 {
        TwoTokenBytes(content, p, a);
      }
    }
    NoTokenOfThatLength(content, cuts, kw);
  }

  /** Between empty lines there is nothing but the word. */
  lemma OnlyWordAt(p: nat, kw: Word, m: nat)
    requires |kw| == 2
    ensures var content := Copies([NL], p) + kw + Copies([NL], m);
            && |content| == p + 2 + m && content[p..p + 2] == kw
            && forall j | 0 <= j < |content| && j != p && j != p + 1 :: content[j] == NL
  {
    NewlinesOnly(p);
    NewlinesOnly(m);
  }

  lemma TwoTokenBytes(content: Word, p: nat, a: nat)
    requires forall j | 0 <= j < |content| && j != p && j != p + 1 :: content[j] == NL
    requires a + 2 <= |content| && IsTokenByte(content[a]) && IsTokenByte(content[a + 1])
    ensures a == p
  {}

  /** A keyword without a token of indexed length is missed in every file. */
  lemma {:induction false} WithoutToken(content: Word, cuts: set<nat>)
    ensures var kw := Text("a.b");
            IsCleaned(kw, kw) && !SkipSafe(kw) && CoveredAt(kw + [NL], {}, 0, kw) && Missed(content, cuts, kw)
  {
    var kw := Text("a.b");
    assert Lower(kw) == kw && Trim(kw) == kw;
    assert IsTokenByte(kw[0]) && !IsTokenByte(kw[1]);
    forall s: int, e: int ensures !AdmittedByAll(content, cuts, s, e, kw) {
      ServedExactly(content, cuts, s, e, kw);
    }
  }

  /** The letter x and the Kelvin sign, which is three bytes in UTF-8. */
  const X_KELVIN: Word := [120, 0xE2, 0x84, 0xAA]

  lemma {:induction false} LonelyTokenBytes(n: nat, i: nat)
    requires i + 1 < |Copies(X_KELVIN + [NL], n)|
    ensures !IsTokenByte(Copies(X_KELVIN + [NL], n)[i]) || !IsTokenByte(Copies(X_KELVIN + [NL], n)[i + 1])
    decreases n
  {
    var front, text := Copies(X_KELVIN + [NL], n - 1), X_KELVIN + [NL];
    assert forall j | 1 <= j < 5 :: !IsTokenByte(text[j]);
    if i + 1 < |front| {
      LonelyTokenBytes(n - 1, i);
    } else if i + 1 == |front| {
      LastOfCopies(X_KELVIN, n - 1);
    } else {
      assert Copies(text, n)[i + 1] == text[i + 1 - |front|];
    }
  }

  /** A keyword that lower-casing turns into ASCII letters which its text does not hold: the
      Kelvin sign becomes the letter k. It is missed in every line of a file of such lines. */
  lemma {:induction false} BeyondAscii(n: nat, cuts: set<nat>)
    ensures IsCleaned(X_KELVIN, Text("xk")) && SkipSafe(Text("xk")) && CoveredAt(X_KELVIN + [NL], {}, 0, X_KELVIN)
    ensures Missed(Copies(X_KELVIN + [NL], n), cuts, Text("xk"))
  {
    var content, cleanKw := Copies(X_KELVIN + [NL], n), Text("xk");
    forall a: nat, b: nat | TokenRead(content, cuts, a, b) ensures b - a != 2 {
      LonelyTokenBytes(n, a);
    }
    assert TokenAt(cleanKw, 0, 2);
    NoTokenOfThatLength(content, cuts, cleanKw);
  }
}
