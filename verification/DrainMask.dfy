/** The masking of numbers before a line is clustered: runs of digits that stand alone become a
    wildcard, digits inside words stay. */
module DrainMask {
  import opened Bytes
  import opened Matchers
  import opened Lines

  function Star(): Word {
    Text("<*>")
  }

  /** How many digits `s` begins with. */
  function DigitRun(s: Word): (n: nat)
    ensures n <= |s| && (forall j | 0 <= j < n :: IsDigit(s[j])) && (n < |s| ==> !IsDigit(s[n]))
  {
    if s != [] && IsDigit(s[0]) then 1 + DigitRun(s[1..]) else 0
  }

  predicate StartsWord(s: Word) {
    s != [] && IsWordByte(s[0])
  }

  /** The masked form of `s`, when `left` says whether a word byte stands before it. */
  function Mask(left: bool, s: Word): Word
    decreases |s|
  {
    if s == [] then []
    else if IsDigit(s[0]) then
      var n := DigitRun(s);
      (if !left && !StartsWord(s[n..]) then Star() else s[..n]) + Mask(true, s[n..])
    else [s[0]] + Mask(IsWordByte(s[0]), s[1..])
  }

  predicate WordBefore(s: Word, i: nat)
    requires i <= |s|
  {
    i > 0 && IsWordByte(s[i - 1])
  }

  lemma {:induction false} NoDigitsNoChange(left: bool, s: Word)
    requires forall j | 0 <= j < |s| :: !IsDigit(s[j])
    ensures Mask(left, s) == s
    decreases |s|
  {
    if s != [] {
      NoDigitsNoChange(IsWordByte(s[0]), s[1..]);
      assert s == [s[0]] + s[1..];
    }
  }

  lemma {:induction false} DigitRunAt(s: Word, n: nat)
    requires n <= |s| && (forall j | 0 <= j < n :: IsDigit(s[j])) && (n < |s| ==> !IsDigit(s[n]))
    ensures DigitRun(s) == n
  {
    var m := DigitRun(s);
    assert !(m < n) && !(n < m);
  }

  /** What masking makes of the bytes from `i` on. */
  function MaskFrom(s: Word, i: nat): Word
    requires i <= |s|
  {
    Mask(WordBefore(s, i), s[i..])
  }

  /** Replaces every run of digits beside which no letter and no underscore stands. */
  method FastReplaceDigits(s: Word) returns (r: Word)
    ensures r == Mask(false, s)
    ensures forall a: Word, d: Word, b: Word | IsRun(s, a, d, b) ::
              r == Mask(false, a) + (if Apart(a, b) then [60, 42, 62] else d) + Mask(false, b)
  {
    forall a: Word, d: Word, b: Word | IsRun(s, a, d, b)
      ensures Mask(false, s) == Mask(false, a) + (if Apart(a, b) then [60, 42, 62] else d) + Mask(false, b)
    {
      RunOfDigits(s, a, d, b);
    }
    var n := |s|;
    if n == 0 {
      return s;
    }
    var hasDigit := false;
    for i := 0 to n
      invariant !hasDigit && forall j | 0 <= j < i :: !IsDigit(s[j])
    {
      if IsDigit(s[i]) {
        hasDigit := true;
        break;
      }
    }
    if !hasDigit {
      NoDigitsNoChange(false, s);
      return s;
    }
    r := ReplaceRuns(s);
  }

  /** `d` is a whole run of digits of the text, `a` and `b` are what stands around it. */
  ghost predicate IsRun(s: Word, a: Word, d: Word, b: Word) {
    && s == a + (d + b) && d != [] && (forall j | 0 <= j < |d| :: OneOf(d[j], DIGITS))
    && (a == [] || !OneOf(a[|a| - 1], DIGITS)) && (b == [] || !OneOf(b[0], DIGITS))
  }

  /** No letter, digit or underscore ends `a` or begins `b`. */
  ghost predicate Apart(a: Word, b: Word) {
    && (a == [] || !OneOf(a[|a| - 1], WORD_BYTES))
    && (b == [] || !OneOf(b[0], WORD_BYTES))
  }

  lemma ApartIs(a: Word, b: Word)
    ensures Apart(a, b) <==> !EndsInWord(a) && !StartsWord(b)
  {
    if a != [] {
      WordBytes(a[|a| - 1]);
    }
    if b != [] {
      WordBytes(b[0]);
    }
  }

  lemma RunIs(s: Word, a: Word, d: Word, b: Word)
    requires IsRun(s, a, d, b)
    ensures forall j | 0 <= j < |d| :: IsDigit(d[j])
    ensures (a == [] || !IsDigit(a[|a| - 1])) && (b == [] || !IsDigit(b[0]))
  {
    forall x: byte ensures IsDigit(x) <==> OneOf(x, DIGITS) {
      DigitBytes(x);
    }
  }

  lemma StarIs()
    ensures Star() == [60, 42, 62]
  {}

  lemma RunOfDigits(s: Word, a: Word, d: Word, b: Word)
    requires IsRun(s, a, d, b)
    ensures Mask(false, s) == Mask(false, a) + (if Apart(a, b) then [60, 42, 62] else d) + Mask(false, b)
  {
    RunIs(s, a, d, b);
    ApartIs(a, b);
    RunDecides(a, d, b);
    StarIs();
    ConcatAssociates(Mask(false, a), if Apart(a, b) then [60, 42, 62] else d, Mask(false, b));
  }

  method ReplaceRuns(s: Word) returns (r: Word)
    ensures r == Mask(false, s)
  {
    r := [];
    var i := 0;
    assert s[0..] == s;
    while i < |s|
      invariant 0 <= i <= |s| && r + MaskFrom(s, i) == Mask(false, s)
    {
      var piece, next := MaskPiece(s, i);
      ConcatAssociates(r, piece, MaskFrom(s, next));
      r, i := r + piece, next;
    }
  }

  /** Masks one byte, or one run of digits. */
  method MaskPiece(s: Word, start: nat) returns (piece: Word, i: nat)
    requires start < |s|
    ensures start < i <= |s| && MaskFrom(s, start) == piece + MaskFrom(s, i)
  {
    var b := s[start];
    if IsDigit(b) {
      i := SkipDigits(s, start);
      MaskRun(s, start, i);
      if !WordBefore(s, start) && (i == |s| || !IsWordByte(s[i])) {
        piece := Star();
      } else {
        piece := s[start..i];
      }
    } else {
      MaskByte(s, start);
      piece, i := [b], start + 1;
    }
  }

  method SkipDigits(s: Word, start: nat) returns (i: nat)
    requires start < |s| && IsDigit(s[start])
    ensures start < i <= |s| && (forall j | start <= j < i :: IsDigit(s[j])) && (i < |s| ==> !IsDigit(s[i]))
  {
    i := start;
    while i < |s| && IsDigit(s[i])
      invariant start <= i <= |s| && forall j | start <= j < i :: IsDigit(s[j])
    {
      i := i + 1;
    }
  }

  lemma {:induction false} MaskDigits(left: bool, d: Word, rest: Word)
    requires d != [] && (forall j | 0 <= j < |d| :: IsDigit(d[j])) && (rest == [] || !IsDigit(rest[0]))
    ensures Mask(left, d + rest) == (if !left && !StartsWord(rest) then Star() else d) + Mask(true, rest)
  {
    var s := d + rest;
    DigitRunAt(s, |d|);
    assert s[|d|..] == rest && s[..|d|] == d;
  }

  lemma {:induction false} MaskOther(left: bool, c: byte, rest: Word)
    requires !IsDigit(c)
    ensures Mask(left, [c] + rest) == [c] + Mask(IsWordByte(c), rest)
  {
    assert ([c] + rest)[1..] == rest;
  }

  lemma {:induction false} MaskRun(s: Word, start: nat, i: nat)
    requires start < i <= |s| && (forall j | start <= j < i :: IsDigit(s[j])) && (i < |s| ==> !IsDigit(s[i]))
    ensures MaskFrom(s, start)
      == (if !WordBefore(s, start) && (i == |s| || !IsWordByte(s[i])) then Star() else s[start..i]) + MaskFrom(s, i)
  {
    assert s[start..] == s[start..i] + s[i..];
    assert IsDigit(s[i - 1]);
    MaskDigits(WordBefore(s, start), s[start..i], s[i..]);
  }

  lemma {:induction false} MaskByte(s: Word, i: nat)
    requires i < |s| && !IsDigit(s[i])
    ensures MaskFrom(s, i) == [s[i]] + MaskFrom(s, i + 1)
  {
    assert s[i..] == [s[i]] + s[i + 1..];
    MaskOther(WordBefore(s, i), s[i], s[i + 1..]);
  }

  // ---- what masking does

  lemma {:induction false} LeftOnlyMattersForDigits(left: bool, s: Word)
    requires s == [] || !IsDigit(s[0])
    ensures Mask(left, s) == Mask(false, s)
    ensures Mask(left, s) == [] || !IsDigit(Mask(left, s)[0])
    ensures StartsWord(Mask(left, s)) <==> StartsWord(s)
  {}

  /** Masking twice is masking once: what is left of the digits does not stand alone. */
  lemma {:induction false} MaskTwice(left: bool, s: Word)
    ensures Mask(left, Mask(left, s)) == Mask(left, s)
    decreases |s|
  {
    if s == [] {
    } else if IsDigit(s[0]) {
      var n := DigitRun(s);
      var rest := Mask(true, s[n..]);
      MaskTwice(true, s[n..]);
      LeftOnlyMattersForDigits(true, s[n..]);
      LeftOnlyMattersForDigits(true, rest);
      if !left && !StartsWord(s[n..]) {
        MaskStar(left, rest);
      } else {
        MaskDigits(left, s[..n], rest);
      }
    } else {
      MaskTwice(IsWordByte(s[0]), s[1..]);
      MaskOther(left, s[0], Mask(IsWordByte(s[0]), s[1..]));
    }
  }

  lemma {:induction false} MaskStar(left: bool, rest: Word)
    ensures Mask(left, Star() + rest) == Star() + Mask(false, rest)
  {
    StarBytes(rest);
    StarBytes(Mask(false, rest));
    MaskOther(left, 60, [42] + ([62] + rest));
    MaskOther(false, 42, [62] + rest);
    MaskOther(false, 62, rest);
  }

  lemma StarBytes(rest: Word)
    ensures Star() + rest == [60] + ([42] + ([62] + rest))
  {}

  predicate EndsInWord(s: Word) {
    s != [] && IsWordByte(s[|s| - 1])
  }

  /** Between two bytes that are not both digits the text can be masked in two parts; the second
      needs to know only whether a word byte stands before it. */
  lemma {:induction false} MaskSplits(left: bool, a: Word, x: Word)
    requires a != [] && !IsDigit(a[|a| - 1])
    ensures Mask(left, a + x) == Mask(left, a) + Mask(EndsInWord(a), x)
    decreases |a|
  {
    if IsDigit(a[0]) {
      var n := DigitRun(a);
      var rest := a[n..];
      assert n < |a| && rest[|rest| - 1] == a[|a| - 1];
      MaskSplits(true, rest, x);
      assert a + x == a[..n] + (rest + x);
      MaskDigits(left, a[..n], rest + x);
      ConcatAssociates(if !left && !StartsWord(rest) then Star() else a[..n], Mask(true, rest), Mask(EndsInWord(a), x));
    } else if |a| == 1 {
      assert a == [a[0]];
      MaskOther(left, a[0], x);
    } else {
      assert a + x == [a[0]] + (a[1..] + x);
      MaskSplits(IsWordByte(a[0]), a[1..], x);
      MaskOther(left, a[0], a[1..] + x);
      ConcatAssociates([a[0]], Mask(IsWordByte(a[0]), a[1..]), Mask(EndsInWord(a), x));
    }
  }

  /** A run of digits becomes a wildcard exactly when neither neighbour is a word byte; else it
      stays. What stands around it is masked as if the run were not there. */
  lemma {:induction false} RunDecides(a: Word, d: Word, b: Word)
    requires a == [] || !IsDigit(a[|a| - 1])
    requires b == [] || !IsDigit(b[0])
    requires d != [] && (forall j | 0 <= j < |d| :: IsDigit(d[j]))
    ensures Mask(false, a + (d + b))
         == Mask(false, a) + ((if !EndsInWord(a) && !StartsWord(b) then Star() else d) + Mask(false, b))
  {
    if a == [] {
      assert a + (d + b) == d + b;
    } else {
      MaskSplits(false, a, d + b);
    }
    MaskDigits(EndsInWord(a), d, b);
    LeftOnlyMattersForDigits(true, b);
  }

  /** Lines that differ only in a number that stands alone are masked alike. */
  lemma {:induction false} NumbersDoNotMatter(a: Word, d: Word, d': Word, b: Word)
    requires !EndsInWord(a) && !StartsWord(b)
    requires d != [] && (forall j | 0 <= j < |d| :: IsDigit(d[j]))
    requires d' != [] && (forall j | 0 <= j < |d'| :: IsDigit(d'[j]))
    ensures Mask(false, a + (d + b)) == Mask(false, a + (d' + b))
  {
    RunDecides(a, d, b);
    RunDecides(a, d', b);
  }
}
