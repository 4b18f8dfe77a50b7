/** Bytes and byte strings, as the scanning code sees them. */
module Bytes {
  newtype byte = b: int | 0 <= b < 256

  type Word = seq<byte>

  const NL: byte := 10
  const CR: byte := 13

  /** `u` occurs in `s` at position `i`. */
  predicate OccursAt(s: Word, i: int, u: Word) {
    0 <= i <= |s| - |u| && s[i..i + |u|] == u
  }

  /** `u` is a contiguous substring of `s`. */
  predicate Contains(s: Word, u: Word) {
    exists i :: 0 <= i <= |s| && OccursAt(s, i, u)
  }

  /** That is, something may stand before it and after it. */
  lemma ContainsIs(s: Word, u: Word)
    ensures Contains(s, u) <==> exists before: Word, after: Word :: s == before + u + after
  {
    if i :| 0 <= i <= |s| && OccursAt(s, i, u) {
      assert s == s[..i] + u + s[i + |u|..];
    }
    if before: Word, after: Word :| s == before + u + after {
      assert OccursAt(s, |before|, u);
    }
  }

  predicate IsDigit(b: byte) {
    '0' as int <= b as int <= '9' as int
  }

  function LowerByte(b: byte): byte {
    if 'A' as int <= b as int <= 'Z' as int then b + 32 else b
  }

  function Lower(s: Word): (r: Word)
    ensures |r| == |s|
  {
    seq(|s|, i requires 0 <= i < |s| => LowerByte(s[i]))
  }

  // ---- the bytes by name

  const CAPITALS: string := "ABCDEFGHIJKLMNOPQRSTUVWXYZ"
  const SMALLS: string := "abcdefghijklmnopqrstuvwxyz"
  const DIGITS: string := "0123456789"

  predicate OneOf(b: byte, s: string) {
    b as int as char in s
  }

  lemma CapitalBytes(b: byte)
    ensures OneOf(b, CAPITALS) <==> 65 <= b <= 90
  {}

  lemma SmallBytes(b: byte)
    ensures OneOf(b, SMALLS) <==> 97 <= b <= 122
  {}

  /** The digits are the ten named ones. */
  lemma DigitBytes(b: byte)
    ensures IsDigit(b) <==> OneOf(b, DIGITS)
  {}

  /** Lowering turns each capital into the small letter of the same place in the alphabet, and
      leaves all else, bytes beyond ASCII included. */
  lemma LowerPairs(b: byte, k: nat)
    ensures k < 26 && b as int as char == CAPITALS[k] ==> LowerByte(b) as int as char == SMALLS[k]
    ensures !OneOf(b, CAPITALS) ==> LowerByte(b) == b
  {
    CapitalBytes(b);
  }

  lemma TakeOneMore<T>(s: seq<T>, k: nat)
    requires k < |s|
    ensures s[..k] + [s[k]] == s[..k + 1]
  {}

  lemma TakeAll<T>(s: seq<T>)
    ensures s[..|s|] == s
  {}

  lemma PrefixIsTake<T>(p: seq<T>, all: seq<T>, n: nat)
    requires p <= all && n <= |p|
    ensures p[..n] == all[..n] && all[..|p|] == p
  {}

  lemma ConcatPrefix<T>(a: seq<T>, p: seq<T>, all: seq<T>)
    requires p <= all
    ensures a + p <= a + all
  {}

  lemma SliceOfSlice<T>(s: seq<T>, lo: nat, hi: nat, a: nat, b: nat)
    requires a <= b && lo + b <= hi <= |s|
    ensures s[lo..hi][a..b] == s[lo + a..lo + b]
  {
    forall k | 0 <= k < b - a ensures s[lo..hi][a..b][k] == s[lo + a..lo + b][k] {
      assert s[lo..hi][a + k] == s[lo + a + k];
    }
  }
}
