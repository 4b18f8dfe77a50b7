/** The ring of recent lines that supplies the context before a hit. */
module ByteRing {
  import opened Bytes

  /** The last `c` elements of a sequence, or all of them when there are fewer. */
  function LastN<T>(s: seq<T>, c: nat): seq<T> {
    if |s| <= c then s else s[|s| - c..]
  }

  lemma LastNPush<T>(s: seq<T>, x: T, c: nat)
    requires c > 0
    ensures LastN(s + [x], c) == (if |LastN(s, c)| < c then LastN(s, c) else LastN(s, c)[1..]) + [x]
  {}

  /** The slot of the `i`-th oldest entry in a ring of `n` slots that starts at `head`. */
  function At(n: nat, head: nat, i: nat): (k: nat)
    requires head < n && i <= n
    ensures k < n
  {
    (head + i) % n
  }

  lemma AtWraps(n: nat, head: nat, i: nat)
    requires head < n && i <= n
    ensures At(n, head, i) == if head + i < n then head + i else head + i - n
  {}

  /** The entries of a ring, oldest first. */
  function Unroll(slots: seq<Word>, head: nat, count: nat): (s: seq<Word>)
    requires head < |slots| && count <= |slots|
    ensures |s| == count
  {
    seq(count, i requires 0 <= i < count => slots[At(|slots|, head, i)])
  }

  lemma PushIntoRoom(slots: seq<Word>, head: nat, count: nat, b: Word)
    requires head < |slots| && count < |slots|
    ensures Unroll(slots[At(|slots|, head, count) := b], head, count + 1) == Unroll(slots, head, count) + [b]
  {
    AtWraps(|slots|, head, count);
    forall i | 0 <= i < count
      ensures At(|slots|, head, i) != At(|slots|, head, count)
    {
      AtWraps(|slots|, head, i);
    }
  }

  lemma PushOverOldest(slots: seq<Word>, head: nat, b: Word)
    requires head < |slots|
    ensures Unroll(slots[head := b], (head + 1) % |slots|, |slots|) == Unroll(slots, head, |slots|)[1..] + [b]
  {
    var n, head' := |slots|, (head + 1) % |slots|;
    AtWraps(n, head, 1);
    AtWraps(n, head', n - 1);
    forall i | 0 <= i < n - 1
      ensures At(n, head', i) == At(n, head, i + 1) != head
    {
      AtWraps(n, head', i);
      AtWraps(n, head, i + 1);
    }
  }

  class Ring {
    var lines: array<Word>
    var head: nat
    var count: nat

    ghost predicate Valid()
      reads this, lines
    {
      0 < lines.Length && head < lines.Length && count <= lines.Length
    }

    /** The lines held, oldest first. */
    ghost function Contents(): (s: seq<Word>)
      requires Valid()
      reads this, lines
      ensures |s| == count
    {
      Unroll(lines[..], head, count)
    }

    constructor (maxCap: nat)
      requires maxCap > 0
      ensures Valid() && lines.Length == maxCap && Contents() == [] && fresh(lines)
    {
      lines := new Word[maxCap](_ => []);
      head, count := 0, 0;
    }

    /** Adds a line, dropping the oldest when the ring is full. */
    method Push(b: Word)
      requires Valid()
      modifies this`head, this`count, lines
      ensures Valid() && lines == old(lines)
      ensures Contents() == (if old(count) < lines.Length then old(Contents()) else old(Contents())[1..]) + [b]
    {
      ghost var slots := lines[..];
      var slot: nat;
      if count < lines.Length {
        PushIntoRoom(slots, head, count, b);
        slot := At(lines.Length, head, count);
        count := count + 1;
      } else {
        PushOverOldest(slots, head, b);
        slot := head;
        head := (head + 1) % lines.Length;
      }
      lines[slot] := b;
      assert lines[..] == slots[slot := b];
    }

    method ToStrings() returns (res: seq<Word>)
      requires Valid()
      ensures res == Contents()
    {
      res := [];
      for i := 0 to count
        invariant res == Contents()[..i]
      {
        res := res + [lines[At(lines.Length, head, i)]];
      }
    }
  }

  /** No ring is kept when no context is asked for. */
  method NewByteRing(maxCap: nat) returns (ring: Ring?)
    ensures Holds(ring, [], maxCap)
    ensures ring != null ==> fresh(ring) && fresh(ring.lines)
  {
    ring := null;
    if maxCap > 0 {
      ring := new Ring(maxCap);
    }
  }

  /** The ring holds the last `c` of the lines pushed so far. */
  ghost predicate Holds(ring: Ring?, pushed: seq<Word>, c: nat)
    reads ring, if ring == null then {} else {ring.lines}
  {
    if c == 0 then ring == null
    else ring != null && ring.Valid() && ring.lines.Length == c && ring.Contents() == LastN(pushed, c)
  }

  method Push(ring: Ring?, b: Word, ghost pushed: seq<Word>, ghost c: nat)
    requires Holds(ring, pushed, c)
    modifies if ring == null then {} else {ring, ring.lines}
    ensures Holds(ring, pushed + [b], c)
    ensures ring != null ==> ring.lines == old(ring.lines)
  {
    if ring != null {
      LastNPush(pushed, b, c);
      ring.Push(b);
    }
  }

  method Recent(ring: Ring?, ghost pushed: seq<Word>, ghost c: nat) returns (res: seq<Word>)
    requires Holds(ring, pushed, c)
    ensures res == LastN(pushed, c)
  {
    if ring == null {
      return [];
    }
    res := ring.ToStrings();
  }
}
