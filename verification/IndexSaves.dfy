/** How index files come to disk: each save writes, piece by piece, a temporary file whose name all
    saves of the index share, and then renames it over the index file. */
module IndexSaves {
  import opened Bytes
  import opened Wrappers

  /** The buffer of a save reaches the file in pieces of this many bytes. */
  const FLUSH_SIZE: nat := 65536

  /** A save under way: the file it has open, what it is to write and how much of it is written. */
  datatype Writer = Writer(inode: nat, file: Word, written: nat)

  /** The files of one index: their contents, which of them has the name of the index, which has
      the temporary name, and the saves that have one open. */
  datatype Files = Files(inodes: seq<Word>, served: Option<nat>, tmp: Option<nat>, writers: map<nat, Writer>)

  /** What happens to them: a save opens the temporary file, writes up to `n` more bytes, renames
      the file once all is written, gives up on an error, or just stops. */
  datatype Event = Open(id: nat, file: Word) | Write(id: nat, n: nat) | Rename(id: nat) | Fail(id: nat) | Quit(id: nat)

  const NO_FILES := Files([], None, None, map[])

  predicate Linked(s: Files) {
    && (s.served.Some? ==> s.served.value < |s.inodes|)
    && (s.tmp.Some? ==> s.tmp.value < |s.inodes|)
    && forall id | id in s.writers :: s.writers[id].inode < |s.inodes| && s.writers[id].written <= |s.writers[id].file|
  }

  /** What a reader of the index file finds. */
  function Served(s: Files): Option<Word>
    requires Linked(s)
  {
    if s.served.Some? then Some(s.inodes[s.served.value]) else None
  }

  /** Writing past the end of a file fills the gap with zeros. */
  function WriteAt(content: Word, at: nat, data: Word): Word {
    if data == [] then content
    else if at > |content| then content + seq(at - |content|, _ => 0) + data
    else if at + |data| >= |content| then content[..at] + data
    else content[..at] + data + content[at + |data|..]
  }

  function Least(a: nat, b: nat): nat {
    if a < b then a else b
  }

  /** Opening truncates the file that has the temporary name, whoever else is writing it. */
  function Opened(s: Files, id: nat, file: Word): Files
    requires Linked(s)
  {
    if s.tmp.Some? then
      s.(inodes := s.inodes[s.tmp.value := []], writers := s.writers[id := Writer(s.tmp.value, file, 0)])
    else
      Files(s.inodes + [[]], s.served, Some(|s.inodes|), s.writers[id := Writer(|s.inodes|, file, 0)])
  }

  function Wrote(s: Files, id: nat, n: nat): Files
    requires Linked(s) && id in s.writers
  {
    var w := s.writers[id];
    var to := w.written + Least(n, |w.file| - w.written);
    s.(inodes := s.inodes[w.inode := WriteAt(s.inodes[w.inode], w.written, w.file[w.written..to])],
       writers := s.writers[id := w.(written := to)])
  }

  /** Renames whatever file has the temporary name by now; there may be none. */
  predicate Renames(s: Files, id: nat) {
    id in s.writers && s.writers[id].written == |s.writers[id].file| && s.tmp.Some?
  }

  function Without(s: Files, id: nat): Files {
    s.(writers := s.writers - {id})
  }

  function Step(s: Files, e: Event): (t: Files)
    requires Linked(s)
    ensures Linked(t)
  {
    match e
    case Open(id, file) => if id in s.writers then s else Opened(s, id, file)
    case Write(id, n) => if id in s.writers then Wrote(s, id, n) else s
    case Rename(id) =>
      if Renames(s, id) then Without(s, id).(served := s.tmp, tmp := None)
      else if id in s.writers && s.writers[id].written == |s.writers[id].file| then Without(s, id)
      else s
    case Fail(id) => if id in s.writers then Without(s, id).(tmp := None) else s
    case Quit(id) => Without(s, id)
  }

  function Run(s: Files, run: seq<Event>): (t: Files)
    requires Linked(s)
    ensures Linked(t)
  {
    if run == [] then s else Step(Run(s, run[..|run| - 1]), run[|run| - 1])
  }

  // ---- saves made in turn

  /** At most one save is under way: it has the temporary file to itself and that holds what it
      has written. */
  ghost predicate Sound(s: Files) {
    && Linked(s) && (s.tmp.Some? ==> s.tmp != s.served)
    && (forall id | id in s.writers :: WritesAlone(s, id))
  }

  ghost predicate WritesAlone(s: Files, id: nat)
    requires Linked(s) && id in s.writers
  {
    var w := s.writers[id];
    s.writers.Keys == {id} && s.tmp == Some(w.inode) && s.inodes[w.inode] == w.file[..w.written]
  }

  /** A save is opened only when no other is under way. */
  predicate AloneAt(s: Files, e: Event) {
    e.Open? ==> s.writers == map[]
  }

  ghost predicate InTurn(s: Files, run: seq<Event>)
    requires Linked(s)
  {
    forall k | 0 <= k < |run| :: AloneAt(Run(s, run[..k]), run[k])
  }

  /** What the index file holds after the step: a save that renames serves all that it was to
      write, and every other step leaves the index file. */
  ghost function ServedAfter(s: Files, e: Event): Option<Word>
    requires Linked(s)
  {
    if e.Rename? && Renames(s, e.id) then Some(s.writers[e.id].file) else Served(s)
  }

  lemma {:induction false} WritesOn(content: Word, file: Word, at: nat, to: nat)
    requires at <= to <= |file| && content == file[..at]
    ensures WriteAt(content, at, file[at..to]) == file[..to]
  {}

  lemma {:induction false} WriteInTurn(s: Files, id: nat, n: nat)
    requires Sound(s) && id in s.writers
    ensures Sound(Wrote(s, id, n)) && Served(Wrote(s, id, n)) == Served(s)
  {
    assert WritesAlone(s, id);
    var w := s.writers[id];
    WritesOn(s.inodes[w.inode], w.file, w.written, w.written + Least(n, |w.file| - w.written));
    assert WritesAlone(Wrote(s, id, n), id);
  }

  /** Each step of a save made in turn keeps this, and the index file changes only by a rename,
      to the whole file of the save. */
  lemma {:induction false} StepInTurn(s: Files, e: Event)
    requires Sound(s) && AloneAt(s, e)
    ensures Sound(Step(s, e)) && Served(Step(s, e)) == ServedAfter(s, e)
  {
    if e.Open? {
      assert WritesAlone(Step(s, e), e.id);
    } else if e.id !in s.writers {
      assert s.writers - {e.id} == s.writers;
    } else if e.Write? {
      WriteInTurn(s, e.id, e.n);
    } else {
      assert WritesAlone(s, e.id);
      OneGoes(s.writers, e.id);
      TakeAll(s.writers[e.id].file);
    }
  }

  lemma {:induction false} OneGoes<V>(m: map<nat, V>, id: nat)
    requires m.Keys == {id}
    ensures m - {id} == map[]
  {
    forall k ensures k !in m - {id} {
      if k in m {
        assert k in m.Keys;
      }
    }
  }

  /** The file of the last save of the run that renamed, or else what was served before. */
  ghost function LastSaved(s: Files, run: seq<Event>): Option<Word>
    requires Linked(s)
  {
    if run == [] then Served(s)
    else
      var before, e := Run(s, run[..|run| - 1]), run[|run| - 1];
      if e.Rename? && Renames(before, e.id) then Some(before.writers[e.id].file) else LastSaved(s, run[..|run| - 1])
  }

  /** However its saves are cut into writes, fail or stop: while the saves of an index are made in
      turn, its file is at every moment the whole file of the last save that was finished. */
  lemma {:induction false} SavesInTurn(s: Files, run: seq<Event>)
    requires Sound(s) && InTurn(s, run)
    ensures Sound(Run(s, run)) && Served(Run(s, run)) == LastSaved(s, run)
    decreases |run|
  {
    if run != [] {
      var init := run[..|run| - 1];
      forall k | 0 <= k < |init| ensures AloneAt(Run(s, init[..k]), init[k]) {
        assert init[..k] == run[..k];
      }
      SavesInTurn(s, init);
      StepInTurn(Run(s, init), run[|run| - 1]);
    }
  }

  /** The only save under way is `id`, which has written `at` bytes of its file. */
  ghost predicate UnderWay(s: Files, id: nat, file: Word, at: nat, served: Option<Word>) {
    && Sound(s) && id in s.writers && s.writers[id].file == file && s.writers[id].written == at
    && Served(s) == served
  }

  lemma {:induction false} SaveBegins(s: Files, id: nat, file: Word)
    requires Sound(s) && s.writers == map[]
    ensures UnderWay(Step(s, Open(id, file)), id, file, 0, Served(s))
  {
    StepInTurn(s, Open(id, file));
  }

  lemma {:induction false} PieceWritten(s: Files, id: nat, file: Word, at: nat, served: Option<Word>)
    requires UnderWay(s, id, file, at, served)
    ensures UnderWay(Step(s, Write(id, FLUSH_SIZE)), id, file, Least(at + FLUSH_SIZE, |file|), served)
  {
    StepInTurn(s, Write(id, FLUSH_SIZE));
  }

  lemma {:induction false} SaveEnds(s: Files, id: nat, file: Word, at: nat, served: Option<Word>)
    requires UnderWay(s, id, file, at, served)
    ensures var t := Step(s, Fail(id)); Sound(t) && t.writers == map[] && Served(t) == served && t.tmp == None
    ensures var t := Step(s, Quit(id)); Sound(t) && t.writers == map[] && Served(t) == served
    ensures var t := Step(s, Rename(id));
      at == |file| ==> Sound(t) && t.writers == map[] && Served(t) == Some(file) && t.tmp == None
  {
    assert WritesAlone(s, id);
    OneGoes(s.writers, id);
    StepInTurn(s, Fail(id));
    StepInTurn(s, Quit(id));
    StepInTurn(s, Rename(id));
  }

  /** Writes out the file of the only save, piece by piece, and removes the temporary file at the
      first piece that does not fit into the `room` there is. */
  method WriteOut(s: Files, id: nat, file: Word, room: nat, ghost served: Option<Word>) returns (t: Files, ok: bool)
    requires UnderWay(s, id, file, 0, served)
    ensures ok <==> |file| <= room
    ensures ok ==> UnderWay(t, id, file, |file|, served)
    ensures !ok ==> Sound(t) && t.writers == map[] && Served(t) == served && t.tmp == None
  {
    t := s;
    var at: nat := 0;
    while at < |file|
      invariant at <= |file| && at <= room && UnderWay(t, id, file, at, served)
    {
      if Least(at + FLUSH_SIZE, |file|) > room {
        SaveEnds(t, id, file, at, served);
        return Step(t, Fail(id)), false;
      }
      PieceWritten(t, id, file, at, served);
      t := Step(t, Write(id, FLUSH_SIZE));
      at := Least(at + FLUSH_SIZE, |file|);
    }
    ok := true;
  }

  /** A whole save, no other being under way: it replaces the index file by its own, or, when it
      cannot open, write or rename, leaves it. */
  method WholeSave(s: Files, id: nat, file: Word, opens: bool, room: nat, renames: bool)
    returns (t: Files, saved: bool)
    requires Sound(s) && s.writers == map[]
    ensures Sound(t) && t.writers == map[]
    ensures Served(t) == if saved then Some(file) else Served(s)
    ensures saved <==> opens && renames && |file| <= room
    ensures opens && (renames || |file| > room) ==> t.tmp == None
  {
    if !opens {
      return s, false;
    }
    SaveBegins(s, id, file);
    var written;
    t, written := WriteOut(Step(s, Open(id, file)), id, file, room, Served(s));
    if !written {
      return t, false;
    }
    SaveEnds(t, id, file, |file|, Served(s));
    t := Step(t, if renames then Rename(id) else Quit(id));
    saved := renames;
  }

  // ---- saves that overlap

  /** Save `i` is at work; save `j` opens, writes all of `g`, renames; then `i` writes on. */
  function Overlap(i: nat, j: nat, g: Word, rest: nat): seq<Event> {
    [Open(j, g), Write(j, |g|), Rename(j), Write(i, rest)]
  }

  lemma {:induction false} RunOn(s: Files, run: seq<Event>, e: Event)
    requires Linked(s)
    ensures Run(s, run + [e]) == Step(Run(s, run), e)
  {
    assert (run + [e])[..|run|] == run;
  }

  lemma {:induction false} RunFour(s: Files, a: Event, b: Event, c: Event, d: Event)
    requires Linked(s)
    ensures Run(s, [a, b, c, d]) == Step(Step(Step(Step(s, a), b), c), d)
  {
    RunOn(s, [], a);
    assert [] + [a] == [a];
    RunOn(s, [a], b);
    assert [a] + [b] == [a, b];
    RunOn(s, [a, b], c);
    assert [a, b] + [c] == [a, b, c];
    RunOn(s, [a, b, c], d);
    assert [a, b, c] + [d] == [a, b, c, d];
  }

  /** The second save renames the very file that the first still has open. */
  lemma {:induction false} SecondRenames(s: Files, i: nat, j: nat, g: Word)
    requires Sound(s) && i in s.writers && j != i
    ensures var w, t := s.writers[i], Step(Step(Step(s, Open(j, g)), Write(j, |g|)), Rename(j));
            Linked(t) && i in t.writers && t.writers[i] == w && t.served == Some(w.inode) && Served(t) == Some(g)
  {
    assert WritesAlone(s, i);
    assert j !in s.writers;
    var first := Step(s, Open(j, g));
    assert first.writers[j] == Writer(s.writers[i].inode, g, 0);
    WritesOn([], g, 0, |g|);
    assert g[..|g|] == g;
  }

  lemma {:induction false} RestWritten(t: Files, i: nat, g: Word)
    requires Linked(t) && i in t.writers && t.served == Some(t.writers[i].inode) && Served(t) == Some(g)
    ensures var w := t.writers[i];
            var left := w.file[w.written..];
            Served(Step(t, Write(i, |left|))) == Some(WriteAt(g, w.written, left))
  {
    var w := t.writers[i];
    assert w.file[w.written..|w.file|] == w.file[w.written..];
  }

  lemma {:induction false} OverlapServes(s: Files, i: nat, j: nat, g: Word)
    requires Sound(s) && i in s.writers && j != i
    ensures var w := s.writers[i];
            var left := w.file[w.written..];
            Served(Run(s, Overlap(i, j, g, |left|))) == Some(WriteAt(g, w.written, left))
  {
    var left := s.writers[i].file[s.writers[i].written..];
    RunFour(s, Open(j, g), Write(j, |g|), Rename(j), Write(i, |left|));
    SecondRenames(s, i, j, g);
    RestWritten(Step(Step(Step(s, Open(j, g)), Write(j, |g|)), Rename(j)), i, g);
  }

  /** A second save that opens while the first has bytes left is overwritten by them once it is
      in place; what is served then is right exactly when those bytes are the same in both. */
  lemma {:induction false} OverlapExactly(s: Files, i: nat, j: nat, g: Word)
    requires Sound(s) && i in s.writers && j != i
    ensures var w := s.writers[i];
            var left := w.file[w.written..];
            var after := Served(Run(s, Overlap(i, j, g, |left|)));
            && after == Some(WriteAt(g, w.written, left))
            && (after == Some(g) <==> left == [] || (|w.file| <= |g| && left == g[w.written..|w.file|]))
  {
    var w := s.writers[i];
    OverlapServes(s, i, j, g);
    SameBytes(g, w.written, w.file[w.written..]);
  }

  lemma {:induction false} SameBytes(g: Word, at: nat, data: Word)
    ensures WriteAt(g, at, data) == g <==> data == [] || (at + |data| <= |g| && data == g[at..at + |data|])
  {
    if data != [] && at + |data| <= |g| {
      var over := g[..at] + data + g[at + |data|..];
      assert WriteAt(g, at, data) == over;
      assert over[at..at + |data|] == data;
      if data == g[at..at + |data|] {
        assert over == g;
      }
    }
  }
}
