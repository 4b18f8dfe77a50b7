/** The caches in front of the two index builders: recently used indexes in memory, index files
    on disk written in the background, and a fresh build when neither serves. */
module IndexCache {
  import opened Bytes
  import opened Wrappers
  import opened Lines
  import opened Bloom
  import opened BloomIndex
  import opened LineIndex
  import opened IndexFiles
  import opened IndexSaves

  const MIN_SIZE_FOR_LINE_INDEX: int := 4194304
  const MIN_SIZE_FOR_BLOOM: int := 1048576

  type Path = string

  datatype Stat = Stat(size: int, modTimeNano: int)

  /** What a file holds, as determined by its path, size and modification time. */
  type World = (Path, int, int) -> Word

  /** A kind of index: when one is right for a path, and what an index file is read as. */
  datatype Kind<!I> = Kind(right: (Path, I) -> bool, parsed: Word -> Option<I>)

  /** The saves of an index are made in turn, and what its file holds, or is to hold once they
      are done, is right for the path. */
  ghost predicate FilesOk<I(!new)>(k: Kind<I>, path: Path, s: Files) {
    && Sound(s)
    && (Served(s).Some? ==> RightFile(k, path, Served(s).value))
    && (forall id | id in s.writers :: RightFile(k, path, s.writers[id].file))
  }

  /** A file that is read as no index at all is right for any path. */
  ghost predicate RightFile<I(!new)>(k: Kind<I>, path: Path, file: Word) {
    k.parsed(file).Some? ==> k.right(path, k.parsed(file).value)
  }

  lemma {:induction false} StepKeepsFiles<I(!new)>(k: Kind<I>, path: Path, s: Files, e: Event)
    requires FilesOk(k, path, s) && AloneAt(s, e) && (e.Open? ==> RightFile(k, path, e.file))
    ensures FilesOk(k, path, Step(s, e))
  {
    StepInTurn(s, e);
  }

  class Store<I(==,!new)> {
    var lru: map<Path, I>
    var disk: map<Path, Files>
    var saving: set<(Path, I)>

    /** Whatever is held, in memory, on disk or on its way there, is right for its path. */
    ghost predicate Valid(k: Kind<I>)
      reads this
    {
      && (forall p | p in lru :: k.right(p, lru[p]))
      && (forall p | p in disk :: FilesOk(k, p, disk[p]))
      && (forall s | s in saving :: k.right(s.0, s.1))
    }

    constructor ()
      ensures forall k: Kind<I> :: Valid(k)
    {
      lru, disk, saving := map[], map[], {};
    }

    function FilesOf(path: Path): Files
      reads this
    {
      if path in disk then disk[path] else NO_FILES
    }

    function IndexFile(path: Path): Option<Word>
      requires Linked(FilesOf(path))
      reads this
    {
      Served(FilesOf(path))
    }

    /** Puts an index into memory; the cache may drop any others to make room. */
    method Add(path: Path, idx: I, kept: set<Path>, ghost k: Kind<I>)
      requires Valid(k) && k.right(path, idx)
      modifies this`lru
      ensures Valid(k) && path in lru && lru[path] == idx
      ensures forall p | p in lru && p != path :: p in old(lru) && lru[p] == old(lru[p])
    {
      lru := (map p | p in lru && p in kept :: lru[p])[path := idx];
    }

    /** Starts the background save of an index that was just built. */
    method StartSave(path: Path, idx: I, ghost k: Kind<I>)
      requires Valid(k) && k.right(path, idx)
      modifies this`saving
      ensures Valid(k) && saving == old(saving) + {(path, idx)}
    {
      saving := saving + {(path, idx)};
    }

    /** A save that was started gets to run: it opens the temporary file, if it can. */
    method OpenSave(path: Path, idx: I, id: nat, file: Word, opens: bool, ghost k: Kind<I>)
      requires Valid(k) && (path, idx) in saving && k.parsed(file) == Some(idx)
      modifies this`disk, this`saving
      ensures saving == old(saving) - {(path, idx)}
      ensures !opens ==> disk == old(disk)
      ensures opens ==> disk == old(disk)[path := Step(old(FilesOf(path)), Open(id, file))]
      ensures !opens || AloneAt(old(FilesOf(path)), Open(id, file)) ==> Valid(k)
    {
      saving := saving - {(path, idx)};
      if opens {
        if FilesOf(path).writers == map[] {
          StepKeepsFiles(k, path, FilesOf(path), Open(id, file));
        }
        disk := disk[path := Step(FilesOf(path), Open(id, file))];
      }
    }

    /** A save goes on, in whatever way. */
    method SaveStep(path: Path, e: Event, ghost k: Kind<I>)
      requires Linked(FilesOf(path)) && !e.Open?
      modifies this`disk
      ensures disk == old(disk)[path := Step(old(FilesOf(path)), e)]
      ensures old(Valid(k)) ==> Valid(k)
    {
      if Valid(k) {
        StepKeepsFiles(k, path, FilesOf(path), e);
      }
      disk := disk[path := Step(FilesOf(path), e)];
    }

    /** A whole save, no other of the path being under way: it replaces the index file by its own,
        or, when it cannot open, write or rename, leaves it. */
    method Save(path: Path, idx: I, id: nat, file: Word, opens: bool, room: nat, renames: bool, ghost k: Kind<I>)
      returns (saved: bool)
      requires Valid(k) && (path, idx) in saving && k.parsed(file) == Some(idx) && FilesOf(path).writers == map[]
      modifies this`disk, this`saving
      ensures Valid(k) && saving == old(saving) - {(path, idx)}
      ensures disk == old(disk)[path := FilesOf(path)] && FilesOf(path).writers == map[]
      ensures IndexFile(path) == if saved then Some(file) else old(IndexFile(path))
      ensures saved <==> opens && renames && |file| <= room
    {
      var files;
      files, saved := WholeSave(FilesOf(path), id, file, opens, room, renames);
      saving := saving - {(path, idx)};
      disk := disk[path := files];
    }
  }

  // ---- line indexes

  ghost function LineKind(world: World): Kind<SparseLineIndex> {
    Kind((p: Path, idx: SparseLineIndex) =>
           Describes(idx, world(p, idx.fileSize, idx.modTimeNano)) && idx.step == INDEX_STEP,
         file => if IsLineFile(file) then Some(ParsedLine(file)) else None)
  }

  lemma {:induction false} LineStartUnique(content: Word, a: int, b: int, n: int)
    requires StartsAfter(content, a, n) && StartsAfter(content, b, n)
    ensures a == b
  {
    NLToCounts(content, a);
    NLToCounts(content, b);
    if a < b {
      NLGrows(content, a, b - 1);
    } else if b < a {
      NLGrows(content, b, a - 1);
    }
  }

  /** A file has only one line index. */
  lemma {:induction false} LineIndexUnique(a: SparseLineIndex, b: SparseLineIndex, content: Word)
    requires Describes(a, content) && Describes(b, content)
    requires a.step == b.step && a.fileSize == b.fileSize && a.modTimeNano == b.modTimeNano
    ensures a == b
  {
    forall k | 0 <= k < |a.offsets| ensures a.offsets[k] == b.offsets[k] {
      LineStartUnique(content, a.offsets[k], b.offsets[k], k * a.step);
    }
  }

  /** The index a fresh build would give. */
  ghost predicate FreshLineIndex(idx: SparseLineIndex, content: Word, st: Stat) {
    && Describes(idx, content) && idx.step == INDEX_STEP
    && idx.fileSize == st.size && idx.modTimeNano == st.modTimeNano
  }

  /** The index that every fresh build gives. */
  ghost predicate TheLineIndex(idx: SparseLineIndex, content: Word, st: Stat) {
    && FreshLineIndex(idx, content, st)
    && forall other | FreshLineIndex(other, content, st) :: other == idx
  }

  lemma {:induction false} FreshIsUnique(idx: SparseLineIndex, content: Word, st: Stat)
    requires FreshLineIndex(idx, content, st)
    ensures TheLineIndex(idx, content, st)
  {
    forall other | FreshLineIndex(other, content, st) ensures other == idx {
      LineIndexUnique(other, idx, content);
    }
  }

  method CachedLineIndex(store: Store<SparseLineIndex>, path: Path, st: Stat, ghost world: World)
    returns (idx: Option<SparseLineIndex>)
    requires store.Valid(LineKind(world))
    ensures idx.Some? ==> TheLineIndex(idx.value, world(path, st.size, st.modTimeNano), st)
    ensures path !in store.lru ==> idx.None?
  {
    if path in store.lru {
      var held := store.lru[path];
      if held.fileSize == st.size && held.modTimeNano == st.modTimeNano {
        assert LineKind(world).right(path, held);
        FreshIsUnique(held, world(path, st.size, st.modTimeNano), st);
        return Some(held);
      }
    }
    idx := None;
  }

  /** Finds or builds the line index of a file; a small file has none. Whatever path it takes,
      the index is the one that every fresh build gives. */
  method GetOrBuildLineIndex(store: Store<SparseLineIndex>, path: Path, stat: Option<Stat>, segments: seq<Word>,
                             readFails: bool,
                             kept: set<Path>, ghost world: World)
    returns (r: Result<Option<SparseLineIndex>>)
    requires store.Valid(LineKind(world))
    requires stat.Some? ==> Flatten(segments) == world(path, stat.value.size, stat.value.modTimeNano)
    modifies store`lru, store`saving
    ensures store.Valid(LineKind(world))
    ensures stat.None? ==> r.Err?
    ensures stat.Some? && !readFails ==> r.Ok? && (r.value.None? <==> stat.value.size < 4194304)
    ensures r.Ok? && r.value.Some? ==> stat.Some? && TheLineIndex(r.value.value, Flatten(segments), stat.value)
  {
    if stat.None? {
      return Err;
    }
    var st := stat.value;
    if st.size < MIN_SIZE_FOR_LINE_INDEX {
      return Ok(None);
    }
    var cached := CachedLineIndex(store, path, st, world);
    if cached.Some? {
      return Ok(cached);
    }
    var loaded := LoadLineIndexFromDisk(store.IndexFile(path), st.size, st.modTimeNano);
    if loaded.Ok? {
      assert LineKind(world).parsed(store.IndexFile(path).value) == Some(loaded.value);
      assert LineKind(world).right(path, loaded.value);
      FreshIsUnique(loaded.value, Flatten(segments), st);
      store.Add(path, loaded.value, kept, LineKind(world));
      return Ok(Some(loaded.value));
    }
    cached := CachedLineIndex(store, path, st, world);
    if cached.Some? {
      return Ok(cached);
    }
    var built := BuildSparseLineIndex(segments, readFails, st.size, st.modTimeNano);
    if built.Err? {
      return Err;
    }
    assert LineKind(world).right(path, built.value);
    FreshIsUnique(built.value, Flatten(segments), st);
    store.StartSave(path, built.value, LineKind(world));
    store.Add(path, built.value, kept, LineKind(world));
    r := Ok(Some(built.value));
  }

  /** The background save of a line index, no other of the path being under way. */
  method FinishLineSave(store: Store<SparseLineIndex>, path: Path, idx: SparseLineIndex, id: nat, opens: bool,
                        room: nat, renames: bool, ghost world: World) returns (saved: bool)
    requires store.Valid(LineKind(world)) && (path, idx) in store.saving && LineIndexFits(idx)
    requires store.FilesOf(path).writers == map[]
    modifies store`disk, store`saving
    ensures store.Valid(LineKind(world))
    ensures store.IndexFile(path) == if saved then Some(LineFile(idx)) else old(store.IndexFile(path))
    ensures saved <==> opens && renames && |LineFile(idx)| <= room
  {
    var file := SaveLineIndexToDisk(idx);
    LineFileReadsBack(idx);
    saved := store.Save(path, idx, id, file, opens, room, renames, LineKind(world));
  }

  // ---- chunk indexes

  /** An index that a build of this content gives, for some way of reading it in pieces. */
  ghost predicate BuiltFrom(h: Hash, idx: ChunkBloomIndex, content: Word) {
    exists segments :: Flatten(segments) == content && Indexes(h, segments, idx)
  }

  ghost function BloomKind(h: Hash, world: World): Kind<ChunkBloomIndex> {
    Kind((p: Path, idx: ChunkBloomIndex) => BuiltFrom(h, idx, world(p, idx.fileSize, idx.modTimeNano)),
         file => if IsBloomFile(file) && HeaderOf(file).Ok() then Some(ParsedBloom(file)) else None)
  }

  ghost predicate FreshBloomIndex(h: Hash, idx: ChunkBloomIndex, content: Word, st: Stat) {
    BuiltFrom(h, idx, content) && idx.fileSize == st.size && idx.modTimeNano == st.modTimeNano
  }

  method CachedBloomIndex(store: Store<ChunkBloomIndex>, path: Path, st: Stat, ghost h: Hash, ghost world: World)
    returns (idx: Option<ChunkBloomIndex>)
    requires store.Valid(BloomKind(h, world))
    ensures idx.Some? ==> FreshBloomIndex(h, idx.value, world(path, st.size, st.modTimeNano), st)
    ensures path !in store.lru ==> idx.None?
  {
    if path in store.lru {
      var held := store.lru[path];
      if held.fileSize == st.size && held.modTimeNano == st.modTimeNano {
        assert BloomKind(h, world).right(path, held);
        return Some(held);
      }
    }
    idx := None;
  }

  /** Finds or builds the chunk index of a file; a small file has none. Whatever path it takes,
      the index is one that a fresh build could give. */
  method GetOrBuildBloomIndex(store: Store<ChunkBloomIndex>, path: Path, stat: Option<Stat>, segments: seq<Word>,
                              readFails: bool,
                              h: Hash, kept: set<Path>, ghost world: World)
    returns (r: Result<Option<ChunkBloomIndex>>)
    requires store.Valid(BloomKind(h, world))
    requires stat.Some? ==> Flatten(segments) == world(path, stat.value.size, stat.value.modTimeNano)
    requires stat.Some? ==> |Flatten(segments)| == stat.value.size
    modifies store`lru, store`saving
    ensures store.Valid(BloomKind(h, world))
    ensures stat.None? ==> r.Err?
    ensures stat.Some? && !readFails ==> r.Ok? && (r.value.None? <==> stat.value.size < 1048576)
    ensures r.Ok? && r.value.Some? ==> stat.Some? && FreshBloomIndex(h, r.value.value, Flatten(segments), stat.value)
  {
    if stat.None? {
      return Err;
    }
    var st := stat.value;
    if st.size < MIN_SIZE_FOR_BLOOM {
      return Ok(None);
    }
    var cached := CachedBloomIndex(store, path, st, h, world);
    if cached.Some? {
      return Ok(cached);
    }
    var loaded := LoadBloomIndexFromDisk(store.IndexFile(path), st.size, st.modTimeNano);
    if loaded.Ok? {
      assert BloomKind(h, world).parsed(store.IndexFile(path).value) == Some(loaded.value);
      assert BloomKind(h, world).right(path, loaded.value);
      store.Add(path, loaded.value, kept, BloomKind(h, world));
      return Ok(Some(loaded.value));
    }
    cached := CachedBloomIndex(store, path, st, h, world);
    if cached.Some? {
      return Ok(cached);
    }
    var built := BuildChunkBloomIndex(segments, readFails, h, st.size, st.modTimeNano);
    if built.Err? {
      return Err;
    }
    assert BloomKind(h, world).right(path, built.value);
    store.StartSave(path, built.value, BloomKind(h, world));
    store.Add(path, built.value, kept, BloomKind(h, world));
    r := Ok(Some(built.value));
  }

  /** The background save of a chunk index, no other of the path being under way. */
  method FinishBloomSave(store: Store<ChunkBloomIndex>, path: Path, idx: ChunkBloomIndex, id: nat, opens: bool,
                         room: nat, renames: bool, ghost h: Hash, ghost world: World)
    returns (saved: bool)
    requires store.Valid(BloomKind(h, world)) && (path, idx) in store.saving && BloomIndexFits(idx)
    requires store.FilesOf(path).writers == map[]
    modifies store`disk, store`saving
    ensures store.Valid(BloomKind(h, world))
    ensures store.IndexFile(path) == if saved then Some(BloomFile(idx)) else old(store.IndexFile(path))
    ensures saved <==> opens && renames && |BloomFile(idx)| <= room
  {
    var file := SaveBloomIndexToDisk(idx);
    BloomFileReadsBack(idx);
    saved := store.Save(path, idx, id, file, opens, room, renames, BloomKind(h, world));
  }

  // ---- saves of a chunk index that overlap

  /** The file of `b`, over which a save of `a` has written all but its first piece. */
  function Mixed(a: ChunkBloomIndex, b: ChunkBloomIndex): Word
    requires BloomIndexFits(a) && BloomIndexFits(b) && FLUSH_SIZE <= |BloomFile(a)|
  {
    WriteAt(BloomFile(b), FLUSH_SIZE, BloomFile(a)[FLUSH_SIZE..])
  }

  lemma {:induction false} MixedBytes(g: Word, f: Word, at: nat, lo: nat, hi: nat)
    requires at <= |f| <= |g| && lo <= hi
    ensures |WriteAt(g, at, f[at..])| == |g|
    ensures hi <= at ==> WriteAt(g, at, f[at..])[lo..hi] == g[lo..hi]
    ensures at <= lo && hi <= |f| ==> WriteAt(g, at, f[at..])[lo..hi] == f[lo..hi]
    ensures |f| <= lo && hi <= |g| ==> WriteAt(g, at, f[at..])[lo..hi] == g[lo..hi]
  {
    var mixed := WriteAt(g, at, f[at..]);
    assert mixed == g[..at] + f[at..] + g[|f|..];
    assert forall k | 0 <= k < |g| :: mixed[k] == if at <= k < |f| then f[k] else g[k];
  }

  lemma {:induction false} ParsedChunk(file: Word, k: nat, c: BloomChunkMeta)
    requires IsBloomFile(file) && HeaderOf(file).Ok() && k < HeaderOf(file).count && ChunkFits(c)
    requires RecordAt(k) + RECORD_SIZE <= |file|
    requires file[RecordAt(k)..RecordAt(k) + RECORD_SIZE] == Record(c)
    ensures ParsedBloom(file).chunks[k] == c
  {
    var payload, at := file[HEADER_SIZE..], RECORD_SIZE * k;
    ParsedRecordAt(payload, HeaderOf(file).count, k);
    assert payload[at..at + RECORD_SIZE] == file[RecordAt(k)..RecordAt(k) + RECORD_SIZE] by {
      assert payload == file[HEADER_SIZE..|file|];
      SliceOfSlice(file, HEADER_SIZE, |file|, at, at + RECORD_SIZE);
    }
    RecordReadsBack(c);
  }

  /** The mixed file is accepted for the newer index, and in it the last record of the older one
      is followed by the next of the newer. */
  lemma {:induction false} MixedFileIsRead(a: ChunkBloomIndex, b: ChunkBloomIndex)
    requires BloomIndexFits(a) && BloomIndexFits(b) && 64 <= |a.chunks| < |b.chunks|
    ensures var file, n := Mixed(a, b), |a.chunks|;
            && IsBloomFile(file) && HeaderOf(file) == BloomHeader(b) && HeaderOf(file).Ok()
            && ParsedBloom(file).chunks[n - 1] == a.chunks[n - 1]
            && ParsedBloom(file).chunks[n] == b.chunks[n]
  {
    var f, g, n := BloomFile(a), BloomFile(b), |a.chunks|;
    var file := Mixed(a, b);
    BloomFileReadsBack(b);
    assert file[..HEADER_SIZE] == g[..HEADER_SIZE] by {
      MixedBytes(g, f, FLUSH_SIZE, 0, HEADER_SIZE);
    }
    SameHeader(file, g);
    MixedBytes(g, f, FLUSH_SIZE, RecordAt(n - 1), RecordAt(n));
    FileRecordAt(a, n - 1);
    ParsedChunk(file, n - 1, a.chunks[n - 1]);
    MixedBytes(g, f, FLUSH_SIZE, RecordAt(n), RecordAt(n + 1));
    FileRecordAt(b, n);
    ParsedChunk(file, n, b.chunks[n]);
  }

  lemma {:induction false} SameHeader(file: Word, g: Word)
    requires |file| >= HEADER_SIZE && |g| >= HEADER_SIZE && file[..HEADER_SIZE] == g[..HEADER_SIZE]
    ensures file[..8] == g[..8] && HeaderOf(file) == HeaderOf(g)
  {
    forall lo: nat, hi: nat | lo <= hi <= HEADER_SIZE ensures file[lo..hi] == g[lo..hi] {
      SliceOfPrefix(file[..HEADER_SIZE], file, lo, hi);
      SliceOfPrefix(g[..HEADER_SIZE], g, lo, hi);
    }
  }

  lemma {:induction false} OverlapLeavesMixed(a: ChunkBloomIndex, b: ChunkBloomIndex, s: Files, i: nat, j: nat)
    requires BloomIndexFits(a) && BloomIndexFits(b) && FLUSH_SIZE <= |BloomFile(a)|
    requires Sound(s) && i in s.writers && j != i
    requires s.writers[i].file == BloomFile(a) && s.writers[i].written == FLUSH_SIZE
    ensures Served(Run(s, Overlap(i, j, BloomFile(b), |BloomFile(a)| - FLUSH_SIZE))) == Some(Mixed(a, b))
  {
    OverlapServes(s, i, j, BloomFile(b));
  }

  /** An index of the file has no chunk that ends before the next one starts. */
  lemma {:induction false} GapIsNoIndex(h: Hash, read: ChunkBloomIndex, content: Word, n: nat)
    requires 0 < n < |read.chunks| && read.chunks[n - 1].endOffset != read.chunks[n].startOffset
    ensures !BuiltFrom(h, read, content)
  {
    if BuiltFrom(h, read, content) {
      var segments :| Flatten(segments) == content && Indexes(h, segments, read);
      ChunksAdjoin(h, content, CutsOf(segments), read.chunks, read.chunks[|read.chunks| - 1].endOffset, n);
    }
  }

  /** The file is accepted where the index `b` would be, and read as no index of the content: chunk
      `n` starts later than the chunk before it ends. */
  ghost predicate Misleads(h: Hash, file: Word, b: ChunkBloomIndex, content: Word, n: nat) {
    && IsBloomFile(file) && HeaderOf(file) == BloomHeader(b) && HeaderOf(file).Ok()
    && var read := ParsedBloom(file);
       && 0 < n < |read.chunks| && read.chunks[n - 1].endOffset < read.chunks[n].startOffset
       && !BuiltFrom(h, read, content)
  }

  lemma {:induction false} MixedMisleads(h: Hash, content: Word, a: ChunkBloomIndex, b: ChunkBloomIndex)
    requires BloomIndexFits(a) && BloomIndexFits(b) && 64 <= |a.chunks| < |b.chunks|
    requires a.chunks[|a.chunks| - 1].endOffset < b.chunks[|a.chunks|].startOffset
    ensures Misleads(h, Mixed(a, b), b, content, |a.chunks|)
  {
    MixedFileIsRead(a, b);
    GapIsNoIndex(h, ParsedBloom(Mixed(a, b)), content, |a.chunks|);
  }

  /** A log has grown past the last chunk of its index, which was the 64th or a later one, and the
      save of that index stalls after its first piece. If the save of the next index overlaps it,
      the file they leave is accepted for the log as it is, but read as no index of it: the last
      chunk of the old index ends before the next one starts. */
  lemma {:induction false} OverlappingSavesMislead(h: Hash, before: seq<Word>, after: seq<Word>, a: ChunkBloomIndex,
                                                   b: ChunkBloomIndex, s: Files, i: nat, j: nat)
    requires Indexes(h, before, a) && Indexes(h, after, b) && Flatten(before) <= Flatten(after)
    requires BloomIndexFits(a) && BloomIndexFits(b) && 64 <= |a.chunks|
    requires CountNL(Flatten(before)) < 15000 * |a.chunks| < CountNL(Flatten(after))
    requires Sound(s) && i in s.writers && j != i
    requires s.writers[i].file == BloomFile(a) && s.writers[i].written == FLUSH_SIZE
    ensures var served := Served(Run(s, Overlap(i, j, BloomFile(b), |BloomFile(a)| - FLUSH_SIZE)));
            served.Some? && Misleads(h, served.value, b, Flatten(after), |a.chunks|)
  {
    LastChunkGrows(h, before, after, a, b);
    OverlapLeavesMixed(a, b, s, i, j);
    MixedMisleads(h, Flatten(after), a, b);
  }
}
