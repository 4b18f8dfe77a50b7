/** Standby synchronisation: the versioned store, the engine that pulls snapshots into it,
    and the soundness of the "not modified" reply over whole runs. */
module HaSync {
  import opened Wrappers

  type Data = map<string, string>

  /** A committed state of a database, under the transaction id that produced it. */
  datatype Version = Version(id: int, data: Data)

  // ---- the store

  /** What the file system does while a snapshot is being swapped in. */
  datatype Disk = Disk(copyOk: bool, renameOk: bool, reopenOk: bool, openOk: bool)

  /** The database after a reload attempt, and whether the attempt succeeded. A snapshot that
      cannot be read (`None`) is rejected before the live database is touched. */
  function Reloaded(db: Option<Version>, snap: Option<Version>, disk: Disk): (r: (Option<Version>, bool))
    ensures r.1 ==> snap.Some? && r.0 == snap
    ensures !r.1 ==> r.0 == db || r.0 == None
  {
    if !disk.copyOk || snap.None? then (db, false)
    else if !disk.renameOk then (if disk.reopenOk then db else None, false)
    else if !disk.openOk then (None, false)
    else (snap, true)
  }

  class Store {
    var db: Option<Version>  // None: no open database

    constructor (initial: Version)
      ensures db == Some(initial)
    {
      db := Some(initial);
    }

    method CurrentTxID() returns (txID: Option<int>)
      ensures txID == if db.Some? then Some(db.value.id) else None
    {
      if db.None? {
        return None;
      }
      txID := Some(db.value.id);
    }

    method ExportSnapshot() returns (snap: Option<Version>)
      ensures snap == db
    {
      snap := db;
    }

    /** One committed write transaction. */
    method Update(data: Data) returns (ok: bool)
      modifies this
      ensures ok == old(db).Some?
      ensures db == if ok then Some(Version(old(db).value.id + 1, data)) else old(db)
    {
      if db.None? {
        return false;
      }
      db := Some(Version(db.value.id + 1, data));
      ok := true;
    }

    method ReloadFromSnapshot(snap: Option<Version>, disk: Disk) returns (ok: bool)
      modifies this
      ensures (db, ok) == Reloaded(old(db), snap, disk)
      ensures ok <==> disk.copyOk && snap.Some? && disk.renameOk && disk.openOk
      ensures ok ==> db == snap
      ensures !disk.copyOk || snap.None? ==> db == old(db)
      ensures disk.copyOk && snap.Some? && !disk.renameOk ==> db == if disk.reopenOk then old(db) else None
      ensures disk.copyOk && snap.Some? && disk.renameOk && !disk.openOk ==> db == None
    {
      if !disk.copyOk || snap.None? {
        return false;
      }
      var original := db;
      db := None;  // the live database is closed for the swap
      if !disk.renameOk {
        if disk.reopenOk {
          db := original;
        }
        return false;
      }
      if !disk.openOk {
        return false;
      }
      db := snap;
      ok := true;
    }
  }

  // ---- the engine

  datatype Status = NeverSynced | Syncing | Synced | Failed

  /** The transaction id header of a snapshot reply: absent, unreadable, or a number. */
  datatype Header = Absent | Garbled | Tx(id: int)

  datatype Reply = NoReply | NotModified | BadStatus | Snapshot(header: Header, body: Option<Version>)

  /** The conditional header a request carries: 0 stands for none. */
  function KnownTx(lastTxID: int): int {
    if lastTxID > 0 then lastTxID else 0
  }

  predicate Pulled(db: Option<Version>, reply: Reply, disk: Disk) {
    reply.Snapshot? && Reloaded(db, reply.body, disk).1
  }

  function DbAfter(db: Option<Version>, reply: Reply, disk: Disk): Option<Version> {
    if reply.Snapshot? then Reloaded(db, reply.body, disk).0 else db
  }

  /** The known id after a pull: the announced one, or that of the new database when none was
      announced; it stays when the pull failed or the header was unreadable. */
  function IdAfter(db: Option<Version>, lastTxID: int, reply: Reply, disk: Disk): int {
    if !Pulled(db, reply, disk) || reply.header.Garbled? then lastTxID
    else if reply.header.Tx? then reply.header.id
    else reply.body.value.id
  }

  class HASyncEngine {
    const store: Store
    var lastTxID: int
    var syncStatus: Status

    constructor (store: Store)
      ensures this.store == store && lastTxID == 0 && syncStatus == NeverSynced
    {
      this.store, lastTxID, syncStatus := store, 0, NeverSynced;
    }

    /** One pull. The id of the last pull changes only after a successful reload, and then to
        the id the active node announced before it exported. */
    method SyncOnce(isActive: bool, peerURL: string, reply: Reply, disk: Disk)
      modifies this, store
      ensures isActive || peerURL == "" ==>
        lastTxID == old(lastTxID) && syncStatus == old(syncStatus) && store.db == old(store.db)
      ensures !(isActive || peerURL == "") ==>
        && syncStatus == (if Pulled(old(store.db), reply, disk) || reply.NotModified? then Synced else Failed)
        && store.db == DbAfter(old(store.db), reply, disk)
        && lastTxID == IdAfter(old(store.db), old(lastTxID), reply, disk)
    {
      if isActive || peerURL == "" {
        return;
      }
      syncStatus := Syncing;
      match reply
      case NoReply =>
        syncStatus := Failed;
      case NotModified =>
        syncStatus := Synced;
      case BadStatus =>
        syncStatus := Failed;
      case Snapshot(header, body) =>
        var ok := store.ReloadFromSnapshot(body, disk);
        if !ok {
          syncStatus := Failed;
          return;
        }
        if header != Absent {
          if header.Tx? {
            lastTxID := header.id;
          }
        } else {
          var current := store.CurrentTxID();
          if current.Some? {
            lastTxID := current.value;
          }
        }
        syncStatus := Synced;
    }
  }

  // ---- the active node's handler

  /** The database after some committed write transactions. */
  function Committed(db: Option<Version>, updates: seq<Data>): (r: Option<Version>)
    ensures db.None? ==> r.None?
    ensures db.Some? ==> r.Some? && r.value.id == db.value.id + |updates|
  {
    if db.None? || updates == [] then db
    else Some(Version(db.value.id + |updates|, updates[|updates| - 1]))
  }

  /** Answers one pull that sent the id `known` (0: none). The id is read first and the
      database exported later, so other transactions, `updates`, may commit in between. */
  method HandleSnapshot(store: Store, known: int, idReadable: bool, updates: seq<Data>, exportOk: bool)
    returns (reply: Reply)
    modifies store
    ensures reply.NotModified? || reply.Snapshot?
    ensures reply.NotModified? <==> idReadable && known != 0 && old(store.db).Some? && known == old(store.db).value.id
    ensures reply.NotModified? ==> store.db == old(store.db)
    ensures reply.Snapshot? ==>
      && store.db == Committed(old(store.db), updates)
      && reply.header == (if idReadable && old(store.db).Some? then Tx(old(store.db).value.id) else Absent)
      && reply.body == (if exportOk then store.db else None)
      && (reply.header.Tx? && reply.body.Some? ==>
            (reply.header.id == reply.body.value.id <==> updates == []) && reply.header.id <= reply.body.value.id)
  {
    var header := Absent;
    var txID := None;
    if idReadable {
      txID := store.CurrentTxID();
    }
    if txID.Some? {
      header := Tx(txID.value);
      if known != 0 && known == txID.value {
        return NotModified;
      }
    }
    for i := 0 to |updates|
      invariant store.db == Committed(old(store.db), updates[..i])
    {
      var _ := store.Update(updates[i]);
    }
    assert updates[..|updates|] == updates;
    var body := None;
    if exportOk {
      body := store.ExportSnapshot();
    }
    return Snapshot(header, body);
  }

  // ---- runs: one active node committing, a standby pulling

  /** How far one pull has got: the request is on its way with the known id; the active node
      has read its id, or failed to, and decided to send a snapshot; the snapshot is
      travelling; the standby has reloaded but not yet noted the id; finished. */
  datatype Pull =
    | Sent(known: int)
    | Announced(id: Option<int>)
    | Carrying(id: Option<int>, snap: Version)
    | Loaded(id: Option<int>)
    | Finished(notModified: bool)

  datatype World = World(history: seq<Version>, db: Option<Version>, lastTxID: int, pulls: seq<Pull>)

  datatype Event =
    | Commit(v: Version)                         // the active node commits
    | LocalWrite(data: Data)                     // something writes to the standby's database
    | Begin                                      // the standby starts a pull
    | ActiveReadsTx(i: nat, readable: bool)      // the active node reads its id and answers 304 or goes on
    | ActiveExports(i: nat)                      // the active node exports its current state
    | Reload(i: nat, disk: Disk)                 // the standby swaps the snapshot in
    | Note(i: nat)                               // the standby notes the announced id, or else its own
    | Lose(i: nat)                               // the connection breaks

  function Latest(w: World): Version
    requires w.history != []
  {
    w.history[|w.history| - 1]
  }

  /** The active node answers pull `i` with "not modified" if it can read its id now. */
  predicate Answers304(w: World, i: nat)
    requires w.history != []
  {
    i < |w.pulls| && w.pulls[i].Sent? && w.pulls[i].known != 0 && w.pulls[i].known == Latest(w).id
  }

  function Step(w: World, e: Event): World
    requires w.history != []
  {
    match e
    case Commit(v) => if v.id > Latest(w).id then w.(history := w.history + [v]) else w
    case LocalWrite(data) => if w.db.Some? then w.(db := Some(Version(w.db.value.id + 1, data))) else w
    case Begin => w.(pulls := w.pulls + [Sent(KnownTx(w.lastTxID))])
    case ActiveReadsTx(i, readable) =>
      if i < |w.pulls| && w.pulls[i].Sent? then
        w.(pulls := w.pulls[i := if readable && Answers304(w, i) then Finished(true)
                                 else Announced(if readable then Some(Latest(w).id) else None)])
      else w
    case ActiveExports(i) =>
      if i < |w.pulls| && w.pulls[i].Announced? then
        w.(pulls := w.pulls[i := Carrying(w.pulls[i].id, Latest(w))])
      else w
    case Reload(i, disk) =>
      if i < |w.pulls| && w.pulls[i].Carrying? then
        var (db, ok) := Reloaded(w.db, Some(w.pulls[i].snap), disk);
        w.(db := db, pulls := w.pulls[i := if ok then Loaded(w.pulls[i].id) else Finished(false)])
      else w
    case Note(i) =>
      if i < |w.pulls| && w.pulls[i].Loaded? then
        var noted := w.(pulls := w.pulls[i := Finished(false)]);
        if w.pulls[i].id.Some? then noted.(lastTxID := w.pulls[i].id.value)
        else if w.db.Some? then noted.(lastTxID := w.db.value.id)
        else noted
      else w
    case Lose(i) =>
      if i < |w.pulls| && !w.pulls[i].Loaded? && !w.pulls[i].Finished? then
        w.(pulls := w.pulls[i := Finished(false)])
      else w
  }

  function Run(w: World, run: seq<Event>): (r: World)
    requires w.history != []
    ensures r.history != []
  {
    if run == [] then w else Step(Run(w, run[..|run| - 1]), run[|run| - 1])
  }

  /** The reply that a travelling snapshot makes up. */
  function ReplyOf(p: Pull): Reply
    requires p.Carrying?
  {
    Snapshot(if p.id.Some? then Tx(p.id.value) else Absent, Some(p.snap))
  }

  /** Reloading and noting in a run does to the standby what `SyncOnce` does in one call. */
  lemma RunDoesSyncOnce(w: World, i: nat, disk: Disk)
    requires w.history != [] && i < |w.pulls| && w.pulls[i].Carrying?
    ensures var done := Step(Step(w, Reload(i, disk)), Note(i));
            && done.db == DbAfter(w.db, ReplyOf(w.pulls[i]), disk)
            && done.lastTxID == IdAfter(w.db, w.lastTxID, ReplyOf(w.pulls[i]), disk)
            && done.pulls == w.pulls[i := Finished(false)] && done.history == w.history
  {}

  lemma {:induction false} CommitsLeavePulls(w: World, commits: seq<Event>)
    requires w.history != [] && forall k | 0 <= k < |commits| :: commits[k].Commit?
    ensures Run(w, commits).pulls == w.pulls
  {
    if commits != [] {
      CommitsLeavePulls(w, commits[..|commits| - 1]);
    }
  }

  /** Reading the id and exporting in a run, with commits in between, answers a pull as
      `HandleSnapshot` does. */
  lemma {:induction false} RunDoesHandleSnapshot(w: World, i: nat, readable: bool, commits: seq<Event>)
    requires w.history != [] && i < |w.pulls| && w.pulls[i].Sent?
    requires forall k | 0 <= k < |commits| :: commits[k].Commit?
    ensures var known, later := w.pulls[i].known, Run(Step(w, ActiveReadsTx(i, readable)), commits);
            Step(later, ActiveExports(i)).pulls == w.pulls[i :=
              if readable && known != 0 && known == Latest(w).id then Finished(true)
              else Carrying(if readable then Some(Latest(w).id) else None, Latest(later))]
  {
    CommitsLeavePulls(Step(w, ActiveReadsTx(i, readable)), commits);
  }

  // ---- when a "not modified" answer is right

  ghost predicate Increasing(history: seq<Version>) {
    forall i, j | 0 <= i < j < |history| :: history[i].id < history[j].id
  }

  predicate Quiet(w: World) {
    forall i | 0 <= i < |w.pulls| :: w.pulls[i].Finished?
  }

  /** Pulls do not overlap. */
  predicate Orderly(w: World, e: Event) {
    e == Begin ==> Quiet(w)
  }

  ghost predicate OrderlyRun(w: World, run: seq<Event>)
    requires w.history != []
  {
    forall i {:trigger run[i]} | 0 <= i < |run| :: Orderly(Run(w, run[..i]), run[i])
  }

  ghost predicate Start(w: World) {
    w.history != [] && w.history[0].id > 0 && Increasing(w.history) && w.lastTxID == 0 && w.pulls == []
  }

  /** The step loads a snapshot into the standby's database. */
  predicate Loads(w: World, e: Event) {
    && e.Reload? && e.i < |w.pulls| && w.pulls[e.i].Carrying?
    && Reloaded(w.db, Some(w.pulls[e.i].snap), e.disk).1
  }

  /** The step notes the standby's own id, as none was announced. */
  predicate NotesOwn(w: World, e: Event) {
    e.Note? && e.i < |w.pulls| && w.pulls[e.i].Loaded? && w.pulls[e.i].id.None? && w.db.Some?
  }

  /** What has happened to the standby's database since the last snapshot was loaded: it was
      written to, and, more closely, it was but its own id has been noted since the last write. */
  datatype Since = Since(dirty: bool, own: bool)

  function Next(w: World, t: Since, e: Event): Since {
    if e.LocalWrite? && w.db.Some? then Since(true, false)
    else if Loads(w, e) then Since(false, false)
    else if NotesOwn(w, e) then Since(t.dirty, t.dirty)
    else if e.Note? && e.i < |w.pulls| && w.pulls[e.i].Loaded? then Since(t.dirty, false)
    else t
  }

  function After(w: World, run: seq<Event>): Since
    requires w.history != []
  {
    if run == [] then Since(false, false)
    else
      var front := run[..|run| - 1];
      Next(Run(w, front), After(w, front), run[|run| - 1])
  }

  /** A write has reached the standby's database since the last snapshot was loaded. */
  predicate Dirty(w: World, run: seq<Event>)
    requires w.history != []
  {
    After(w, run).dirty
  }

  /** As `Dirty`, and the standby has noted its own id, including its writes, as the active
      node's. */
  predicate TookOwnId(w: World, run: seq<Event>)
    requires w.history != []
  {
    After(w, run).own
  }

  /** The standby's database against an id: a version of the active node at least as new
      while clean; past the id once dirty; at the id when its own was taken. */
  ghost predicate Against(w: World, t: Since, id: int) {
    w.db.Some? ==>
      if !t.dirty then w.db.value in w.history && w.db.value.id >= id
      else if t.own then w.db.value.id == id
      else w.db.value.id > id
  }

  ghost predicate PullOk(w: World, t: Since, p: Pull)
    requires w.history != []
  {
    match p
    case Sent(known) => known == KnownTx(w.lastTxID)
    case Announced(id) => id.Some? ==> 0 < id.value <= Latest(w).id
    case Carrying(id, snap) => snap in w.history && (id.Some? ==> 0 < id.value <= snap.id)
    case Loaded(id) =>
      && !t.own && (id.Some? ==> Against(w, t, id.value))
      && (w.db.Some? && !t.dirty ==> w.db.value in w.history)
    case Finished(_) => true
  }

  ghost predicate LastPullOk(w: World, t: Since)
    requires w.history != []
  {
    w.pulls != [] ==> PullOk(w, t, w.pulls[|w.pulls| - 1])
  }

  predicate Settled(w: World) {
    w.pulls == [] || !w.pulls[|w.pulls| - 1].Loaded?
  }

  /** The invariant: the noted id and the standby's database are related as `Against` says,
      except while a new snapshot is loaded whose id is not yet noted. */
  ghost predicate Inv(w: World, t: Since) {
    && w.history != [] && w.history[0].id > 0 && Increasing(w.history)
    && (t.own ==> t.dirty)
    && (forall i | 0 <= i < |w.pulls| - 1 :: w.pulls[i].Finished?)
    && LastPullOk(w, t)
    && (Settled(w) && w.lastTxID > 0 ==> Against(w, t, w.lastTxID))
  }

  lemma {:induction false} CommitKeepsInv(w: World, t: Since, v: Version)
    requires Inv(w, t)
    ensures Inv(Step(w, Commit(v)), t)
  {
    assert forall x | x in w.history :: x in w.history + [v];
  }

  lemma {:induction false} PullKeepsInv(w: World, t: Since, e: Event)
    requires Inv(w, t) && Orderly(w, e)
    requires e.Begin? || e.ActiveReadsTx? || e.ActiveExports? || e.Lose?
    ensures Inv(Step(w, e), t)
  {
    assert Latest(w) in w.history;
    LatestIsPositive(w);
  }

  lemma {:induction false} LatestIsPositive(w: World)
    requires w.history != [] && w.history[0].id > 0 && Increasing(w.history)
    ensures Latest(w).id > 0
  {
    assert |w.history| > 1 ==> w.history[0].id < w.history[|w.history| - 1].id;
  }

  lemma {:induction false} WriteKeepsInv(w: World, t: Since, data: Data)
    requires Inv(w, t)
    ensures Inv(Step(w, LocalWrite(data)), Next(w, t, LocalWrite(data)))
  {}

  lemma {:induction false} ReloadKeepsInv(w: World, t: Since, i: nat, disk: Disk)
    requires Inv(w, t)
    ensures Inv(Step(w, Reload(i, disk)), Next(w, t, Reload(i, disk)))
  {
    if i < |w.pulls| && w.pulls[i].Carrying? {
      assert i == |w.pulls| - 1;
    }
  }

  lemma {:induction false} NoteKeepsInv(w: World, t: Since, i: nat)
    requires Inv(w, t)
    ensures Inv(Step(w, Note(i)), Next(w, t, Note(i)))
  {
    if i < |w.pulls| && w.pulls[i].Loaded? {
      assert i == |w.pulls| - 1;
    }
  }

  lemma {:induction false} StepKeepsInv(w: World, t: Since, e: Event)
    requires Inv(w, t) && Orderly(w, e)
    ensures Inv(Step(w, e), Next(w, t, e))
  {
    match e
    case Commit(v) => CommitKeepsInv(w, t, v);
    case LocalWrite(data) => WriteKeepsInv(w, t, data);
    case Reload(i, disk) => ReloadKeepsInv(w, t, i, disk);
    case Note(i) => NoteKeepsInv(w, t, i);
    case _ => PullKeepsInv(w, t, e);
  }

  lemma {:induction false} FrontIsOrderly(w: World, run: seq<Event>)
    requires w.history != [] && run != [] && OrderlyRun(w, run)
    ensures OrderlyRun(w, run[..|run| - 1]) && Orderly(Run(w, run[..|run| - 1]), run[|run| - 1])
  {
    var front := run[..|run| - 1];
    forall i {:trigger front[i]} | 0 <= i < |front| ensures Orderly(Run(w, front[..i]), front[i]) {
      assert front[..i] == run[..i] && front[i] == run[i];
    }
    assert Orderly(Run(w, run[..|run| - 1]), run[|run| - 1]);
  }

  lemma {:induction false} RunKeepsInv(w: World, run: seq<Event>)
    requires Start(w) && OrderlyRun(w, run)
    ensures Inv(Run(w, run), After(w, run))
  {
    if run != [] {
      FrontIsOrderly(w, run);
      RunKeepsInv(w, run[..|run| - 1]);
      StepKeepsInv(Run(w, run[..|run| - 1]), After(w, run[..|run| - 1]), run[|run| - 1]);
    }
  }

  lemma {:induction false} SameIdSameVersion(history: seq<Version>, u: Version, v: Version)
    requires Increasing(history) && u in history && v in history && u.id == v.id
    ensures u == v
  {
    var i :| 0 <= i < |history| && history[i] == u;
    var j :| 0 <= j < |history| && history[j] == v;
    assert i < j || j < i || i == j;
  }

  lemma {:induction false} NoneNewer(history: seq<Version>, v: Version)
    requires Increasing(history) && v in history
    ensures v.id <= history[|history| - 1].id
  {
    var i :| 0 <= i < |history| && history[i] == v;
  }

  lemma {:induction false} AnswerIsRight(w: World, t: Since, i: nat)
    requires Inv(w, t) && Answers304(w, i)
    ensures w.db == Some(Latest(w)) <==>
      w.db.Some? && (!t.dirty || (t.own && w.db.value.data == Latest(w).data))
  {
    assert i == |w.pulls| - 1;
    if w.db.Some? && !t.dirty {
      NoneNewer(w.history, w.db.value);
      SameIdSameVersion(w.history, w.db.value, Latest(w));
    }
  }

  /** After any run of commits, local writes, pulls that do not overlap, failures, lost
      connections and unreadable ids: when the active node would answer "not modified", the
      standby's database is the active node's current one exactly when it is open and has
      not been written to since the last snapshot; or, where the standby took its own id for
      the active node's, when the contents agree by chance. */
  lemma {:induction false} NotModifiedExactly(w: World, run: seq<Event>, i: nat)
    requires Start(w) && OrderlyRun(w, run) && Answers304(Run(w, run), i)
    ensures var v := Run(w, run);
            v.db == Some(Latest(v)) <==>
              && v.db.Some?
              && (!Dirty(w, run) || (TookOwnId(w, run) && v.db.value.data == Latest(v).data))
  {
    RunKeepsInv(w, run);
    AnswerIsRight(Run(w, run), After(w, run), i);
  }

  // ---- while the active node can read its id

  /** The active node never fails to read its own id. */
  ghost predicate IdsReadable(run: seq<Event>) {
    forall k | 0 <= k < |run| && run[k].ActiveReadsTx? :: run[k].readable
  }

  ghost predicate PullAhead(w: World, p: Pull)
    requires w.history != []
  {
    match p
    case Announced(id) => id.Some? && w.lastTxID < id.value <= Latest(w).id
    case Carrying(id, _) => id.Some? && w.lastTxID < id.value <= Latest(w).id
    case Loaded(id) => id.Some? && w.lastTxID < id.value <= Latest(w).id && w.db.Some?
    case _ => true
  }

  /** A snapshot is sent only when it is newer than what the standby noted, and the standby's
      database is lost only while the noted id is out of date. */
  ghost predicate Ahead(w: World, t: Since) {
    && w.history != [] && !t.own && 0 <= w.lastTxID <= Latest(w).id
    && (0 < w.lastTxID == Latest(w).id ==> w.db.Some?)
    && (w.pulls != [] ==> PullAhead(w, w.pulls[|w.pulls| - 1]))
  }

  lemma {:induction false} StepKeepsAhead(w: World, t: Since, e: Event)
    requires Inv(w, t) && Ahead(w, t) && Orderly(w, e) && (e.ActiveReadsTx? ==> e.readable)
    ensures Ahead(Step(w, e), Next(w, t, e))
  {
    LatestIsPositive(w);
  }

  lemma {:induction false} RunKeepsAhead(w: World, run: seq<Event>)
    requires Start(w) && OrderlyRun(w, run) && IdsReadable(run)
    ensures Ahead(Run(w, run), After(w, run))
  {
    if run == [] {
      LatestIsPositive(w);
    } else {
      var front, last := run[..|run| - 1], run[|run| - 1];
      FrontIsOrderly(w, run);
      RunKeepsInv(w, front);
      assert last.ActiveReadsTx? ==> last.readable;
      RunKeepsAhead(w, front);
      StepKeepsAhead(Run(w, front), After(w, front), last);
    }
  }

  /** While the active node can read its id, a "not modified" answer is right exactly when
      the standby has not been written to since its last snapshot. */
  lemma {:induction false} NotModifiedIsSound(w: World, run: seq<Event>, i: nat)
    requires Start(w) && OrderlyRun(w, run) && IdsReadable(run) && Answers304(Run(w, run), i)
    ensures Run(w, run).db == Some(Latest(Run(w, run))) <==> !Dirty(w, run)
  {
    RunKeepsAhead(w, run);
    RunKeepsInv(w, run);
    assert i == |Run(w, run).pulls| - 1;
    NotModifiedExactly(w, run, i);
  }

  // ---- overlapping pulls

  ghost predicate NoLocalWrites(run: seq<Event>) {
    forall k | 0 <= k < |run| :: !run[k].LocalWrite?
  }

  lemma {:induction false} CleanWithoutWrites(w: World, run: seq<Event>)
    requires w.history != [] && NoLocalWrites(run)
    ensures !Dirty(w, run)
  {
    if run != [] {
      CleanWithoutWrites(w, run[..|run| - 1]);
    }
  }

  predicate Exports(w: World, e: Event, i: nat) {
    e == ActiveExports(i) && i < |w.pulls| && w.pulls[i].Announced?
  }

  /** How many versions there were when the snapshot of pull `i` was exported; 0 if it was not. */
  ghost function ExportedAt(w: World, run: seq<Event>, i: nat): nat
    requires w.history != []
  {
    if run == [] then 0
    else
      var front := run[..|run| - 1];
      var before := Run(w, front);
      if Exports(before, run[|run| - 1], i) then |before.history|
      else ExportedAt(w, front, i)
  }

  /** How many there were when the snapshot was exported that was loaded last; 0 if none was. */
  ghost function LoadedAt(w: World, run: seq<Event>): nat
    requires w.history != []
  {
    if run == [] then 0
    else
      var front, e := run[..|run| - 1], run[|run| - 1];
      if Loads(Run(w, front), e) then ExportedAt(w, front, e.i) else LoadedAt(w, front)
  }

  /** What travels was the latest version at its export; so was what the standby holds, if it
      has not been written to. */
  ghost predicate Traced(v: World, dirty: bool, exported: nat -> nat, at: nat, db0: Option<Version>) {
    && v.history != [] && Increasing(v.history) && at <= |v.history|
    && (forall i | 0 <= i < |v.pulls| && v.pulls[i].Carrying? :: SnapFrom(v, i, exported(i)))
    && (v.db.Some? && !dirty ==> if at == 0 then v.db == db0 else v.db.value == v.history[at - 1])
  }

  ghost predicate SnapFrom(v: World, i: nat, at: nat)
    requires i < |v.pulls| && v.pulls[i].Carrying?
  {
    0 < at <= |v.history| && v.pulls[i].snap == v.history[at - 1]
  }

  /** One pull, and the snapshot it may carry, over one step. */
  lemma {:induction false} PullKeepsTrace(v: World, e: Event, exported: nat -> nat, i: nat)
    requires v.history != [] && i < |Step(v, e).pulls| && Step(v, e).pulls[i].Carrying?
    requires i < |v.pulls| && v.pulls[i].Carrying? ==> SnapFrom(v, i, exported(i))
    ensures SnapFrom(Step(v, e), i, if Exports(v, e, i) then |v.history| else exported(i))
  {
    assert i < |v.pulls|;
    assert Exports(v, e, i) || v.pulls[i].Carrying?;
  }

  lemma {:induction false} HistoryGrows(v: World, e: Event)
    requires v.history != [] && Increasing(v.history)
    ensures v.history <= Step(v, e).history && Increasing(Step(v, e).history)
  {}

  /** The standby's database over one step. */
  lemma {:induction false} DbKeepsTrace(v: World, t: Since, e: Event, exported: nat -> nat, at: nat,
                                        db0: Option<Version>)
    requires Traced(v, t.dirty, exported, at, db0)
    ensures var s, dirty, to := Step(v, e), Next(v, t, e).dirty, if Loads(v, e) then exported(e.i) else at;
      && to <= |s.history|
      && (s.db.Some? && !dirty ==> if to == 0 then s.db == db0 else s.db.value == s.history[to - 1])
  {
    HistoryGrows(v, e);
    if Loads(v, e) {
      assert SnapFrom(v, e.i, exported(e.i));
    }
  }

  lemma {:induction false} StepKeepsTrace(v: World, t: Since, e: Event, exported: nat -> nat, now: nat -> nat,
                                          at: nat, db0: Option<Version>)
    requires Traced(v, t.dirty, exported, at, db0)
    requires forall i: nat :: now(i) == if Exports(v, e, i) then |v.history| else exported(i)
    ensures Traced(Step(v, e), Next(v, t, e).dirty, now, if Loads(v, e) then exported(e.i) else at, db0)
  {
    var s := Step(v, e);
    HistoryGrows(v, e);
    DbKeepsTrace(v, t, e, exported, at, db0);
    forall i | 0 <= i < |s.pulls| && s.pulls[i].Carrying? ensures SnapFrom(s, i, now(i)) {
      PullKeepsTrace(v, e, exported, i);
    }
  }

  lemma {:induction false} RunKeepsTrace(w: World, run: seq<Event>)
    requires Start(w)
    ensures Traced(Run(w, run), Dirty(w, run), i => ExportedAt(w, run, i), LoadedAt(w, run), w.db)
  {
    if run != [] {
      var front := run[..|run| - 1];
      RunKeepsTrace(w, front);
      StepKeepsTrace(Run(w, front), After(w, front), run[|run| - 1], i => ExportedAt(w, front, i),
                     i => ExportedAt(w, run, i), LoadedAt(w, front), w.db);
    }
  }

  /** After any run at all, pulls overlapping or not: the standby's database, if it has not been
      written to since the last snapshot, is the active node's current one exactly when it is open
      and no commit came after the export of the snapshot that was loaded last. */
  lemma {:induction false} CurrentExactly(w: World, run: seq<Event>)
    requires Start(w) && !Dirty(w, run)
    ensures var v, at := Run(w, run), LoadedAt(w, run);
            v.db == Some(Latest(v)) <==>
              v.db.Some? && if at == 0 then w.db == Some(Latest(v)) else at == |v.history|
  {
    RunKeepsTrace(w, run);
  }

  /** With nothing but commits, pulls and failures, "not modified" is always right exactly
      when pulls are kept from overlapping. */
  lemma {:induction false} PullsSafeExactly(orderly: bool)
    ensures (forall w: World, run: seq<Event>, i: nat |
               && Start(w) && IdsReadable(run) && NoLocalWrites(run) && (orderly ==> OrderlyRun(w, run))
               && Answers304(Run(w, run), i) :: Run(w, run).db == Some(Latest(Run(w, run))))
       <==> orderly
  {
    if orderly {
      forall w: World, run: seq<Event>, i: nat |
        && Start(w) && IdsReadable(run) && NoLocalWrites(run) && OrderlyRun(w, run) && Answers304(Run(w, run), i)
        ensures Run(w, run).db == Some(Latest(Run(w, run)))
      {
        CleanWithoutWrites(w, run);
        NotModifiedIsSound(w, run, i);
      }
    } else {
      var run := OverlappingPullsGoStale();
      assert Answers304(Run(FRESH_WORLD, run), 2);
    }
  }

  // ---- runs in which the answer is wrong

  const GOOD_DISK := Disk(true, true, true, true)
  const OLD_VERSION := Version(1, map["k" := "old"])
  const NEW_VERSION := Version(2, map["k" := "new"])
  const FRESH_WORLD := World([OLD_VERSION], None, 0, [])

  /** Extends a run from `FRESH_WORLD` by one event. */
  lemma {:induction false} Then(run: seq<Event>, w: World, e: Event) returns (run': seq<Event>, w': World)
    requires w == Run(FRESH_WORLD, run)
    ensures run' == run + [e] && w.history != [] && w' == Step(w, e) == Run(FRESH_WORLD, run')
  {
    run', w' := run + [e], Step(w, e);
    assert run'[..|run|] == run;
  }

  lemma {:induction false} SinceOneMore(run: seq<Event>, e: Event)
    ensures After(FRESH_WORLD, run + [e]) == Next(Run(FRESH_WORLD, run), After(FRESH_WORLD, run), e)
  {
    assert (run + [e])[..|run|] == run;
  }

  /** A snapshot is travelling when the active node commits. */
  lemma {:induction false} OneSnapshotTravels() returns (run: seq<Event>, w: World)
    ensures w == Run(FRESH_WORLD, run) && NoLocalWrites(run) && IdsReadable(run)
    ensures w == World([OLD_VERSION, NEW_VERSION], None, 0, [Carrying(Some(1), OLD_VERSION)])
  {
    w := FRESH_WORLD;
    run := [];
    run, w := Then(run, w, Begin);
    run, w := Then(run, w, ActiveReadsTx(0, true));
    run, w := Then(run, w, ActiveExports(0));
    run, w := Then(run, w, Commit(NEW_VERSION));
  }

  /** Two pulls overlap, and a commit comes between them: both snapshots are travelling. */
  lemma {:induction false} TwoSnapshotsTravel() returns (run: seq<Event>, w: World)
    ensures w == Run(FRESH_WORLD, run) && NoLocalWrites(run) && IdsReadable(run)
    ensures w.history == [OLD_VERSION, NEW_VERSION] && w.db == None && w.lastTxID == 0
    ensures w.pulls == [Carrying(Some(1), OLD_VERSION), Carrying(Some(2), NEW_VERSION)]
  {
    run, w := OneSnapshotTravels();
    run, w := Then(run, w, Begin);
    run, w := Then(run, w, ActiveReadsTx(1, true));
    run, w := Then(run, w, ActiveExports(1));
  }

  /** The newer snapshot is loaded first, and the older one over it. */
  lemma {:induction false} OlderLoadedLast() returns (run: seq<Event>, w: World)
    ensures w == Run(FRESH_WORLD, run) && NoLocalWrites(run) && IdsReadable(run)
    ensures w.history == [OLD_VERSION, NEW_VERSION] && w.db == Some(OLD_VERSION) && w.lastTxID == 0
    ensures w.pulls == [Loaded(Some(1)), Loaded(Some(2))]
  {
    run, w := TwoSnapshotsTravel();
    run, w := Then(run, w, Reload(1, GOOD_DISK));
    run, w := Then(run, w, Reload(0, GOOD_DISK));
  }

  /** Two overlapping pulls can leave an older snapshot under a newer id, after which every
      pull is answered "not modified". */
  lemma {:induction false} OverlappingPullsGoStale() returns (run: seq<Event>)
    ensures Start(FRESH_WORLD) && NoLocalWrites(run) && IdsReadable(run)
    ensures Answers304(Run(FRESH_WORLD, run), 2)
    ensures Run(FRESH_WORLD, run).db == Some(OLD_VERSION) && Latest(Run(FRESH_WORLD, run)) == NEW_VERSION
  {
    var w;
    run, w := OlderLoadedLast();
    run, w := Then(run, w, Note(0));
    run, w := Then(run, w, Note(1));
    run, w := Then(run, w, Begin);
  }

  /** The first snapshot is loaded, its id read or not. */
  lemma {:induction false} FirstLoad(readable: bool) returns (run: seq<Event>, w: World)
    ensures w == Run(FRESH_WORLD, run) && NoLocalWrites(run) && (readable ==> IdsReadable(run))
    ensures w == World([OLD_VERSION], Some(OLD_VERSION), 0, [Loaded(if readable then Some(1) else None)])
    ensures After(FRESH_WORLD, run) == Since(false, false)
  {
    w := FRESH_WORLD;
    run := [];
    run, w := Then(run, w, Begin);
    run, w := Then(run, w, ActiveReadsTx(0, readable));
    run, w := Then(run, w, ActiveExports(0));
    SinceOneMore(run, Reload(0, GOOD_DISK));
    run, w := Then(run, w, Reload(0, GOOD_DISK));
  }

  /** A write on the standby goes unnoticed: the next pull is answered "not modified" although
      the databases differ. */
  lemma {:induction false} LocalWriteGoesUnnoticed() returns (run: seq<Event>)
    ensures IdsReadable(run) && Answers304(Run(FRESH_WORLD, run), 1)
    ensures Run(FRESH_WORLD, run).db != Some(Latest(Run(FRESH_WORLD, run)))
  {
    var w;
    run, w := FirstLoad(true);
    run, w := Then(run, w, Note(0));
    run, w := Then(run, w, LocalWrite(map["k" := "mine"]));
    run, w := Then(run, w, Begin);
  }

  /** After one good pull, a second one is sent a snapshot although it is up to date, as the
      active node cannot read its id. */
  lemma {:induction false} SecondSnapshotTravels() returns (run: seq<Event>, w: World)
    ensures w == Run(FRESH_WORLD, run) && NoLocalWrites(run)
    ensures w.history == [OLD_VERSION] && w.db == Some(OLD_VERSION) && w.lastTxID == 1
    ensures w.pulls == [Finished(false), Carrying(None, OLD_VERSION)]
  {
    run, w := FirstLoad(true);
    run, w := Then(run, w, Note(0));
    assert w == World([OLD_VERSION], Some(OLD_VERSION), 1, [Finished(false)]);
    run, w := Then(run, w, Begin);
    run, w := Then(run, w, ActiveReadsTx(1, false));
    run, w := Then(run, w, ActiveExports(1));
  }

  /** When the active node cannot read its id, a failed reload can leave the standby without
      a database under a noted id that is still current. */
  lemma {:induction false} UnreadableIdLosesDatabase() returns (run: seq<Event>)
    ensures NoLocalWrites(run) && Answers304(Run(FRESH_WORLD, run), 2) && Run(FRESH_WORLD, run).db == None
  {
    var w;
    run, w := SecondSnapshotTravels();
    run, w := Then(run, w, Reload(1, GOOD_DISK.(openOk := false)));
    run, w := Then(run, w, Begin);
  }

  /** Nor is a write noticed that comes before the standby takes its own id for the active node's. */
  lemma {:induction false} OwnIdIsMistaken() returns (run: seq<Event>)
    ensures Answers304(Run(FRESH_WORLD, run), 1) && TookOwnId(FRESH_WORLD, run)
    ensures Run(FRESH_WORLD, run).db == Some(Version(2, map["k" := "mine"]))
    ensures Latest(Run(FRESH_WORLD, run)) == NEW_VERSION
  {
    var w;
    run, w := FirstLoad(false);
    SinceOneMore(run, LocalWrite(map["k" := "mine"]));
    run, w := Then(run, w, LocalWrite(map["k" := "mine"]));
    SinceOneMore(run, Note(0));
    run, w := Then(run, w, Note(0));
    SinceOneMore(run, Commit(NEW_VERSION));
    run, w := Then(run, w, Commit(NEW_VERSION));
    SinceOneMore(run, Begin);
    run, w := Then(run, w, Begin);
  }
}
