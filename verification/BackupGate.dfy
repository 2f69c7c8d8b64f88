// packages/minidb/src/backup.ts: the write fence around a backup, as a state machine over the
// steps of writers, compactions, log recoveries and any number of backups. A step is what happens
// between two awaits. The gate, the serializer, the log and compaction behave as op-tracker.ts,
// serialize.ts, wal.ts, wal-group.ts and compaction.ts say.
module BackupGate {
  import opened Wrappers

  /** A write of some value, or a deletion, to a key. */
  datatype Op = Op(id: nat, key: nat)

  type Id = nat

  /** Where backup() stands after it paused the gate; before that it has not begun. Released: its
      turn on the serializer is over, the gate not yet resumed. */
  datatype Phase =
    | Queued | Draining | AwaitingCompaction(run: nat) | AwaitingRecovery | Flushing | Copying
    | Released | Finished

  /** before: what was acknowledged when backup() was called, during: what was in flight then.
      fence: what was acknowledged when its drain completed. snapshot and wal: what it copied of each
      file. dropped: what left the log after the snapshot was copied and before the log was. */
  datatype Backup = Backup(phase: Phase, failed: bool, before: seq<Op>, during: set<Op>, drained: bool, fence: seq<Op>,
                           snapshot: Option<seq<Op>>, wal: Option<seq<Op>>, dropped: seq<Op>)

  /** A compaction flushes the log and notes how much is acknowledged (base); collects the store,
      when `since` writes were acknowledged and `took` were applied and not; renames the snapshot in;
      then renames in the log without what was acknowledged at the flush. */
  datatype Compaction =
    | Idle | Running | Fenced(base: nat) | Taken(base: nat, since: nat, took: seq<Op>) | Rotating(base: nat) | Rotated

  /** A file is a list of writes; what it holds for a key is the last of them to that key. used:
      every write that ever entered. entered: those in flight that have not reached the log. tail:
      those in the log, in flight. dying: those in flight whose flush failed, junk: their bytes while
      they are in the log. history: all that was ever acknowledged. log: the part of it still in the
      log. finished counts compactions. */
  datatype Db = Db(pausers: nat, open: bool, used: set<Op>, entered: set<Op>, tail: seq<Op>, dying: set<Op>,
                   junk: seq<Op>, poisoned: bool, recovering: bool, history: seq<Op>, log: seq<Op>, snapshot: seq<Op>,
                   compaction: Compaction, finished: nat, queue: seq<Id>, backups: map<Id, Backup>)

  datatype Step =
    | Enter(w: Op) | Append(w: Op) | Ack | FailBatch | Fail(w: Op) | Recover | GiveUpRecovery
    | StartCompaction | Fence | TakeSnapshot(unwound: bool) | RotateSnapshot | RotateWal | EndCompaction
    | Call(b: Id) | Begin(b: Id) | PassDrain(b: Id) | PassCompaction(b: Id) | PassRecovery(b: Id) | PassFlush(b: Id)
    | CopySnapshot(b: Id) | CopyWal(b: Id) | Commit(b: Id) | Abort(b: Id) | Resume(b: Id)

  const START := Db(0, true, {}, {}, [], {}, [], false, false, [], [], [], Idle, 0, [], map[])

  // ---- what files hold -------------------------------------------------------

  /** The last write to a key. */
  function Last(ops: seq<Op>, key: nat): (r: Option<Op>)
    ensures r.Some? ==> r.value in ops && r.value.key == key
    ensures r.None? <==> forall w :: w in ops ==> w.key != key
    decreases |ops|
  {
    if ops == [] then None
    else if ops[|ops| - 1].key == key then Some(ops[|ops| - 1])
    else Last(ops[..|ops| - 1], key)
  }

  /** Two lists that hold the same for every key. */
  ghost predicate HoldSame(a: seq<Op>, b: seq<Op>) {
    forall key :: Last(a, key) == Last(b, key)
  }

  function Elems(ops: seq<Op>): set<Op> {
    set w | w in ops
  }

  lemma {:induction false} LastConcat(a: seq<Op>, b: seq<Op>, key: nat)
    ensures Last(a + b, key) == if Last(b, key).Some? then Last(b, key) else Last(a, key)
    decreases |b|
  {
    if b == [] {
      assert a + b == a;
    } else {
      var n := |b| - 1;
      assert (a + b)[|a + b| - 1] == b[n] && (a + b)[..|a + b| - 1] == a + b[..n];
      LastConcat(a, b[..n], key);
    }
  }

  // ---- writers ---------------------------------------------------------------

  function InFlight(db: Db): set<Op> {
    db.entered + Elems(db.tail) + db.dying
  }

  predicate Active(k: Backup) {
    !k.phase.Finished?
  }

  predicate InTurn(k: Backup) {
    !k.phase.Queued? && !k.phase.Released? && !k.phase.Finished?
  }

  predicate PastDrain(k: Backup) {
    InTurn(k) && !k.phase.Draining?
  }

  /** leave(), its write gone already: at the last one out, every waiting drain completes. */
  function Leave(db: Db): Db {
    if InFlight(db) != {} then db
    else db.(backups := map b | b in db.backups :: Drained(db.backups[b], db.history))
  }

  function Drained(k: Backup, history: seq<Op>): Backup {
    if Active(k) && !k.drained then k.(drained := true, fence := history) else k
  }

  /** enter(): refused, never parked, while the gate is closed. */
  function DoEnter(db: Db, w: Op): Option<Db> {
    if !db.open || w in db.used then None else Some(db.(used := db.used + {w}, entered := db.entered + {w}))
  }

  /** The frame joins the log and the write is applied; a poisoned log refuses it, and during a
      rotation writers park. */
  function DoAppend(db: Db, w: Op): Option<Db> {
    if w !in db.entered || db.poisoned || db.compaction.Rotating? then None
    else Some(db.(entered := db.entered - {w}, tail := db.tail + [w]))
  }

  /** The log is flushed in order: the oldest write in it is acknowledged. */
  function DoAck(db: Db): Option<Db> {
    if db.tail == [] then None
    else
      var w := db.tail[0];
      Some(Leave(db.(tail := db.tail[1..], history := db.history + [w], log := db.log + [w])))
  }

  /** A flush fails: every write in the log not acknowledged is lost, and the log is poisoned. */
  function DoFailBatch(db: Db): Option<Db> {
    if db.tail == [] then None
    else Some(db.(tail := [], dying := db.dying + Elems(db.tail), junk := db.junk + db.tail, poisoned := true))
  }

  /** A write that never reached the log, or whose flush failed, gives up; if the log is poisoned it
      sees to a recovery. */
  function DoFail(db: Db, w: Op): Option<Db> {
    if w !in db.entered && w !in db.dying then None
    else
      Some(Leave(db.(entered := db.entered - {w}, dying := db.dying - {w},
                     recovering := db.recovering || db.poisoned)))
  }

  /** Recovery cuts the lost writes off the log. */
  function DoRecover(db: Db): Option<Db> {
    if !db.recovering then None else Some(db.(junk := [], poisoned := false, recovering := false))
  }

  function DoGiveUpRecovery(db: Db): Option<Db> {
    if !db.recovering then None else Some(db.(recovering := false))
  }

  // ---- compaction ------------------------------------------------------------

  /** Anyone may start one: a committed write, a caller of compact(), or a backup before it pauses
      the gate. */
  function DoStartCompaction(db: Db): Option<Db> {
    if !db.compaction.Idle? then None else Some(db.(compaction := Running))
  }

  /** The first flush, refused by a poisoned log. */
  function DoFence(db: Db): Option<Db> {
    if !db.compaction.Running? || db.poisoned then None else Some(db.(compaction := Fenced(|db.history|)))
  }

  /** The store is collected: what is acknowledged and, over it, what is applied and in flight; if
      the writes of a failed flush are not unwound yet, those too. */
  function DoTakeSnapshot(db: Db, unwound: bool): Option<Db> {
    if !db.compaction.Fenced? then None
    else
      var took := if unwound || db.dying == {} then db.tail else db.junk + db.tail;
      Some(db.(compaction := Taken(db.compaction.base, |db.history|, took)))
  }

  /** The log is sealed and flushed, so nothing in it is in flight; then the snapshot is renamed in. */
  function DoRotateSnapshot(db: Db): Option<Db> {
    if !db.compaction.Taken? || db.poisoned || db.tail != [] || db.compaction.since > |db.history| then None
    else
      Some(db.(snapshot := db.history[..db.compaction.since] + db.compaction.took,
               compaction := Rotating(db.compaction.base)))
  }

  /** How much of the log the new one leaves out. */
  function Dropping(db: Db): nat
    requires db.compaction.Rotating?
  {
    var start := |db.history| - |db.log|;
    if start <= db.compaction.base <= |db.history| then db.compaction.base - start else 0
  }

  function DoRotateWal(db: Db): Option<Db> {
    if !db.compaction.Rotating? || Dropping(db) > |db.log| then None
    else
      var n := Dropping(db);
      Some(db.(log := db.log[n..], compaction := Rotated,
               backups := map b | b in db.backups :: Missed(db.backups[b], db.log[..n])))
  }

  /** What a copy under way, its snapshot taken and its log not, no longer finds in the log. */
  function Missed(k: Backup, gone: seq<Op>): Backup {
    if k.phase.Copying? && k.snapshot.Some? && k.wal.None? then k.(dropped := k.dropped + gone) else k
  }

  /** Finished or failed, at any point; the files stay as they are. */
  function DoEndCompaction(db: Db): Option<Db> {
    if db.compaction.Idle? then None else Some(db.(compaction := Idle, finished := db.finished + 1))
  }

  // ---- backups ---------------------------------------------------------------

  /** pause(), and the place in the serializer's queue, both in the calling segment. */
  function DoCall(db: Db, b: Id): Option<Db> {
    if b in db.backups then None
    else
      var idle := InFlight(db) == {};
      Some(db.(pausers := db.pausers + 1, open := false, queue := db.queue + [b],
               backups := db.backups[b := Backup(Queued, false, db.history, InFlight(db), idle,
                                                 if idle then db.history else [], None, None, [])]))
  }

  function To(db: Db, b: Id, phase: Phase): Db
    requires b in db.backups
  {
    db.(backups := db.backups[b := db.backups[b].(phase := phase)])
  }

  predicate At(db: Db, b: Id, phase: Phase) {
    b in db.backups && db.backups[b].phase == phase
  }

  function DoBegin(db: Db, b: Id): Option<Db> {
    if db.queue == [] || db.queue[0] != b || !At(db, b, Queued) then None else Some(To(db, b, Draining))
  }

  function DoPassDrain(db: Db, b: Id): Option<Db> {
    if !At(db, b, Draining) || !db.backups[b].drained then None
    else Some(To(db, b, if db.compaction.Idle? then AwaitingRecovery else AwaitingCompaction(db.finished)))
  }

  function DoPassCompaction(db: Db, b: Id): Option<Db> {
    if b !in db.backups || !db.backups[b].phase.AwaitingCompaction? || db.finished <= db.backups[b].phase.run then None
    else Some(To(db, b, AwaitingRecovery))
  }

  function DoPassRecovery(db: Db, b: Id): Option<Db> {
    if !At(db, b, AwaitingRecovery) || db.recovering then None else Some(To(db, b, Flushing))
  }

  /** flush() of a poisoned log is refused. */
  function DoPassFlush(db: Db, b: Id): Option<Db> {
    if !At(db, b, Flushing) || db.poisoned then None else Some(To(db, b, Copying))
  }

  function DoCopySnapshot(db: Db, b: Id): Option<Db> {
    if !At(db, b, Copying) || db.backups[b].snapshot.Some? then None
    else Some(db.(backups := db.backups[b := db.backups[b].(snapshot := Some(db.snapshot))]))
  }

  /** The log as it is on disk, failed writes not yet cut off included. */
  function DoCopyWal(db: Db, b: Id): Option<Db> {
    if !At(db, b, Copying) || db.backups[b].wal.Some? then None
    else Some(db.(backups := db.backups[b := db.backups[b].(wal := Some(db.log + db.junk + db.tail))]))
  }

  /** The serialized body is over, well or not: the next in the queue may begin. */
  function Release(db: Db, b: Id, failed: bool): Db
    requires b in db.backups && db.queue != []
  {
    db.(queue := db.queue[1..], backups := db.backups[b := db.backups[b].(phase := Released, failed := failed)])
  }

  function DoCommit(db: Db, b: Id): Option<Db> {
    if !At(db, b, Copying) || db.backups[b].snapshot.None? || db.backups[b].wal.None? || db.queue == [] then None
    else Some(Release(db, b, false))
  }

  function DoAbort(db: Db, b: Id): Option<Db> {
    if b !in db.backups || !InTurn(db.backups[b]) || db.queue == [] then None else Some(Release(db, b, true))
  }

  /** resume(), in the finally: the last one out opens the gate. */
  function DoResume(db: Db, b: Id): Option<Db> {
    if !At(db, b, Released) || db.pausers == 0 then None
    else Some(To(db, b, Finished).(pausers := db.pausers - 1, open := db.pausers == 1))
  }

  function Apply(db: Db, step: Step): Option<Db> {
    match step
    case Enter(w) => DoEnter(db, w)
    case Append(w) => DoAppend(db, w)
    case Ack => DoAck(db)
    case FailBatch => DoFailBatch(db)
    case Fail(w) => DoFail(db, w)
    case Recover => DoRecover(db)
    case GiveUpRecovery => DoGiveUpRecovery(db)
    case StartCompaction => DoStartCompaction(db)
    case Fence => DoFence(db)
    case TakeSnapshot(unwound) => DoTakeSnapshot(db, unwound)
    case RotateSnapshot => DoRotateSnapshot(db)
    case RotateWal => DoRotateWal(db)
    case EndCompaction => DoEndCompaction(db)
    case Call(b) => DoCall(db, b)
    case Begin(b) => DoBegin(db, b)
    case PassDrain(b) => DoPassDrain(db, b)
    case PassCompaction(b) => DoPassCompaction(db, b)
    case PassRecovery(b) => DoPassRecovery(db, b)
    case PassFlush(b) => DoPassFlush(db, b)
    case CopySnapshot(b) => DoCopySnapshot(db, b)
    case CopyWal(b) => DoCopyWal(db, b)
    case Commit(b) => DoCommit(db, b)
    case Abort(b) => DoAbort(db, b)
    case Resume(b) => DoResume(db, b)
  }

  /** The state a run ends in, if every step of it was possible. */
  function After(steps: seq<Step>): Option<Db> {
    if steps == [] then Some(START)
    else
      match After(steps[..|steps| - 1])
      case None => None
      case Some(db) => Apply(db, steps[|steps| - 1])
  }

  // ---- what every step keeps -------------------------------------------------

  predicate NoTwice(ops: seq<Op>) {
    forall i, j :: 0 <= i < j < |ops| ==> ops[i] != ops[j]
  }

  /** Each write is in one place at most. */
  ghost predicate WritesFit(db: Db) {
    && InFlight(db) + Elems(db.history) + Elems(db.junk) <= db.used
    && NoTwice(db.tail)
    && (forall w :: w in db.tail ==> w !in db.entered && w !in db.dying && w !in db.history && w !in db.junk)
    && (forall w :: w in db.entered ==> w !in db.dying && w !in db.history && w !in db.junk)
    && (forall w :: w in db.dying ==> w !in db.history)
    && (forall w :: w in db.junk ==> w !in db.history)
    && (!db.poisoned ==> db.junk == [])
  }

  predicate IsEnd(s: seq<Op>, whole: seq<Op>) {
    |s| <= |whole| && s == whole[|whole| - |s|..]
  }

  /** For keys not written from position `at` on, the snapshot holds what was acknowledged, or a
      write that never was. */
  ghost predicate SnapshotFits(snapshot: seq<Op>, history: seq<Op>, at: nat)
    requires at <= |history|
  {
    forall key :: Last(history[at..], key).None? ==> KeyFits(snapshot, history, key)
  }

  ghost predicate KeyFits(snapshot: seq<Op>, history: seq<Op>, key: nat) {
    var held := Last(snapshot, key);
    held == Last(history, key) || (held.Some? && held.value !in history)
  }

  /** Writes kept in a snapshot are acknowledged or gone for good. */
  ghost predicate Settled(db: Db, ops: seq<Op>) {
    forall w :: w in ops ==> w in db.used && w !in db.entered && w !in db.tail
  }

  /** The log is the end of the history, and the snapshot fits the rest. */
  ghost predicate FilesFit(db: Db) {
    && IsEnd(db.log, db.history)
    && SnapshotFits(db.snapshot, db.history, |db.history| - |db.log|)
    && Settled(db, db.snapshot)
  }

  /** What the compaction under way has noted. */
  ghost predicate CompactionFits(db: Db) {
    match db.compaction
    case Fenced(base) => |db.history| - |db.log| <= base <= |db.history|
    case Taken(base, since, took) =>
      && |db.history| - |db.log| <= base <= since <= |db.history|
      && forall w :: w in took ==> w in db.used && w !in db.entered && (w in db.history ==> w in db.history[since..])
    case Rotating(base) =>
      && |db.history| - |db.log| <= base <= |db.history| && db.tail == []
      && SnapshotFits(db.snapshot, db.history, base)
    case _ => true
  }

  ghost function Actives(db: Db): set<Id> {
    set b | b in db.backups && Active(db.backups[b])
  }

  /** The gate counts the backups that have not resumed. */
  ghost predicate GateFits(db: Db) {
    db.pausers == |Actives(db)| && (db.open <==> Actives(db) == {})
  }

  /** The queue holds each backup waiting or in its turn once, and only its head is in its turn. */
  predicate QueueFits(db: Db) {
    && (forall i :: 0 <= i < |db.queue| ==> db.queue[i] in db.backups && QueuedFits(db, i))
    && (forall b :: b in db.backups && (db.backups[b].phase.Queued? || InTurn(db.backups[b])) ==> b in db.queue)
    && (forall i, j :: 0 <= i < j < |db.queue| ==> db.queue[i] != db.queue[j])
  }

  predicate QueuedFits(db: Db, i: nat)
    requires i < |db.queue| && db.queue[i] in db.backups
  {
    var k := db.backups[db.queue[i]];
    k.phase.Queued? || (i == 0 && InTurn(k))
  }

  ghost predicate BackupsFit(db: Db) {
    forall b :: b in db.backups ==> FenceFits(db, db.backups[b]) && CopyFits(db, db.backups[b])
  }

  /** Acknowledged since, and only what was in flight then. */
  ghost predicate Follows(before: seq<Op>, after: seq<Op>, during: set<Op>) {
    before <= after && Elems(after[|before|..]) <= during
  }

  /** From call to resume nothing enters, and after the drain nothing is acknowledged. */
  ghost predicate FenceFits(db: Db, k: Backup) {
    && (Active(k) ==> Follows(k.before, db.history, k.during) && InFlight(db) <= k.during)
    && (k.drained ==> Follows(k.before, k.fence, k.during))
    && (Active(k) && k.drained ==> InFlight(db) == {} && k.fence == db.history)
    && (PastDrain(k) || ((k.phase.Released? || k.phase.Finished?) && !k.failed) ==> k.drained)
  }

  /** How what was copied so far relates to the fence. */
  ghost predicate CopyFits(db: Db, k: Backup) {
    && (k.phase.Copying? ==> !db.poisoned && CopiedFits(db, k))
    && ((!k.phase.Copying? && InTurn(k)) || k.phase.Queued? ==> k.snapshot.None? && k.wal.None? && k.dropped == [])
    && ((k.phase.Released? || k.phase.Finished?) && !k.failed ==> BothFit(k))
  }

  ghost predicate CopiedFits(db: Db, k: Backup) {
    match (k.snapshot, k.wal)
    case (None, None) => k.dropped == []
    case (None, Some(l)) => k.dropped == [] && IsEnd(l, k.fence) && |db.log| <= |l|
    case (Some(s), None) =>
      IsEnd(k.dropped + db.log, k.fence) && SnapshotFits(s, k.fence, |k.fence| - |k.dropped + db.log|)
    case (Some(_), Some(_)) => BothFit(k)
  }

  /** The log copied, with what was dropped before it, is the end of the fence, and the snapshot
      copied fits the rest. */
  ghost predicate BothFit(k: Backup) {
    && k.snapshot.Some? && k.wal.Some? && IsEnd(k.dropped + k.wal.value, k.fence)
    && SnapshotFits(k.snapshot.value, k.fence, |k.fence| - |k.dropped + k.wal.value|)
  }

  ghost predicate Fits(db: Db) {
    WritesFit(db) && FilesFit(db) && CompactionFits(db) && GateFits(db) && QueueFits(db) && BackupsFit(db)
  }

  /** While a write is in flight no waiting backup is past its drain. */
  lemma NoneDrained(db: Db, w: Op, k: Backup)
    requires FenceFits(db, k) && w in InFlight(db)
    ensures Active(k) ==> !k.drained && w in k.during
    ensures !PastDrain(k)
  {
  }

  /** Backups in the same phases, under the same gate and queue. */
  ghost predicate SamePhases(db: Db, next: Db) {
    && next.pausers == db.pausers && next.open == db.open && next.queue == db.queue
    && next.backups.Keys == db.backups.Keys
    && forall b :: b in db.backups ==> next.backups[b].phase == db.backups[b].phase
  }

  lemma SamePhasesFit(db: Db, next: Db)
    requires GateFits(db) && QueueFits(db) && SamePhases(db, next)
    ensures GateFits(next) && QueueFits(next)
  {
    assert Actives(next) == Actives(db);
    forall i | 0 <= i < |next.queue|
      ensures next.queue[i] in next.backups && QueuedFits(next, i)
    {
      assert QueuedFits(db, i);
    }
  }

  lemma EnterKeeps(db: Db, w: Op)
    requires Fits(db) && DoEnter(db, w).Some?
    ensures Fits(DoEnter(db, w).value)
  {
    hide SnapshotFits;
    var next := DoEnter(db, w).value;
    SamePhasesFit(db, next);
    forall b | b in db.backups
      ensures FenceFits(next, db.backups[b]) && CopyFits(next, db.backups[b])
    {
      assert b in Actives(db) <==> Active(db.backups[b]);
    }
  }

  lemma AppendKeeps(db: Db, w: Op)
    requires Fits(db) && DoAppend(db, w).Some?
    ensures Fits(DoAppend(db, w).value)
  {
    hide SnapshotFits, GateFits, QueueFits, Follows, BothFit;
    var next := DoAppend(db, w).value;
    SamePhasesFit(db, next);
    assert Elems(next.tail) == Elems(db.tail) + {w};
    assert InFlight(next) == InFlight(db) && w in InFlight(db);
    forall b | b in db.backups
      ensures FenceFits(next, db.backups[b]) && CopyFits(next, db.backups[b])
    {
      NoneDrained(db, w, db.backups[b]);
    }
  }

  /** Steps that change what is in flight, the history and the log, then leave. */
  ghost predicate OnlyWrites(db: Db, mid: Db) {
    && mid == db.(entered := mid.entered, tail := mid.tail, dying := mid.dying, recovering := mid.recovering,
                  history := mid.history, log := mid.log)
    && InFlight(mid) <= InFlight(db)
    && (mid.history == db.history || exists w :: w in InFlight(db) && mid.history == db.history + [w])
  }

  /** One backup, when a write that was in flight is gone. */
  lemma DrainedFits(db: Db, mid: Db, w: Op, k: Backup)
    requires FenceFits(db, k) && CopyFits(db, k) && OnlyWrites(db, mid) && w in InFlight(db)
    ensures var next := Leave(mid);
            var kept := if InFlight(mid) == {} then Drained(k, mid.history) else k;
            FenceFits(next, kept) && CopyFits(next, kept)
  {
    hide SnapshotFits, BothFit, Follows;
    NoneDrained(db, w, k);
    if Active(k) && mid.history != db.history {
      var v :| v in InFlight(db) && mid.history == db.history + [v];
      FollowsOn(k.before, db.history, k.during, v);
    }
  }

  lemma FollowsOn(before: seq<Op>, after: seq<Op>, during: set<Op>, w: Op)
    requires Follows(before, after, during) && w in during
    ensures Follows(before, after + [w], during)
  {
    assert (after + [w])[|before|..] == after[|before|..] + [w];
  }

  lemma LeaveKeeps(db: Db, mid: Db, w: Op)
    requires Fits(db) && OnlyWrites(db, mid) && w in InFlight(db)
    requires WritesFit(mid) && FilesFit(mid) && CompactionFits(mid)
    ensures Fits(Leave(mid))
  {
    hide FenceFits, CopyFits, WritesFit, FilesFit, CompactionFits, GateFits, QueueFits, OnlyWrites;
    var next := Leave(mid);
    OnlyBackups(mid, next);
    assert db.backups == mid.backups && SamePhases(db, next) by {
      SamePhasesLeft(db, mid);
    }
    SamePhasesFit(db, next);
    forall b | b in db.backups
      ensures FenceFits(next, next.backups[b]) && CopyFits(next, next.backups[b])
    {
      DrainedFits(db, mid, w, db.backups[b]);
    }
  }

  lemma SamePhasesLeft(db: Db, mid: Db)
    requires OnlyWrites(db, mid)
    ensures db.backups == mid.backups && SamePhases(db, Leave(mid))
  {
  }

  /** Only gate, queue and backups differ. */
  lemma OnlyBackups(db: Db, next: Db)
    requires next == db.(pausers := next.pausers, open := next.open, queue := next.queue, backups := next.backups)
    ensures WritesFit(next) <==> WritesFit(db)
    ensures FilesFit(next) <==> FilesFit(db)
    ensures CompactionFits(next) <==> CompactionFits(db)
  {
    hide SnapshotFits, NoTwice;
  }

  /** More history hides nothing a snapshot got wrong. */
  lemma SnapshotStillFits(snapshot: seq<Op>, history: seq<Op>, at: nat, w: Op)
    requires at <= |history| && SnapshotFits(snapshot, history, at) && w !in snapshot
    ensures SnapshotFits(snapshot, history + [w], at)
  {
    forall key | Last((history + [w])[at..], key).None?
      ensures KeyFits(snapshot, history + [w], key)
    {
      assert (history + [w])[at..] == history[at..] + [w];
      LastConcat(history[at..], [w], key);
      LastConcat(history, [w], key);
      assert w in history[at..] + [w];
    }
  }

  lemma SnapshotFitsEarlier(snapshot: seq<Op>, history: seq<Op>, at: nat, earlier: nat)
    requires earlier <= at <= |history| && SnapshotFits(snapshot, history, at)
    ensures SnapshotFits(snapshot, history, earlier)
  {
    forall key | Last(history[earlier..], key).None?
      ensures KeyFits(snapshot, history, key)
    {
      assert forall w :: w in history[at..] ==> w in history[earlier..];
    }
  }

  lemma AckWritesFit(db: Db, w: Op)
    requires WritesFit(db) && db.tail != [] && w == db.tail[0]
    ensures WritesFit(db.(tail := db.tail[1..], history := db.history + [w], log := db.log + [w]))
    ensures InFlight(db.(tail := db.tail[1..])) <= InFlight(db) && w in InFlight(db)
  {
    assert db.tail == [w] + db.tail[1..];
    assert w !in db.tail[1..];
  }

  lemma AckKeeps(db: Db)
    requires Fits(db) && DoAck(db).Some?
    ensures Fits(DoAck(db).value)
  {
    hide GateFits, QueueFits, BackupsFit;
    var w := db.tail[0];
    var mid := db.(tail := db.tail[1..], history := db.history + [w], log := db.log + [w]);
    AckWritesFit(db, w);
    AckFilesFit(db, w, mid);
    LeaveKeeps(db, mid, w);
  }

  lemma AckFilesFit(db: Db, w: Op, mid: Db)
    requires WritesFit(db) && FilesFit(db) && CompactionFits(db) && db.tail != [] && w == db.tail[0]
    requires mid == db.(tail := db.tail[1..], history := db.history + [w], log := db.log + [w])
    ensures FilesFit(mid) && CompactionFits(mid)
  {
    hide SnapshotFits;
    var start := |db.history| - |db.log|;
    assert w in db.tail && w !in db.snapshot;
    SnapshotStillFits(db.snapshot, db.history, start, w);
    if db.compaction.Taken? {
      var since := db.compaction.since;
      assert mid.history[since..] == db.history[since..] + [w];
    }
  }

  lemma FailKeeps(db: Db, w: Op)
    requires Fits(db) && DoFail(db, w).Some?
    ensures Fits(DoFail(db, w).value)
  {
    hide GateFits, QueueFits, BackupsFit, SnapshotFits;
    var mid := db.(entered := db.entered - {w}, dying := db.dying - {w}, recovering := db.recovering || db.poisoned);
    LeaveKeeps(db, mid, w);
  }

  lemma FailBatchKeeps(db: Db)
    requires Fits(db) && DoFailBatch(db).Some?
    ensures Fits(DoFailBatch(db).value)
  {
    hide SnapshotFits, GateFits, QueueFits, Follows, BothFit;
    var next := DoFailBatch(db).value;
    SamePhasesFit(db, next);
    var w := db.tail[0];
    assert w in Elems(db.tail) && w in InFlight(db) && InFlight(next) == InFlight(db);
    forall b | b in db.backups
      ensures FenceFits(next, db.backups[b]) && CopyFits(next, db.backups[b])
    {
      NoneDrained(db, w, db.backups[b]);
    }
  }

  lemma RecoverKeeps(db: Db)
    requires Fits(db) && DoRecover(db).Some?
    ensures Fits(DoRecover(db).value)
  {
    hide SnapshotFits, GateFits, QueueFits, Follows, BothFit;
    var next := DoRecover(db).value;
    SamePhasesFit(db, next);
    forall b | b in db.backups
      ensures FenceFits(next, db.backups[b]) && CopyFits(next, db.backups[b])
    {
      assert FenceFits(db, db.backups[b]) && CopyFits(db, db.backups[b]);
    }
  }

  // ---- what the steps of a compaction keep -----------------------------------

  /** Steps that only note how far a compaction or a recovery is. */
  lemma MarksKeep(db: Db, next: Db)
    requires Fits(db) && CompactionFits(next)
    requires next == db.(compaction := next.compaction, finished := next.finished, recovering := next.recovering)
    ensures Fits(next)
  {
    hide SnapshotFits, GateFits, QueueFits, Follows, BothFit, CompactionFits;
    SamePhasesFit(db, next);
    forall b | b in db.backups
      ensures FenceFits(next, db.backups[b]) && CopyFits(next, db.backups[b])
    {
      assert FenceFits(db, db.backups[b]) && CopyFits(db, db.backups[b]);
    }
  }

  lemma TakeSnapshotKeeps(db: Db, unwound: bool)
    requires Fits(db) && DoTakeSnapshot(db, unwound).Some?
    ensures Fits(DoTakeSnapshot(db, unwound).value)
  {
    var next := DoTakeSnapshot(db, unwound).value;
    assert CompactionFits(next) by {
      assert Elems(db.tail) <= db.used && Elems(db.junk) <= db.used;
      forall w | w in next.compaction.took
        ensures w in db.used && w !in db.entered && w !in db.history
      {
        assert w in Elems(db.tail) || w in Elems(db.junk);
      }
    }
    MarksKeep(db, next);
  }

  /** What a compaction collected fits the history from its first flush on. */
  lemma CollectedFits(history: seq<Op>, base: nat, since: nat, took: seq<Op>)
    requires base <= since <= |history|
    requires forall w :: w in took ==> w in history ==> w in history[since..]
    ensures SnapshotFits(history[..since] + took, history, base)
  {
    forall key | Last(history[base..], key).None?
      ensures KeyFits(history[..since] + took, history, key)
    {
      LastConcat(history[..since], took, key);
      assert forall w :: w in history[since..] ==> w in history[base..];
      assert history == history[..since] + history[since..];
      LastConcat(history[..since], history[since..], key);
    }
  }

  lemma RotateSnapshotKeeps(db: Db)
    requires Fits(db) && DoRotateSnapshot(db).Some?
    ensures Fits(DoRotateSnapshot(db).value)
  {
    hide SnapshotFits, GateFits, QueueFits, Follows, BothFit;
    var next := DoRotateSnapshot(db).value;
    var c := db.compaction;
    SamePhasesFit(db, next);
    CollectedFits(db.history, c.base, c.since, c.took);
    SnapshotFitsEarlier(next.snapshot, db.history, c.base, |db.history| - |db.log|);
    assert Settled(next, next.snapshot) by {
      assert Elems(db.history) <= db.used;
      forall w | w in next.snapshot
        ensures w in db.used && w !in db.entered
      {
        assert w in db.history[..c.since] ==> w in Elems(db.history);
      }
    }
    forall b | b in db.backups
      ensures FenceFits(next, db.backups[b]) && CopyFits(next, db.backups[b])
    {
      assert FenceFits(db, db.backups[b]) && CopyFits(db, db.backups[b]);
    }
  }

  /** One backup, when the log loses what the snapshot took over. */
  lemma MissedFits(db: Db, next: Db, gone: seq<Op>, k: Backup)
    requires FenceFits(db, k) && CopyFits(db, k)
    requires next == db.(log := next.log, compaction := next.compaction, backups := next.backups)
    requires db.log == gone + next.log
    ensures FenceFits(next, Missed(k, gone)) && CopyFits(next, Missed(k, gone))
  {
    hide SnapshotFits, BothFit, Follows;
    assert k.dropped + db.log == k.dropped + gone + next.log;
  }

  lemma RotateWalKeeps(db: Db)
    requires Fits(db) && DoRotateWal(db).Some?
    ensures Fits(DoRotateWal(db).value)
  {
    hide SnapshotFits, GateFits, QueueFits, FenceFits, CopyFits;
    var next, n := DoRotateWal(db).value, Dropping(db);
    SamePhasesFit(db, next);
    assert db.log == db.log[..n] + next.log;
    forall b | b in db.backups
      ensures FenceFits(next, next.backups[b]) && CopyFits(next, next.backups[b])
    {
      MissedFits(db, next, db.log[..n], db.backups[b]);
    }
  }

  // ---- what the steps of a backup keep ---------------------------------------

  /** For one backup too, only its own state and the writes and files matter. */
  lemma SameWrites(db: Db, next: Db, k: Backup)
    requires next == db.(pausers := next.pausers, open := next.open, queue := next.queue, backups := next.backups)
    ensures FenceFits(next, k) <==> FenceFits(db, k)
    ensures CopyFits(next, k) <==> CopyFits(db, k)
  {
    hide SnapshotFits, BothFit, Follows;
  }

  /** A backup as it is when called. */
  lemma CalledFits(db: Db, k: Backup)
    requires k.phase.Queued? && k.before == db.history && k.during == InFlight(db) && k.drained == (InFlight(db) == {})
    requires k.fence == (if k.drained then db.history else []) && k.snapshot.None? && k.wal.None? && k.dropped == []
    ensures FenceFits(db, k) && CopyFits(db, k)
  {
    assert db.history[|db.history|..] == [];
  }

  lemma CallKeeps(db: Db, b: Id)
    requires Fits(db) && DoCall(db, b).Some?
    ensures Fits(DoCall(db, b).value)
  {
    hide WritesFit, FilesFit, CompactionFits, FenceFits, CopyFits;
    var next := DoCall(db, b).value;
    OnlyBackups(db, next);
    assert b !in Actives(db) && Actives(next) == Actives(db) + {b};
    assert b !in db.queue;
    CalledFits(db, next.backups[b]);
    forall i | 0 <= i < |next.queue|
      ensures next.queue[i] in next.backups && QueuedFits(next, i)
    {
      assert i < |db.queue| ==> QueuedFits(db, i);
    }
    forall c | c in next.backups
      ensures FenceFits(next, next.backups[c]) && CopyFits(next, next.backups[c])
    {
      SameWrites(db, next, next.backups[c]);
    }
  }

  /** A backup in its turn moves on by itself; everything else stays. */
  lemma MoveKeeps(db: Db, b: Id, k: Backup)
    requires Fits(db) && b in db.backups && InTurn(k)
    requires InTurn(db.backups[b]) || (db.queue != [] && db.queue[0] == b && db.backups[b].phase.Queued?)
    requires FenceFits(db, k) && CopyFits(db, k)
    ensures Fits(db.(backups := db.backups[b := k]))
  {
    hide WritesFit, FilesFit, CompactionFits, FenceFits, CopyFits;
    var next := db.(backups := db.backups[b := k]);
    OnlyBackups(db, next);
    assert Actives(next) == Actives(db);
    forall i | 0 <= i < |next.queue|
      ensures next.queue[i] in next.backups && QueuedFits(next, i)
    {
      assert QueuedFits(db, i);
    }
    forall c | c in next.backups
      ensures FenceFits(next, next.backups[c]) && CopyFits(next, next.backups[c])
    {
      SameWrites(db, next, next.backups[c]);
    }
  }

  /** One backup, released. */
  lemma ReleasedFits(db: Db, k: Backup, failed: bool)
    requires FenceFits(db, k) && CopyFits(db, k) && InTurn(k)
    requires failed || (BothFit(k) && PastDrain(k))
    ensures var r := k.(phase := Released, failed := failed); FenceFits(db, r) && CopyFits(db, r)
  {
    hide SnapshotFits, IsEnd, Follows;
  }

  /** The body of a backup ends: the queue moves up. */
  lemma ReleaseKeeps(db: Db, b: Id, failed: bool)
    requires Fits(db) && b in db.backups && InTurn(db.backups[b]) && db.queue != []
    requires failed || (BothFit(db.backups[b]) && PastDrain(db.backups[b]))
    ensures Fits(Release(db, b, failed))
  {
    hide WritesFit, FilesFit, CompactionFits, FenceFits, CopyFits, BothFit;
    var next := Release(db, b, failed);
    OnlyBackups(db, next);
    assert db.queue[0] == b by {
      var i :| 0 <= i < |db.queue| && db.queue[i] == b;
      assert QueuedFits(db, i);
    }
    assert Actives(next) == Actives(db);
    ReleasedFits(db, db.backups[b], failed);
    forall i | 0 <= i < |next.queue|
      ensures next.queue[i] in next.backups && QueuedFits(next, i)
    {
      assert QueuedFits(db, i + 1);
    }
    forall c | c in next.backups
      ensures FenceFits(next, next.backups[c]) && CopyFits(next, next.backups[c])
    {
      SameWrites(db, next, next.backups[c]);
    }
  }

  /** One backup, resumed. */
  lemma ResumedFits(db: Db, k: Backup)
    requires FenceFits(db, k) && CopyFits(db, k) && k.phase.Released?
    ensures FenceFits(db, k.(phase := Finished)) && CopyFits(db, k.(phase := Finished))
  {
    hide SnapshotFits, IsEnd, Follows;
  }

  lemma ResumeKeeps(db: Db, b: Id)
    requires Fits(db) && DoResume(db, b).Some?
    ensures Fits(DoResume(db, b).value)
  {
    hide WritesFit, FilesFit, CompactionFits, FenceFits, CopyFits;
    var next := DoResume(db, b).value;
    OnlyBackups(db, next);
    assert b in Actives(db) && Actives(next) == Actives(db) - {b};
    ResumedFits(db, db.backups[b]);
    forall i | 0 <= i < |next.queue|
      ensures next.queue[i] in next.backups && QueuedFits(next, i)
    {
      assert QueuedFits(db, i);
    }
    forall c | c in next.backups
      ensures FenceFits(next, next.backups[c]) && CopyFits(next, next.backups[c])
    {
      SameWrites(db, next, next.backups[c]);
    }
  }

  /** Waiting steps leave the backup itself fitting. */
  lemma WaitFits(db: Db, k: Backup, phase: Phase)
    requires FenceFits(db, k) && CopyFits(db, k) && (k.phase.Queued? || (InTurn(k) && !k.phase.Copying?))
    requires phase.Draining? || ((phase.AwaitingCompaction? || phase.AwaitingRecovery? || phase.Flushing?) && k.drained)
    ensures var r := k.(phase := phase); FenceFits(db, r) && CopyFits(db, r)
  {
    hide SnapshotFits, BothFit, Follows;
  }

  lemma FlushFits(db: Db, k: Backup)
    requires FenceFits(db, k) && CopyFits(db, k) && k.phase.Flushing? && WritesFit(db) && !db.poisoned
    ensures var r := k.(phase := Copying); FenceFits(db, r) && CopyFits(db, r)
  {
    hide SnapshotFits, BothFit, Follows;
  }

  lemma CopySnapshotFits(db: Db, k: Backup)
    requires FenceFits(db, k) && CopyFits(db, k) && k.phase.Copying? && k.snapshot.None? && FilesFit(db)
    ensures var r := k.(snapshot := Some(db.snapshot)); FenceFits(db, r) && CopyFits(db, r)
  {
    hide SnapshotFits, Follows;
    if k.wal.Some? {
      SnapshotFitsEarlier(db.snapshot, db.history, |db.history| - |db.log|, |db.history| - |k.wal.value|);
      assert [] + k.wal.value == k.wal.value;
    } else {
      assert [] + db.log == db.log;
    }
  }

  lemma NothingInLog(db: Db)
    ensures InFlight(db) == {} ==> db.tail == []
  {
    if db.tail != [] {
      assert db.tail[0] in Elems(db.tail);
    }
  }

  lemma CopyWalFits(db: Db, k: Backup)
    requires FenceFits(db, k) && CopyFits(db, k) && k.phase.Copying? && k.wal.None? && FilesFit(db) && WritesFit(db)
    ensures var r := k.(wal := Some(db.log + db.junk + db.tail)); FenceFits(db, r) && CopyFits(db, r)
  {
    hide SnapshotFits, Follows;
    NothingInLog(db);
    assert db.log + db.junk + db.tail == db.log;
  }

  lemma BeginKeeps(db: Db, b: Id)
    requires Fits(db) && DoBegin(db, b).Some?
    ensures Fits(DoBegin(db, b).value)
  {
    hide WritesFit, FilesFit, CompactionFits, GateFits, QueueFits, FenceFits, CopyFits;
    WaitFits(db, db.backups[b], Draining);
    MoveKeeps(db, b, db.backups[b].(phase := Draining));
  }

  /** A wait is over: the backup goes on to another wait. */
  lemma WaitKeeps(db: Db, b: Id, phase: Phase)
    requires Fits(db) && b in db.backups && InTurn(db.backups[b]) && !db.backups[b].phase.Copying?
    requires (phase.AwaitingCompaction? || phase.AwaitingRecovery? || phase.Flushing?)
    requires db.backups[b].phase.Draining? ==> db.backups[b].drained
    ensures Fits(To(db, b, phase))
  {
    hide WritesFit, FilesFit, CompactionFits, GateFits, QueueFits, FenceFits, CopyFits;
    WaitsDrained(db, db.backups[b]);
    WaitFits(db, db.backups[b], phase);
    MoveKeeps(db, b, db.backups[b].(phase := phase));
  }

  lemma WaitsDrained(db: Db, k: Backup)
    requires FenceFits(db, k)
    ensures PastDrain(k) ==> k.drained
  {
  }

  lemma PassFlushKeeps(db: Db, b: Id)
    requires Fits(db) && DoPassFlush(db, b).Some?
    ensures Fits(DoPassFlush(db, b).value)
  {
    hide WritesFit, FilesFit, CompactionFits, GateFits, QueueFits, FenceFits, CopyFits;
    FlushFits(db, db.backups[b]);
    MoveKeeps(db, b, db.backups[b].(phase := Copying));
  }

  lemma CopySnapshotKeeps(db: Db, b: Id)
    requires Fits(db) && DoCopySnapshot(db, b).Some?
    ensures Fits(DoCopySnapshot(db, b).value)
  {
    hide WritesFit, FilesFit, CompactionFits, GateFits, QueueFits, FenceFits, CopyFits;
    CopySnapshotFits(db, db.backups[b]);
    MoveKeeps(db, b, db.backups[b].(snapshot := Some(db.snapshot)));
  }

  lemma CopyWalKeeps(db: Db, b: Id)
    requires Fits(db) && DoCopyWal(db, b).Some?
    ensures Fits(DoCopyWal(db, b).value)
  {
    hide WritesFit, FilesFit, CompactionFits, GateFits, QueueFits, FenceFits, CopyFits;
    CopyWalFits(db, db.backups[b]);
    MoveKeeps(db, b, db.backups[b].(wal := Some(db.log + db.junk + db.tail)));
  }

  lemma CommitKeeps(db: Db, b: Id)
    requires Fits(db) && DoCommit(db, b).Some?
    ensures Fits(DoCommit(db, b).value)
  {
    hide WritesFit, FilesFit, CompactionFits, GateFits, QueueFits, BothFit;
    assert CopyFits(db, db.backups[b]);
    ReleaseKeeps(db, b, false);
  }

  lemma StepKeeps(db: Db, step: Step)
    requires Fits(db) && Apply(db, step).Some?
    ensures Fits(Apply(db, step).value)
  {
    hide Fits, CompactionFits;
    match step
    case Enter(w) => EnterKeeps(db, w);
    case Append(w) => AppendKeeps(db, w);
    case Ack => AckKeeps(db);
    case FailBatch => FailBatchKeeps(db);
    case Fail(w) => FailKeeps(db, w);
    case Recover => RecoverKeeps(db);
    case GiveUpRecovery => MarkKeeps(db, step);
    case StartCompaction => MarkKeeps(db, step);
    case Fence => MarkKeeps(db, step);
    case TakeSnapshot(unwound) => TakeSnapshotKeeps(db, unwound);
    case RotateSnapshot => RotateSnapshotKeeps(db);
    case RotateWal => RotateWalKeeps(db);
    case EndCompaction => MarkKeeps(db, step);
    case Call(b) => CallKeeps(db, b);
    case Commit(b) => CommitKeeps(db, b);
    case Abort(b) => ReleaseKeepsAny(db, b);
    case Resume(b) => ResumeKeeps(db, b);
    case Begin(b) => BeginKeeps(db, b);
    case PassDrain(b) =>
      WaitKeeps(db, b, if db.compaction.Idle? then AwaitingRecovery else AwaitingCompaction(db.finished));
    case PassCompaction(b) => WaitKeeps(db, b, AwaitingRecovery);
    case PassRecovery(b) => WaitKeeps(db, b, Flushing);
    case PassFlush(b) => PassFlushKeeps(db, b);
    case CopySnapshot(b) => CopySnapshotKeeps(db, b);
    case CopyWal(b) => CopyWalKeeps(db, b);
  }

  lemma MarkKeeps(db: Db, step: Step)
    requires Fits(db) && Apply(db, step).Some?
    requires step.GiveUpRecovery? || step.StartCompaction? || step.Fence? || step.EndCompaction?
    ensures Fits(Apply(db, step).value)
  {
    hide SnapshotFits, GateFits, QueueFits, BackupsFit;
    MarksKeep(db, Apply(db, step).value);
  }

  lemma ReleaseKeepsAny(db: Db, b: Id)
    requires Fits(db) && DoAbort(db, b).Some?
    ensures Fits(DoAbort(db, b).value)
  {
    hide Fits;
    ReleaseKeeps(db, b, true);
  }

  /** Every state of every run fits. */
  lemma {:induction false} RunsFit(steps: seq<Step>)
    ensures After(steps).Some? ==> Fits(After(steps).value)
    decreases |steps|
  {
    if steps == [] {
      assert Actives(START) == {};
    } else {
      var before := steps[..|steps| - 1];
      RunsFit(before);
      if After(steps).Some? {
        StepKeeps(After(before).value, steps[|steps| - 1]);
      }
    }
  }

  // ---- what holds in every run -----------------------------------------------

  /** The snapshot holds a failed write that nothing in the log overwrites. */
  ghost predicate KeepsFailed(snapshot: seq<Op>, log: seq<Op>, history: seq<Op>) {
    exists key :: Last(log, key).None? && Last(snapshot, key).Some? && Last(snapshot, key).value !in history
  }

  /** Files that fit a history hold exactly what it does, unless the snapshot keeps a failed write. */
  lemma FilesHoldHistory(snapshot: seq<Op>, log: seq<Op>, history: seq<Op>)
    requires IsEnd(log, history) && SnapshotFits(snapshot, history, |history| - |log|)
    ensures HoldSame(snapshot + log, history) <==> !KeepsFailed(snapshot, log, history)
  {
    forall key
      ensures Last(snapshot + log, key) == Last(history, key)
              <==> !(Last(log, key).None? && Last(snapshot, key).Some? && Last(snapshot, key).value !in history)
    {
      LastConcat(snapshot, log, key);
      assert history == history[..|history| - |log|] + log;
      LastConcat(history[..|history| - |log|], log, key);
    }
  }

  /** While a backup copies, nothing is in flight, every write is refused and no byte of a failed
      write is in the log; and the files hold exactly what was acknowledged when its drain completed,
      unless the snapshot keeps a failed write. */
  lemma WritesAreFenced(steps: seq<Step>, b: Id, w: Op)
    requires After(steps).Some? && At(After(steps).value, b, Copying)
    ensures var db := After(steps).value;
            && InFlight(db) == {} && DoEnter(db, w) == None && !db.poisoned && db.junk == []
            && db.history == db.backups[b].fence
            && (HoldSame(db.snapshot + db.log, db.history) <==> !KeepsFailed(db.snapshot, db.log, db.history))
  {
    hide SnapshotFits, HoldSame, KeepsFailed;
    RunsFit(steps);
    var db := After(steps).value;
    assert FenceFits(db, db.backups[b]) && CopyFits(db, db.backups[b]);
    assert b in Actives(db);
    FilesHoldHistory(db.snapshot, db.log, db.history);
  }

  /** No two backups are past the serializer at once, so no two copy at once. */
  lemma CopiesNeverOverlap(steps: seq<Step>, b: Id, c: Id)
    requires After(steps).Some?
    requires b in After(steps).value.backups && InTurn(After(steps).value.backups[b])
    requires c in After(steps).value.backups && InTurn(After(steps).value.backups[c])
    ensures b == c
  {
    hide WritesFit, FilesFit, CompactionFits, BackupsFit;
    RunsFit(steps);
    var db := After(steps).value;
    var i :| 0 <= i < |db.queue| && db.queue[i] == b;
    var j :| 0 <= j < |db.queue| && db.queue[j] == c;
    assert QueuedFits(db, i) && QueuedFits(db, j);
  }

  /** The gate is open exactly when every backup called has resumed, however it ended. */
  lemma GateReopensWithTheLast(steps: seq<Step>)
    requires After(steps).Some?
    ensures var db := After(steps).value; db.open <==> forall b :: b in db.backups ==> db.backups[b].phase.Finished?
  {
    hide WritesFit, FilesFit, CompactionFits, BackupsFit, QueueFits;
    RunsFit(steps);
    var db := After(steps).value;
    if !db.open {
      var b :| b in Actives(db);
      assert !db.backups[b].phase.Finished?;
    } else {
      forall b | b in db.backups
        ensures db.backups[b].phase.Finished?
      {
        assert b !in Actives(db);
      }
    }
  }

  /** The log dropped, between the copies, a last write to some key that the snapshot copied does not
      hold and the log copied does not replace. */
  ghost predicate DropsNeeded(k: Backup)
    requires k.snapshot.Some? && k.wal.Some?
  {
    exists key :: Last(k.wal.value, key).None? && Last(k.dropped, key).Some?
                  && Last(k.snapshot.value, key) != Last(k.dropped, key)
  }

  /** The snapshot copied holds a failed write that neither the log copied nor what was dropped
      before it overwrites. */
  ghost predicate CopiedFailed(k: Backup)
    requires k.snapshot.Some? && k.wal.Some?
  {
    KeepsFailed(k.snapshot.value, k.dropped + k.wal.value, k.fence)
  }

  /** What restoring the backup gives is what was acknowledged at its fence. */
  ghost predicate HoldsFence(k: Backup)
    requires k.snapshot.Some? && k.wal.Some?
  {
    HoldSame(k.snapshot.value + k.wal.value, k.fence)
  }

  lemma CopiesHoldFence(k: Backup)
    requires BothFit(k)
    ensures HoldsFence(k) <==> !DropsNeeded(k) && !CopiedFailed(k)
  {
    hide SnapshotFits;
    var s, l, h := k.snapshot.value, k.wal.value, k.fence;
    forall key
      ensures Last(s + l, key) == Last(h, key)
              <==> !(Last(l, key).None? && Last(k.dropped, key).Some? && Last(s, key) != Last(k.dropped, key))
                   && !(Last(k.dropped + l, key).None? && Last(s, key).Some? && Last(s, key).value !in h)
    {
      KeyHolds(k, key);
    }
  }

  lemma KeyHolds(k: Backup, key: nat)
    requires BothFit(k)
    ensures var s, l, h := k.snapshot.value, k.wal.value, k.fence;
            Last(s + l, key) == Last(h, key)
            <==> !(Last(l, key).None? && Last(k.dropped, key).Some? && Last(s, key) != Last(k.dropped, key))
                 && !(Last(k.dropped + l, key).None? && Last(s, key).Some? && Last(s, key).value !in h)
  {
    var s, l, h := k.snapshot.value, k.wal.value, k.fence;
    var end := k.dropped + l;
    LastConcat(s, l, key);
    LastConcat(k.dropped, l, key);
    assert h == h[..|h| - |end|] + end;
    LastConcat(h[..|h| - |end|], end, key);
    assert Last(end, key).None? ==> KeyFits(s, h, key);
  }

  /** A backup that succeeded fenced in every write acknowledged before it was called and none that
      entered after. It holds exactly its fence, unless between its two copies the log dropped a
      write it needs, or the snapshot it copied keeps a failed write. */
  lemma BackupHoldsItsFence(steps: seq<Step>, b: Id)
    requires After(steps).Some? && At(After(steps).value, b, Finished) && !After(steps).value.backups[b].failed
    ensures var k := After(steps).value.backups[b];
            && Follows(k.before, k.fence, k.during) && k.snapshot.Some? && k.wal.Some?
            && (HoldsFence(k) <==> !DropsNeeded(k) && !CopiedFailed(k))
  {
    hide WritesFit, FilesFit, CompactionFits, GateFits, QueueFits, Follows, HoldsFence, DropsNeeded, CopiedFailed;
    RunsFit(steps);
    var db := After(steps).value;
    var k := db.backups[b];
    assert FenceFits(db, k) && CopyFits(db, k);
    CopiesHoldFence(k);
  }

  // ---- compactions, step by step ---------------------------------------------

  /** No snapshot renamed in keeps a write whose flush failed. */
  predicate KeepsOnlyAcknowledged(steps: seq<Step>)
    decreases |steps|
  {
    steps != [] ==>
      var before := steps[..|steps| - 1];
      && KeepsOnlyAcknowledged(before)
      && (steps[|steps| - 1].RotateSnapshot? && After(before).Some? && After(before).value.compaction.Taken?
          ==> forall w :: w in After(before).value.compaction.took ==> w in After(before).value.history)
  }

  /** Every snapshot, in place or copied, holds acknowledged writes only. */
  ghost predicate AllAcknowledged(db: Db) {
    && (forall w :: w in db.snapshot ==> w in db.history)
    && forall b :: b in db.backups ==> CopyAcknowledged(db.backups[b])
  }

  ghost predicate CopyAcknowledged(k: Backup) {
    k.snapshot.Some? ==> k.drained && forall w :: w in k.snapshot.value ==> w in k.fence
  }

  /** All steps but two leave snapshots alone. */
  lemma SnapshotsStay(db: Db, next: Db)
    requires AllAcknowledged(db) && next.snapshot == db.snapshot && db.history <= next.history
    requires forall b :: b in next.backups ==>
               next.backups[b].snapshot.None?
               || (b in db.backups && next.backups[b].snapshot == db.backups[b].snapshot
                   && next.backups[b].fence == db.backups[b].fence && next.backups[b].drained == db.backups[b].drained)
    ensures AllAcknowledged(next)
  {
    forall b | b in next.backups
      ensures CopyAcknowledged(next.backups[b])
    {
      assert b in db.backups ==> CopyAcknowledged(db.backups[b]);
    }
  }

  lemma WriterKeepsAcknowledged(db: Db, step: Step)
    requires AllAcknowledged(db) && Apply(db, step).Some?
    requires step.Enter? || step.Append? || step.Ack? || step.FailBatch? || step.Fail? || step.Recover?
             || step.GiveUpRecovery?
    ensures AllAcknowledged(Apply(db, step).value)
  {
    var next := Apply(db, step).value;
    forall b | b in next.backups
      ensures next.backups[b].snapshot.None? || next.backups[b] == db.backups[b]
    {
      assert CopyAcknowledged(db.backups[b]);
    }
    SnapshotsStay(db, next);
  }

  lemma CompactionKeepsAcknowledged(db: Db, step: Step)
    requires AllAcknowledged(db) && Apply(db, step).Some?
    requires step.StartCompaction? || step.Fence? || step.TakeSnapshot? || step.RotateWal? || step.EndCompaction?
    ensures AllAcknowledged(Apply(db, step).value)
  {
    SnapshotsStay(db, Apply(db, step).value);
  }

  lemma RotationKeepsAcknowledged(db: Db)
    requires AllAcknowledged(db) && DoRotateSnapshot(db).Some?
    requires forall w :: w in db.compaction.took ==> w in db.history
    ensures AllAcknowledged(DoRotateSnapshot(db).value)
  {
  }

  lemma CopyKeepsAcknowledged(db: Db, b: Id)
    requires AllAcknowledged(db) && BackupsFit(db) && DoCopySnapshot(db, b).Some?
    ensures AllAcknowledged(DoCopySnapshot(db, b).value)
  {
    hide CopyFits;
    var next := DoCopySnapshot(db, b).value;
    assert FenceFits(db, db.backups[b]);
    forall c | c in next.backups
      ensures CopyAcknowledged(next.backups[c])
    {
      assert CopyAcknowledged(db.backups[c]);
    }
  }

  lemma BackupKeepsAcknowledged(db: Db, step: Step)
    requires AllAcknowledged(db) && Apply(db, step).Some?
    requires step.Call? || step.Begin? || step.PassDrain? || step.PassCompaction? || step.PassRecovery?
             || step.PassFlush?
             || step.CopyWal? || step.Commit? || step.Abort? || step.Resume?
    ensures AllAcknowledged(Apply(db, step).value)
  {
    SnapshotsStay(db, Apply(db, step).value);
  }

  lemma BackupsOfFits(db: Db)
    requires Fits(db)
    ensures BackupsFit(db) && GateFits(db)
  {
  }

  lemma {:induction false} SnapshotsAreAcknowledged(steps: seq<Step>)
    requires KeepsOnlyAcknowledged(steps) && After(steps).Some?
    ensures AllAcknowledged(After(steps).value)
    decreases |steps|
  {
    hide Fits, AllAcknowledged, BackupsFit;
    if steps == [] {
      NothingKept();
    } else {
      var before, step := steps[..|steps| - 1], steps[|steps| - 1];
      var db := After(before).value;
      SnapshotsAreAcknowledged(before);
      match step
      case RotateSnapshot => RotationKeepsAcknowledged(db);
      case CopySnapshot(b) =>
        RunsFit(before);
        BackupsOfFits(db);
        CopyKeepsAcknowledged(db, b);
      case StartCompaction => CompactionKeepsAcknowledged(db, step);
      case Fence => CompactionKeepsAcknowledged(db, step);
      case TakeSnapshot(_) => CompactionKeepsAcknowledged(db, step);
      case RotateWal => CompactionKeepsAcknowledged(db, step);
      case EndCompaction => CompactionKeepsAcknowledged(db, step);
      case Enter(_) => WriterKeepsAcknowledged(db, step);
      case Append(_) => WriterKeepsAcknowledged(db, step);
      case Ack => WriterKeepsAcknowledged(db, step);
      case FailBatch => WriterKeepsAcknowledged(db, step);
      case Fail(_) => WriterKeepsAcknowledged(db, step);
      case Recover => WriterKeepsAcknowledged(db, step);
      case GiveUpRecovery => WriterKeepsAcknowledged(db, step);
      case _ => BackupKeepsAcknowledged(db, step);
    }
  }

  lemma NothingKept()
    ensures AllAcknowledged(START)
  {
  }

  lemma StepOnlyAdds(db: Db, step: Step)
    requires Apply(db, step).Some?
    ensures db.history <= Apply(db, step).value.history
    ensures !step.RotateSnapshot? ==> Apply(db, step).value.snapshot == db.snapshot
  {
  }

  /** A write taken by the compaction that a step renames in. */
  ghost predicate TakenAt(steps: seq<Step>, i: nat, w: Op)
    requires i < |steps|
  {
    && steps[i].RotateSnapshot? && After(steps[..i]).Some? && After(steps[..i]).value.compaction.Taken?
    && w in After(steps[..i]).value.compaction.took
  }

  /** A failed write the snapshot holds is one that some compaction took. */
  lemma {:induction false} FailedWritesWereTaken(steps: seq<Step>, w: Op)
    requires After(steps).Some? && w in After(steps).value.snapshot && w !in After(steps).value.history
    ensures exists i :: 0 <= i < |steps| && TakenAt(steps, i, w)
    decreases |steps|
  {
    hide Apply;
    assert steps != [];
    var n := |steps| - 1;
    var before := steps[..n];
    var db := After(before).value;
    StepOnlyAdds(db, steps[n]);
    if w in db.snapshot && w !in db.history {
      FailedWritesWereTaken(before, w);
      var i :| 0 <= i < n && TakenAt(before, i, w);
      assert before[..i] == steps[..i];
      assert TakenAt(steps, i, w);
    } else {
      RenamedIn(db, steps[n], w);
      assert TakenAt(steps, n, w);
    }
  }

  lemma RenamedIn(db: Db, step: Step, w: Op)
    requires Apply(db, step).Some? && !(w in db.snapshot && w !in db.history)
    requires w in Apply(db, step).value.snapshot && w !in Apply(db, step).value.history
    ensures step.RotateSnapshot? && db.compaction.Taken? && w in db.compaction.took
  {
    StepOnlyAdds(db, step);
  }

  /** A backup has copied and lost the same. */
  predicate SameCopies(db: Db, next: Db, b: Id) {
    && (b in next.backups <==> b in db.backups)
    && (b in db.backups ==> && next.backups[b].snapshot == db.backups[b].snapshot
                            && next.backups[b].wal == db.backups[b].wal
                            && next.backups[b].dropped == db.backups[b].dropped)
  }

  lemma WriterStepsKeepCopies(db: Db, step: Step, b: Id)
    requires Apply(db, step).Some?
    requires step.Enter? || step.Append? || step.Ack? || step.FailBatch? || step.Fail? || step.Recover?
             || step.GiveUpRecovery?
    ensures SameCopies(db, Apply(db, step).value, b)
  {
  }

  lemma CompactionStepsKeepCopies(db: Db, step: Step, b: Id)
    requires Apply(db, step).Some?
    requires step.StartCompaction? || step.Fence? || step.TakeSnapshot? || step.RotateSnapshot? || step.EndCompaction?
    ensures SameCopies(db, Apply(db, step).value, b)
  {
  }

  lemma WaitsKeepCopies(db: Db, step: Step, b: Id)
    requires Apply(db, step).Some?
    requires step.Begin? || step.PassDrain? || step.PassCompaction? || step.PassRecovery? || step.PassFlush?
    ensures SameCopies(db, Apply(db, step).value, b)
  {
  }

  lemma EndsKeepCopies(db: Db, step: Step, b: Id)
    requires Apply(db, step).Some? && (step.Commit? || step.Abort? || step.Resume?)
    ensures SameCopies(db, Apply(db, step).value, b)
  {
  }

  /** What a step does to what backup b has copied and lost. */
  lemma StepCopies(db: Db, step: Step, b: Id)
    requires Apply(db, step).Some?
    ensures var next := Apply(db, step).value;
            && (Copied(next, b) <==> Copied(db, b) || step == CopySnapshot(b))
            && (LogCopied(next, b) <==> LogCopied(db, b) || step == CopyWal(b))
            && (!step.RotateWal? && b in next.backups ==>
                  next.backups[b].dropped == if b in db.backups then db.backups[b].dropped else [])
  {
    match step
    case Call(_) =>
    case CopySnapshot(_) =>
    case CopyWal(_) =>
    case RotateWal => RotationDrops(db, b);
    case _ => OtherStepsKeepCopies(db, step, b);
  }

  lemma OtherStepsKeepCopies(db: Db, step: Step, b: Id)
    requires Apply(db, step).Some? && !step.Call? && !step.CopySnapshot? && !step.CopyWal? && !step.RotateWal?
    ensures SameCopies(db, Apply(db, step).value, b)
  {
    hide Apply, SameCopies;
    match step
    case Begin(_) => WaitsKeepCopies(db, step, b);
    case PassDrain(_) => WaitsKeepCopies(db, step, b);
    case PassCompaction(_) => WaitsKeepCopies(db, step, b);
    case PassRecovery(_) => WaitsKeepCopies(db, step, b);
    case PassFlush(_) => WaitsKeepCopies(db, step, b);
    case Commit(_) => EndsKeepCopies(db, step, b);
    case Abort(_) => EndsKeepCopies(db, step, b);
    case Resume(_) => EndsKeepCopies(db, step, b);
    case StartCompaction => CompactionStepsKeepCopies(db, step, b);
    case Fence => CompactionStepsKeepCopies(db, step, b);
    case TakeSnapshot(_) => CompactionStepsKeepCopies(db, step, b);
    case RotateSnapshot => CompactionStepsKeepCopies(db, step, b);
    case EndCompaction => CompactionStepsKeepCopies(db, step, b);
    case _ => WriterStepsKeepCopies(db, step, b);
  }

  predicate Copied(db: Db, b: Id) {
    b in db.backups && db.backups[b].snapshot.Some?
  }

  predicate LogCopied(db: Db, b: Id) {
    b in db.backups && db.backups[b].wal.Some?
  }

  lemma {:induction false} CopiesAreSteps(steps: seq<Step>, b: Id)
    requires After(steps).Some?
    ensures Copied(After(steps).value, b) <==> CopySnapshot(b) in steps
    ensures LogCopied(After(steps).value, b) <==> CopyWal(b) in steps
    decreases |steps|
  {
    hide Apply, Copied, LogCopied;
    if steps == [] {
      NothingCopied(b);
    } else {
      var n := |steps| - 1;
      CopiesAreSteps(steps[..n], b);
      StepCopies(After(steps[..n]).value, steps[n], b);
      assert steps == steps[..n] + [steps[n]];
    }
  }

  lemma NothingCopied(b: Id)
    ensures !Copied(START, b) && !LogCopied(START, b)
  {
  }

  /** Between the two copies of b a step makes w leave the log. */
  ghost predicate DroppedAt(steps: seq<Step>, i: nat, b: Id, w: Op)
    requires i < |steps|
  {
    && CopySnapshot(b) in steps[..i] && CopyWal(b) !in steps[..i] && steps[i].RotateWal?
    && After(steps[..i]).Some? && var db := After(steps[..i]).value;
    && db.compaction.Rotating? && Dropping(db) <= |db.log| && w in db.log[..Dropping(db)]
  }

  /** A write dropped left the log at the end of a compaction between the two copies. */
  lemma {:induction false} DroppedWritesWereRotated(steps: seq<Step>, b: Id, w: Op)
    requires After(steps).Some? && b in After(steps).value.backups && w in After(steps).value.backups[b].dropped
    ensures exists i :: 0 <= i < |steps| && DroppedAt(steps, i, b, w)
    decreases |steps|
  {
    hide Apply;
    assert steps != [];
    var n := |steps| - 1;
    var before := steps[..n];
    var db := After(before).value;
    if b in db.backups && w in db.backups[b].dropped {
      DroppedWritesWereRotated(before, b, w);
      var i :| 0 <= i < n && DroppedAt(before, i, b, w);
      assert before[..i] == steps[..i];
      assert DroppedAt(steps, i, b, w);
    } else {
      RotatedAway(db, steps[n], b, w);
      CopiesAreSteps(before, b);
      assert DroppedAt(steps, n, b, w);
    }
  }

  lemma RotatedAway(db: Db, step: Step, b: Id, w: Op)
    requires Apply(db, step).Some? && !(b in db.backups && w in db.backups[b].dropped)
    requires b in Apply(db, step).value.backups && w in Apply(db, step).value.backups[b].dropped
    ensures step.RotateWal? && db.compaction.Rotating? && Dropping(db) <= |db.log| && w in db.log[..Dropping(db)]
    ensures Copied(db, b) && !LogCopied(db, b)
  {
    hide Apply;
    StepCopies(db, step, b);
    RotationDrops(db, b);
  }

  lemma RotationDrops(db: Db, b: Id)
    ensures Apply(db, RotateWal).Some? ==>
              var next := Apply(db, RotateWal).value;
              && db.compaction.Rotating? && Dropping(db) <= |db.log|
              && (Copied(next, b) <==> Copied(db, b)) && (LogCopied(next, b) <==> LogCopied(db, b))
              && (b in next.backups ==>
                    b in db.backups
                    && next.backups[b].dropped
                       == db.backups[b].dropped + if db.backups[b].phase.Copying? && Copied(db, b) && !LogCopied(db, b)
                                                  then db.log[..Dropping(db)] else [])
  {
  }

  /** Compactions start only while the gate is open. */
  predicate CompactsOnlyWhileOpen(steps: seq<Step>)
    decreases |steps|
  {
    steps != [] ==>
      var before := steps[..|steps| - 1];
      && CompactsOnlyWhileOpen(before)
      && (steps[|steps| - 1].StartCompaction? ==> After(before).Some? && After(before).value.open)
  }

  /** Past the wait for it no compaction is under way, and nothing was dropped. */
  predicate Undisturbed(db: Db) {
    forall b :: b in db.backups ==> BackupUndisturbed(db, db.backups[b])
  }

  predicate BackupUndisturbed(db: Db, k: Backup) {
    && k.dropped == []
    && (PastDrain(k) && !k.phase.AwaitingCompaction? ==> db.compaction.Idle?)
    && (k.phase.AwaitingCompaction? ==>
          k.phase.run <= db.finished && (k.phase.run < db.finished ==> db.compaction.Idle?))
  }

  /** Steps of writers and of the log: no backup moves, nor does a compaction. */
  lemma WriterKeepsUndisturbed(db: Db, next: Db)
    requires Undisturbed(db) && next.compaction == db.compaction && next.finished == db.finished
    requires next.backups.Keys == db.backups.Keys
    requires forall b :: b in db.backups ==>
               next.backups[b] == db.backups[b] || next.backups[b] == Drained(db.backups[b], next.history)
    ensures Undisturbed(next)
  {
    forall b | b in next.backups
      ensures BackupUndisturbed(next, next.backups[b])
    {
      assert BackupUndisturbed(db, db.backups[b]);
    }
  }

  lemma CompactionKeepsUndisturbed(db: Db, step: Step)
    requires GateFits(db) && Undisturbed(db) && Apply(db, step).Some?
    requires step.StartCompaction? || step.Fence? || step.TakeSnapshot? || step.RotateSnapshot? || step.RotateWal?
             || step.EndCompaction?
    requires step.StartCompaction? ==> db.open
    ensures Undisturbed(Apply(db, step).value)
  {
    var next := Apply(db, step).value;
    forall b | b in next.backups
      ensures BackupUndisturbed(next, next.backups[b])
    {
      assert BackupUndisturbed(db, db.backups[b]);
      assert Active(db.backups[b]) ==> b in Actives(db);
    }
  }

  /** A step of one backup: the others stay, and so does any compaction. */
  lemma BackupKeepsUndisturbed(db: Db, step: Step, b: Id)
    requires Undisturbed(db) && Apply(db, step).Some?
    requires step in {Call(b), Begin(b), PassDrain(b), PassCompaction(b), PassRecovery(b), PassFlush(b),
                      CopySnapshot(b), CopyWal(b), Commit(b), Abort(b), Resume(b)}
    ensures Undisturbed(Apply(db, step).value)
  {
    var next := Apply(db, step).value;
    assert b in db.backups ==> BackupUndisturbed(db, db.backups[b]);
    assert BackupUndisturbed(next, next.backups[b]);
    forall c | c in next.backups
      ensures BackupUndisturbed(next, next.backups[c])
    {
      assert c != b ==> BackupUndisturbed(db, db.backups[c]) && next.backups[c] == db.backups[c];
    }
  }

  lemma StepKeepsUndisturbed(db: Db, step: Step)
    requires GateFits(db) && Undisturbed(db) && Apply(db, step).Some?
    requires step.StartCompaction? ==> db.open
    ensures Undisturbed(Apply(db, step).value)
  {
    hide Undisturbed, GateFits;
    match step
    case Call(b) => BackupKeepsUndisturbed(db, step, b);
    case Begin(b) => BackupKeepsUndisturbed(db, step, b);
    case PassDrain(b) => BackupKeepsUndisturbed(db, step, b);
    case PassCompaction(b) => BackupKeepsUndisturbed(db, step, b);
    case PassRecovery(b) => BackupKeepsUndisturbed(db, step, b);
    case PassFlush(b) => BackupKeepsUndisturbed(db, step, b);
    case CopySnapshot(b) => BackupKeepsUndisturbed(db, step, b);
    case CopyWal(b) => BackupKeepsUndisturbed(db, step, b);
    case Commit(b) => BackupKeepsUndisturbed(db, step, b);
    case Abort(b) => BackupKeepsUndisturbed(db, step, b);
    case Resume(b) => BackupKeepsUndisturbed(db, step, b);
    case StartCompaction => CompactionKeepsUndisturbed(db, step);
    case Fence => CompactionKeepsUndisturbed(db, step);
    case TakeSnapshot(_) => CompactionKeepsUndisturbed(db, step);
    case RotateSnapshot => CompactionKeepsUndisturbed(db, step);
    case RotateWal => CompactionKeepsUndisturbed(db, step);
    case EndCompaction => CompactionKeepsUndisturbed(db, step);
    case _ => WriterKeepsUndisturbed(db, Apply(db, step).value);
  }

  lemma {:induction false} OpenGateLeavesUndisturbed(steps: seq<Step>)
    requires CompactsOnlyWhileOpen(steps) && After(steps).Some?
    ensures Undisturbed(After(steps).value)
    decreases |steps|
  {
    hide Fits, BackupsFit, GateFits;
    if steps != [] {
      var before := steps[..|steps| - 1];
      RunsFit(before);
      OpenGateLeavesUndisturbed(before);
      BackupsOfFits(After(before).value);
      StepKeepsUndisturbed(After(before).value, steps[|steps| - 1]);
    }
  }

  /** If compactions start only while the gate is open, as backup() assumes, and none keeps a write
      whose flush failed, every backup that succeeds holds exactly its fence. */
  lemma CarefulCompactionsAreHarmless(steps: seq<Step>, b: Id)
    requires CompactsOnlyWhileOpen(steps) && KeepsOnlyAcknowledged(steps) && After(steps).Some?
    requires At(After(steps).value, b, Finished) && !After(steps).value.backups[b].failed
    ensures var k := After(steps).value.backups[b]; k.snapshot.Some? && k.wal.Some? && HoldsFence(k)
  {
    hide Fits, HoldsFence, Follows;
    OpenGateLeavesUndisturbed(steps);
    SnapshotsAreAcknowledged(steps);
    BackupHoldsItsFence(steps, b);
    var k := After(steps).value.backups[b];
    assert BackupUndisturbed(After(steps).value, k) && CopyAcknowledged(k);
  }

  // ---- the two ways a compaction can spoil a backup --------------------------

  lemma OneMore(steps: seq<Step>, db: Db, step: Step)
    requires After(steps) == Some(db)
    ensures After(steps + [step]) == Apply(db, step)
  {
    assert (steps + [step])[..|steps|] == steps;
  }

  lemma ThreeMore(steps: seq<Step>, db: Db, s1: Step, db1: Db, s2: Step, db2: Db, s3: Step)
    requires After(steps) == Some(db) && Apply(db, s1) == Some(db1) && Apply(db1, s2) == Some(db2)
    ensures After(steps + [s1, s2, s3]) == Apply(db2, s3)
  {
    hide After, Apply;
    OneMore(steps, db, s1);
    OneMore(steps + [s1], db1, s2);
    OneMore(steps + [s1] + [s2], db2, s3);
    assert steps + [s1] + [s2] + [s3] == steps + [s1, s2, s3];
  }

  /** The first half of a compaction of a quiet log. */
  lemma Collected(steps: seq<Step>, db: Db)
    requires After(steps) == Some(db) && db.compaction.Idle? && !db.poisoned && db.tail == [] && db.dying == {}
    ensures After(steps + [StartCompaction, Fence, TakeSnapshot(true)])
            == Some(db.(compaction := Taken(|db.history|, |db.history|, [])))
  {
    hide After;
    var n := |db.history|;
    ThreeMore(steps, db, StartCompaction, db.(compaction := Running), Fence, db.(compaction := Fenced(n)),
              TakeSnapshot(true));
  }

  /** A whole compaction of a quiet log. */
  lemma RotatedOut(steps: seq<Step>, db: Db) returns (next: Db)
    requires After(steps) == Some(db) && db.compaction.Idle? && !db.poisoned && db.tail == [] && db.dying == {}
    requires IsEnd(db.log, db.history)
    ensures After(steps + [StartCompaction, Fence, TakeSnapshot(true), RotateSnapshot, RotateWal, EndCompaction])
            == Some(next)
    ensures next
            == db.(log := [], snapshot := db.history, compaction := Idle, finished := db.finished + 1,
                   backups := next.backups)
    ensures next.backups.Keys == db.backups.Keys
    ensures forall b :: b in db.backups ==> next.backups[b] == Missed(db.backups[b], db.log)
  {
    hide After, Missed, IsEnd;
    var n := |db.history|;
    Collected(steps, db);
    var most := steps + [StartCompaction, Fence, TakeSnapshot(true)];
    assert db.history[..n] + [] == db.history;
    var db4 := db.(snapshot := db.history, compaction := Rotating(n));
    assert Dropping(db4) == |db.log| && db.log[..|db.log|] == db.log && db.log[|db.log|..] == [] by {
      LogIsShorter(db);
    }
    var db5 := DoRotateWal(db4).value;
    next := DoEndCompaction(db5).value;
    ThreeMore(most, db.(compaction := Taken(n, n, [])), RotateSnapshot, db4, RotateWal, db5, EndCompaction);
    assert most + [RotateSnapshot, RotateWal, EndCompaction]
           == steps + [StartCompaction, Fence, TakeSnapshot(true), RotateSnapshot, RotateWal, EndCompaction];
  }

  lemma LogIsShorter(db: Db)
    requires IsEnd(db.log, db.history)
    ensures |db.log| <= |db.history|
  {
  }

  lemma CopyWalLeaves(db: Db, b: Id)
    requires At(db, b, Copying) && db.backups[b].wal.None?
    ensures var r := DoCopyWal(db, b);
            r.Some? && b in r.value.backups
            && r.value.backups[b] == db.backups[b].(wal := Some(db.log + db.junk + db.tail))
            && r.value.queue == db.queue && r.value.pausers == db.pausers
  {
  }

  lemma CommitLeaves(db: Db, b: Id)
    requires At(db, b, Copying) && db.backups[b].snapshot.Some? && db.backups[b].wal.Some? && db.queue != []
    ensures var r := DoCommit(db, b);
            r.Some? && b in r.value.backups && r.value.backups[b] == db.backups[b].(phase := Released, failed := false)
            && r.value.pausers == db.pausers
  {
  }

  lemma ResumeLeaves(db: Db, b: Id)
    requires At(db, b, Released) && db.pausers > 0
    ensures var r := DoResume(db, b);
            r.Some? && b in r.value.backups && r.value.backups[b] == db.backups[b].(phase := Finished)
  {
  }

  /** The log is copied as it is, and the backup done. */
  lemma CopiedOut(steps: seq<Step>, db: Db, b: Id) returns (next: Db)
    requires After(steps) == Some(db) && At(db, b, Copying) && db.backups[b].snapshot.Some? && db.backups[b].wal.None?
    requires db.queue != [] && db.pausers > 0
    ensures After(steps + [CopyWal(b), Commit(b), Resume(b)]) == Some(next) && b in next.backups
    ensures next.backups[b]
            == db.backups[b].(phase := Finished, failed := false, wal := Some(db.log + db.junk + db.tail))
  {
    hide After, DoCopyWal, DoCommit, DoResume;
    CopyWalLeaves(db, b);
    var db1 := DoCopyWal(db, b).value;
    CommitLeaves(db1, b);
    var db2 := DoCommit(db1, b).value;
    ResumeLeaves(db2, b);
    next := DoResume(db2, b).value;
    ThreeMore(steps, db, CopyWal(b), db1, Commit(b), db2, Resume(b));
  }

  /** A copying backup is queued and counted, and the log is quiet. */
  lemma CopyingCounts(steps: seq<Step>, b: Id)
    requires After(steps).Some? && At(After(steps).value, b, Copying)
    ensures var db := After(steps).value;
            && db.queue != [] && db.pausers > 0 && !db.poisoned && db.tail == [] && db.dying == {} && db.junk == []
            && IsEnd(db.log, db.history)
  {
    RunsFit(steps);
    WritesAreFenced(steps, b, Op(0, 0));
    NothingInLog(After(steps).value);
    assert b in Actives(After(steps).value);
  }

  /** Nothing holds a compaction back from a closed gate: a second backup() runs one before it pauses
      the gate. Whenever a backup has copied the snapshot and not the log, such a compaction can
      rotate the whole log away; the backup then succeeds with an empty log. */
  lemma LateCompactionEmptiesTheLog(steps: seq<Step>, b: Id) returns (tail: seq<Step>)
    requires After(steps).Some? && After(steps).value.compaction.Idle? && At(After(steps).value, b, Copying)
    requires After(steps).value.backups[b].snapshot.Some? && After(steps).value.backups[b].wal.None?
    ensures After(steps + tail).Some? && At(After(steps + tail).value, b, Finished)
    ensures var was, k := After(steps).value.backups[b], After(steps + tail).value.backups[b];
            k == was.(phase := Finished, failed := false, wal := Some([]),
                      dropped := was.dropped + After(steps).value.log)
  {
    hide Fits, After, IsEnd;
    var db := After(steps).value;
    CopyingCounts(steps, b);
    var db1 := RotatedOut(steps, db);
    var todo := [StartCompaction, Fence, TakeSnapshot(true), RotateSnapshot, RotateWal, EndCompaction];
    var _ := CopiedOut(steps + todo, db1, b);
    tail := todo + [CopyWal(b), Commit(b), Resume(b)];
    assert steps + todo + [CopyWal(b), Commit(b), Resume(b)] == steps + tail;
    assert db1.log + db1.junk + db1.tail == [];
  }

  /** Nothing in flight, under way or called for. */
  predicate Quiet(db: Db) {
    && db.pausers == 0 && db.open && db.entered == {} && db.tail == [] && db.dying == {} && db.junk == []
    && !db.poisoned && !db.recovering && db.compaction.Idle? && db.queue == [] && db.backups == map[]
  }

  /** Backup 1, called in a quiet state. */
  function BackingUp(db: Db, phase: Phase, snapshot: Option<seq<Op>>): Db {
    db.(pausers := 1, open := false, queue := [1],
        backups := map[1 := Backup(phase, false, db.history, {}, true, db.history, snapshot, None, [])])
  }

  lemma Called(db: Db)
    requires Quiet(db)
    ensures DoCall(db, 1) == Some(BackingUp(db, Queued, None))
    ensures DoCopySnapshot(BackingUp(db, Copying, None), 1) == Some(BackingUp(db, Copying, Some(db.snapshot)))
  {
    assert InFlight(db) == {} && [] + [1] == [1];
    assert DoCall(db, 1).value.backups == BackingUp(db, Queued, None).backups;
    assert DoCopySnapshot(BackingUp(db, Copying, None), 1).value.backups
           == BackingUp(db, Copying, Some(db.snapshot)).backups;
  }

  lemma Moved(db: Db, before: Phase, after: Phase)
    ensures To(BackingUp(db, before, None), 1, after) == BackingUp(db, after, None)
  {
    assert To(BackingUp(db, before, None), 1, after).backups == BackingUp(db, after, None).backups;
  }

  /** Called in a quiet state, a backup gets as far as copying the snapshot. */
  lemma HalfCopied(steps: seq<Step>, db: Db) returns (more: seq<Step>)
    requires After(steps) == Some(db) && Quiet(db)
    ensures After(steps + more) == Some(BackingUp(db, Copying, Some(db.snapshot)))
    ensures more == [Call(1), Begin(1), PassDrain(1), PassRecovery(1), PassFlush(1), CopySnapshot(1)]
  {
    hide After;
    Called(db);
    Moved(db, Queued, Draining);
    Moved(db, Draining, AwaitingRecovery);
    Moved(db, AwaitingRecovery, Flushing);
    Moved(db, Flushing, Copying);
    ThreeMore(steps, db, Call(1), BackingUp(db, Queued, None), Begin(1), BackingUp(db, Draining, None), PassDrain(1));
    var most := steps + [Call(1), Begin(1), PassDrain(1)];
    ThreeMore(most, BackingUp(db, AwaitingRecovery, None), PassRecovery(1), BackingUp(db, Flushing, None), PassFlush(1),
              BackingUp(db, Copying, None), CopySnapshot(1));
    more := [Call(1), Begin(1), PassDrain(1), PassRecovery(1), PassFlush(1), CopySnapshot(1)];
    assert most + [PassRecovery(1), PassFlush(1), CopySnapshot(1)] == steps + more;
  }

  function OneWrite(u: Op): Db {
    START.(used := {u}, history := [u], log := [u])
  }

  lemma OneWriteReached(u: Op)
    ensures After([Enter(u), Append(u), Ack]) == Some(OneWrite(u))
  {
    hide After;
    var entered := START.(used := {u}, entered := {u});
    var appended := START.(used := {u}, tail := [u]);
    assert {} + {u} == {u} && {u} - {u} == {} && [] + [u] == [u] && [u][1..] == [];
    StartReached();
    ThreeMore([], START, Enter(u), entered, Append(u), appended, Ack);
    assert DoAck(appended) == Some(OneWrite(u)) by {
      var acked := DoAck(appended).value;
      assert InFlight(acked) == {} && acked.backups == map[];
    }
    assert [] + [Enter(u), Append(u), Ack] == [Enter(u), Append(u), Ack];
  }

  lemma StartReached()
    ensures After([]) == Some(START)
  {
  }

  /** A concrete run of the first kind: one write is acknowledged, and the backup called after it
      copies a snapshot that does not hold it yet and a log that does not any more. */
  lemma BackupCanLoseAWrite(u: Op) returns (steps: seq<Step>)
    ensures After(steps).Some? && At(After(steps).value, 1, Finished)
    ensures var k := After(steps).value.backups[1];
            && !k.failed && u in k.before && k.snapshot.Some? && k.wal.Some?
            && u !in k.snapshot.value + k.wal.value && DropsNeeded(k) && !HoldsFence(k)
  {
    hide After, Quiet, Fits, HoldsFence;
    OneWriteReached(u);
    var s := [Enter(u), Append(u), Ack];
    OneWriteIsQuiet(u);
    var more := HalfCopied(s, OneWrite(u));
    var tail := LateCompactionEmptiesTheLog(s + more, 1);
    steps := s + more + tail;
    var k := After(steps).value.backups[1];
    assert k.dropped == [] + [u];
    assert Last(k.wal.value, u.key).None? && Last(k.dropped, u.key) == Some(u) && Last(k.snapshot.value, u.key).None?;
    BackupHoldsItsFence(steps, 1);
  }

  lemma OneWriteIsQuiet(u: Op)
    ensures Quiet(OneWrite(u))
  {
  }

  /** A compaction flushes, v enters and is applied, and the store is collected. */
  function CollectedOver(u: Op, v: Op): Db {
    OneWrite(u).(used := {u, v}, tail := [v], compaction := Taken(1, 1, [v]))
  }

  lemma CollectedReached(u: Op, v: Op, steps: seq<Step>)
    requires v != u && After(steps) == Some(OneWrite(u))
    ensures After(steps + [StartCompaction, Fence, Enter(v)] + [Append(v), TakeSnapshot(true)])
            == Some(CollectedOver(u, v))
  {
    hide After;
    var d0 := OneWrite(u);
    var d1 := d0.(compaction := Running);
    var d2 := d0.(compaction := Fenced(1));
    assert {u} + {v} == {u, v} && {} + {v} == {v} && {v} - {v} == {} && [] + [v] == [v];
    var d3 := d2.(used := {u, v}, entered := {v});
    ThreeMore(steps, d0, StartCompaction, d1, Fence, d2, Enter(v));
    var d4 := d2.(used := {u, v}, tail := [v]);
    var most := steps + [StartCompaction, Fence, Enter(v)];
    OneMore(most, d3, Append(v));
    OneMore(most + [Append(v)], d4, TakeSnapshot(true));
    assert most + [Append(v)] + [TakeSnapshot(true)] == most + [Append(v), TakeSnapshot(true)];
  }

  /** Then the flush of v fails, v gives up, and the log is recovered. */
  function RecoveredFrom(u: Op, v: Op): Db {
    OneWrite(u).(used := {u, v}, compaction := Taken(1, 1, [v]))
  }

  lemma RecoveredReached(u: Op, v: Op, steps: seq<Step>)
    requires v != u && After(steps) == Some(CollectedOver(u, v))
    ensures After(steps + [FailBatch, Fail(v), Recover]) == Some(RecoveredFrom(u, v))
  {
    hide After;
    var d0 := CollectedOver(u, v);
    assert Elems([v]) == {v} && {} + {v} == {v} && {v} - {v} == {} && [] + [v] == [v];
    var d1 := d0.(tail := [], dying := {v}, junk := [v], poisoned := true);
    var d2 := d1.(dying := {}, recovering := true);
    assert DoFail(d1, v) == Some(d2) by {
      assert {} - {v} == {};
      var mid := d1.(dying := {}, recovering := true);
      assert InFlight(mid) == {};
      assert Leave(mid).backups == map[];
      assert Leave(mid) == mid;
    }
    ThreeMore(steps, d0, FailBatch, d1, Fail(v), d2, Recover);
  }

  /** The snapshot, with v in it, is renamed in, and a log without u. */
  function KeptFailed(u: Op, v: Op): Db {
    OneWrite(u).(used := {u, v}, log := [], snapshot := [u, v], finished := 1)
  }

  lemma KeptFailedReached(u: Op, v: Op, steps: seq<Step>)
    requires v != u && After(steps) == Some(RecoveredFrom(u, v))
    ensures After(steps + [RotateSnapshot, RotateWal, EndCompaction]) == Some(KeptFailed(u, v))
  {
    hide After;
    var d0 := RecoveredFrom(u, v);
    assert [u][..1] + [v] == [u, v] && [u][1..] == [];
    var d1 := d0.(snapshot := [u, v], compaction := Rotating(1));
    var d2 := d0.(snapshot := [u, v], log := [], compaction := Rotated);
    assert DoRotateWal(d1) == Some(d2) by {
      assert Dropping(d1) == 1;
      assert DoRotateWal(d1).value.backups == map[];
    }
    ThreeMore(steps, d0, RotateSnapshot, d1, RotateWal, d2, EndCompaction);
  }

  function FailedWriteRun(u: Op, v: Op): seq<Step> {
    [Enter(u), Append(u), Ack] + [StartCompaction, Fence, Enter(v)] + [Append(v), TakeSnapshot(true)]
    + [FailBatch, Fail(v), Recover] + [RotateSnapshot, RotateWal, EndCompaction]
    + [Call(1), Begin(1), PassDrain(1), PassRecovery(1), PassFlush(1), CopySnapshot(1)]
    + [CopyWal(1), Commit(1), Resume(1)]
  }

  /** A concrete run of the second kind: v overwrites u while a compaction collects the store, and
      the flush of v fails. The compaction, started with the gate open, goes on, and a backup called
      long after holds the failed v where u was acknowledged; nothing was dropped between its copies. */
  lemma FailedWriteCanReplaceAnAcknowledgedOne(u: Op, v: Op)
    requires u != v && u.key == v.key
    ensures var steps := FailedWriteRun(u, v);
            && After(steps).Some? && At(After(steps).value, 1, Finished)
            && var k := After(steps).value.backups[1];
               && !k.failed && k.before == k.fence == [u] && k.dropped == [] && k.snapshot.Some? && k.wal.Some?
               && Last(k.fence, u.key) == Some(u) && Last(k.snapshot.value + k.wal.value, u.key) == Some(v)
               && CopiedFailed(k) && !HoldsFence(k)
  {
    hide After, Quiet, Fits, HoldsFence, CopiedFailed, DropsNeeded;
    OneWriteReached(u);
    var s0 := [Enter(u), Append(u), Ack];
    CollectedReached(u, v, s0);
    var s1 := s0 + [StartCompaction, Fence, Enter(v)] + [Append(v), TakeSnapshot(true)];
    RecoveredReached(u, v, s1);
    var s2 := s1 + [FailBatch, Fail(v), Recover];
    KeptFailedReached(u, v, s2);
    var s3 := s2 + [RotateSnapshot, RotateWal, EndCompaction];
    var db := KeptFailed(u, v);
    KeptFailedIsQuiet(u, v);
    var more := HalfCopied(s3, db);
    var done := CopiedOut(s3 + more, BackingUp(db, Copying, Some(db.snapshot)), 1);
    assert s3 + more + [CopyWal(1), Commit(1), Resume(1)] == FailedWriteRun(u, v);
    var k := done.backups[1];
    assert k.wal.value == [] && [u, v] + [] == [u, v];
    FailedIsHeld(u, v, k);
    BackupHoldsItsFence(FailedWriteRun(u, v), 1);
  }

  lemma KeptFailedIsQuiet(u: Op, v: Op)
    ensures Quiet(KeptFailed(u, v))
  {
  }

  lemma FailedIsHeld(u: Op, v: Op, k: Backup)
    requires u != v && u.key == v.key
    requires k.snapshot == Some([u, v]) && k.wal == Some([]) && k.dropped == [] && k.fence == [u]
    ensures Last([u, v], u.key) == Some(v) && Last([u], u.key) == Some(u) && CopiedFailed(k)
  {
    assert [] + k.wal.value == [];
    assert Last([], u.key).None? && Last([u, v], u.key) == Some(v) && v !in [u];
  }

  /** That run starts its one compaction while the gate is open. */
  lemma FailedWriteRunIsOpen(u: Op, v: Op)
    requires u != v && u.key == v.key
    ensures CompactsOnlyWhileOpen(FailedWriteRun(u, v))
  {
    hide After;
    OneWriteReached(u);
    var s := [Enter(u), Append(u), Ack];
    var steps := FailedWriteRun(u, v);
    assert steps[..3] == s && steps[3] == StartCompaction;
    OpenBefore(steps, |steps|);
    assert steps[..|steps|] == steps;
  }

  lemma {:induction false} OpenBefore(steps: seq<Step>, n: nat)
    requires n <= |steps|
    requires forall i :: 0 <= i < n && steps[i].StartCompaction?
                         ==> After(steps[..i]).Some? && After(steps[..i]).value.open
    ensures CompactsOnlyWhileOpen(steps[..n])
  {
    hide After;
    if n > 0 {
      OpenBefore(steps, n - 1);
      assert steps[..n][..n - 1] == steps[..n - 1];
    }
  }
}
