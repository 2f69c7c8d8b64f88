// packages/minidb/src/backup.ts: no step of a backup, of a failed write or of a compaction leaves
// the database stuck. Whatever has happened, backups can leave and the gate can open again; and
// unless a recovery of the log has failed, writes and backups can succeed.
module BackupProgress {
  import opened Wrappers
  import opened BackupGate

  predicate OfBackups(step: Step) {
    step.Call? || step.Begin? || step.PassDrain? || step.PassCompaction? || step.PassRecovery? || step.PassFlush?
    || step.CopySnapshot? || step.CopyWal? || step.Commit? || step.Abort? || step.Resume?
  }

  predicate AllOthersResumed(db: Db, b: Id) {
    forall c :: c in db.backups && c != b ==> db.backups[c].phase.Finished?
  }

  lemma TwoMore(steps: seq<Step>, db: Db, s1: Step, db1: Db, s2: Step)
    requires After(steps) == Some(db) && Apply(db, s1) == Some(db1)
    ensures After(steps + [s1, s2]) == Apply(db1, s2)
  {
    hide After, Apply;
    OneMore(steps, db, s1);
    OneMore(steps + [s1], db1, s2);
    assert steps + [s1] + [s2] == steps + [s1, s2];
  }

  lemma {:induction false} HeadOfQueue(db: Db, b: Id)
    requires Fits(db) && b in db.backups && InTurn(db.backups[b])
    ensures db.queue != [] && db.queue[0] == b && b !in db.queue[1..] && db.pausers > 0
  {
    assert QueueFits(db) && GateFits(db);
    var i :| 0 <= i < |db.queue| && db.queue[i] == b;
    assert QueuedFits(db, i);
    assert b in Actives(db);
  }

  lemma AbortLeaves(db: Db, b: Id)
    requires b in db.backups && InTurn(db.backups[b]) && db.queue != []
    ensures Apply(db, Abort(b)) == Some(Release(db, b, true))
  {
  }

  lemma ResumeOpens(db: Db, b: Id)
    requires At(db, b, Released) && db.pausers > 0
    ensures Apply(db, Resume(b)) == Some(To(db, b, Finished).(pausers := db.pausers - 1, open := db.pausers == 1))
  {
  }

  /** A backup that fails at any point of its turn leaves: the next in the queue may begin, writes
      are resumed for its part, and the gate is open if no other backup holds it. */
  lemma FailedBackupLeaves(steps: seq<Step>, b: Id)
    requires After(steps).Some? && b in After(steps).value.backups && InTurn(After(steps).value.backups[b])
    ensures var db, end := After(steps).value, After(steps + [Abort(b), Resume(b)]);
            && end.Some? && At(end.value, b, Finished) && end.value.backups[b].failed
            && db.queue != [] && db.queue[0] == b && end.value.queue == db.queue[1..] && b !in end.value.queue
            && (forall c :: c in db.backups && c != b ==>
                  c in end.value.backups && end.value.backups[c] == db.backups[c])
            && (end.value.open <==> AllOthersResumed(db, b))
  {
    hide After, Fits;
    var db := After(steps).value;
    RunsFit(steps);
    HeadOfQueue(db, b);
    AbortLeaves(db, b);
    var mid := Release(db, b, true);
    ResumeOpens(mid, b);
    TwoMore(steps, db, Abort(b), mid, Resume(b));
    var all := steps + [Abort(b), Resume(b)];
    var end := After(all).value;
    OpenIffAllResumed(all, b);
    assert end.backups.Keys == db.backups.Keys;
    assert AllOthersResumed(end, b) <==> AllOthersResumed(db, b) by {
      if AllOthersResumed(end, b) {
        forall c | c in db.backups && c != b ensures db.backups[c].phase.Finished? {
          assert end.backups[c] == db.backups[c];
        }
      }
      if AllOthersResumed(db, b) {
        forall c | c in end.backups && c != b ensures end.backups[c].phase.Finished? {
          assert end.backups[c] == db.backups[c];
        }
      }
    }
  }

  lemma OpenIffAllResumed(steps: seq<Step>, b: Id)
    requires After(steps).Some? && At(After(steps).value, b, Finished)
    ensures After(steps).value.open <==> AllOthersResumed(After(steps).value, b)
  {
    hide After;
    GateReopensWithTheLast(steps);
  }

  // ---- the gate can always open again ----------------------------------------

  lemma FewerActive(db: Db, end: Db, b: Id)
    requires b in Actives(db) && At(end, b, Finished) && end.backups.Keys == db.backups.Keys
    requires forall c :: c in db.backups && c != b && db.backups[c].phase.Finished? ==> end.backups[c].phase.Finished?
    ensures |Actives(end)| < |Actives(db)|
  {
    assert Actives(end) <= Actives(db) - {b};
    SmallerSet(Actives(end), Actives(db) - {b});
  }

  lemma {:induction false} SmallerSet(a: set<Id>, b: set<Id>)
    requires a <= b
    ensures |a| <= |b|
    decreases |a|
  {
    if a != {} {
      var x :| x in a;
      SmallerSet(a - {x}, b - {x});
    }
  }

  lemma BeginTurns(db: Db, b: Id)
    requires db.queue != [] && db.queue[0] == b && At(db, b, Queued)
    ensures Apply(db, Begin(b)) == Some(To(db, b, Draining))
  {
  }

  /** While the gate is closed, some backup can leave. */
  lemma OneLeaves(steps: seq<Step>) returns (more: seq<Step>)
    requires After(steps).Some? && !After(steps).value.open
    ensures forall s :: s in more ==> OfBackups(s)
    ensures After(steps + more).Some?
    ensures |Actives(After(steps + more).value)| < |Actives(After(steps).value)|
  {
    hide After, Fits, QueueFits, Actives;
    var db := After(steps).value;
    RunsFit(steps);
    var b := SomeActive(db);
    if db.backups[b].phase.Released? {
      ResumeOpens(db, b);
      more := [Resume(b)];
      OneMore(steps, db, Resume(b));
      FewerActive(db, After(steps + more).value, b);
    } else {
      var h := HeadIsActive(db, b);
      if db.backups[h].phase.Queued? {
        BeginTurns(db, h);
        OneMore(steps, db, Begin(h));
        var began := To(db, h, Draining);
        FailedBackupLeaves(steps + [Begin(h)], h);
        more := [Begin(h), Abort(h), Resume(h)];
        assert steps + [Begin(h)] + [Abort(h), Resume(h)] == steps + more;
        KeysStay(steps + [Begin(h)], h);
        FewerActive(db, After(steps + more).value, h);
      } else {
        FailedBackupLeaves(steps, h);
        more := [Abort(h), Resume(h)];
        KeysStay(steps, h);
        FewerActive(db, After(steps + more).value, h);
      }
    }
  }

  lemma SomeActive(db: Db) returns (b: Id)
    requires Fits(db) && !db.open
    ensures b in Actives(db) && b in db.backups && Active(db.backups[b]) && db.pausers > 0
  {
    assert GateFits(db);
    b :| b in Actives(db);
  }

  lemma HeadIsActive(db: Db, b: Id) returns (h: Id)
    requires Fits(db) && b in db.backups && Active(db.backups[b]) && !db.backups[b].phase.Released?
    ensures db.queue != [] && db.queue[0] == h && h in db.backups && h in Actives(db)
    ensures db.backups[h].phase.Queued? || InTurn(db.backups[h])
  {
    assert QueueFits(db);
    assert b in db.queue;
    h := db.queue[0];
    assert QueuedFits(db, 0);
  }

  lemma KeysStay(steps: seq<Step>, b: Id)
    requires After(steps).Some? && b in After(steps).value.backups && InTurn(After(steps).value.backups[b])
    ensures After(steps + [Abort(b), Resume(b)]).Some?
    ensures After(steps + [Abort(b), Resume(b)]).value.backups.Keys == After(steps).value.backups.Keys
  {
    hide After, Fits;
    var db := After(steps).value;
    RunsFit(steps);
    HeadOfQueue(db, b);
    AbortLeaves(db, b);
    ResumeOpens(Release(db, b, true), b);
    TwoMore(steps, db, Abort(b), Release(db, b, true), Resume(b));
  }

  /** However many backups wait or are under way, and wherever they are, steps of backups alone can
      open the gate. */
  lemma {:induction false} GateCanReopen(steps: seq<Step>) returns (more: seq<Step>)
    requires After(steps).Some?
    ensures forall s :: s in more ==> OfBackups(s)
    ensures After(steps + more).Some? && After(steps + more).value.open
    decreases |Actives(After(steps).value)|
  {
    hide After, Actives;
    if After(steps).value.open {
      more := [];
      assert steps + more == steps;
    } else {
      var first := OneLeaves(steps);
      var rest := GateCanReopen(steps + first);
      more := first + rest;
      assert steps + first + rest == steps + more;
    }
  }

  // ---- the log can be mended -------------------------------------------------

  /** A recovery that fails leaves the database refusing writes for good; these are the runs without
      one. */
  predicate Mendable(steps: seq<Step>) {
    GiveUpRecovery !in steps
  }

  /** A poisoned log is being recovered, or a writer that will see to that has not left. */
  predicate WillMend(db: Db) {
    db.poisoned ==> db.recovering || db.dying != {}
  }

  lemma WriterWillMend(db: Db, step: Step)
    requires WillMend(db) && Apply(db, step).Some?
    requires step.Enter? || step.Append? || step.Ack? || step.FailBatch? || step.Fail? || step.Recover?
    ensures WillMend(Apply(db, step).value)
  {
    if db.tail != [] {
      assert db.tail[0] in Elems(db.tail);
    }
  }

  lemma OthersWillMend(db: Db, step: Step)
    requires WillMend(db) && Apply(db, step).Some? && !step.GiveUpRecovery?
    requires !(step.Enter? || step.Append? || step.Ack? || step.FailBatch? || step.Fail? || step.Recover?)
    ensures WillMend(Apply(db, step).value)
  {
  }

  lemma {:induction false} MendableRuns(steps: seq<Step>)
    requires Mendable(steps) && After(steps).Some?
    ensures WillMend(After(steps).value)
    decreases |steps|
  {
    hide Apply, WillMend;
    if steps == [] {
      StartWillMend();
    } else {
      var before, step := steps[..|steps| - 1], steps[|steps| - 1];
      MendableRuns(before);
      if step.Enter? || step.Append? || step.Ack? || step.FailBatch? || step.Fail? || step.Recover? {
        WriterWillMend(After(before).value, step);
      } else {
        OthersWillMend(After(before).value, step);
      }
    }
  }

  lemma StartWillMend()
    ensures WillMend(START)
  {
  }

  /** Nothing in flight, no recovery and no compaction under way, the log healthy and the gate open. */
  predicate Settled(db: Db) {
    db.open && InFlight(db) == {} && !db.poisoned && !db.recovering && db.compaction.Idle?
  }

  function StoppedCompaction(db: Db): Db {
    db.(compaction := Idle, finished := db.finished + 1)
  }

  lemma Measures(db: Db)
    ensures InFlight(db) == {} <==> db.entered == {} && db.tail == [] && db.dying == {}
  {
    if db.tail != [] {
      assert db.tail[0] in Elems(db.tail);
    }
    if InFlight(db) == {} {
      assert db.entered <= InFlight(db) && db.dying <= InFlight(db) && Elems(db.tail) <= InFlight(db);
    }
  }

  lemma FailGoes(db: Db, w: Op)
    requires w in db.entered || w in db.dying
    ensures var r := Apply(db, Fail(w));
            && r.Some? && r.value.entered == db.entered - {w} && r.value.dying == db.dying - {w}
            && r.value.tail == db.tail && r.value.open == db.open && r.value.compaction == db.compaction
  {
  }

  lemma AckGoes(db: Db)
    requires db.tail != []
    ensures var r := Apply(db, Ack);
            && r.Some? && r.value.entered == db.entered && r.value.dying == db.dying
            && r.value.tail == db.tail[1..] && r.value.open == db.open && r.value.compaction == db.compaction
  {
  }

  /** What is in flight can be acknowledged, or give up. */
  lemma {:induction false} WritersCanLeave(steps: seq<Step>) returns (more: seq<Step>)
    requires After(steps).Some? && After(steps).value.open && After(steps).value.compaction.Idle?
    ensures Mendable(more) && After(steps + more).Some?
    ensures var db := After(steps + more).value; db.open && db.compaction.Idle? && InFlight(db) == {}
    decreases var db := After(steps).value; |db.entered| + |db.dying| + |db.tail|
  {
    hide After, Apply;
    var db := After(steps).value;
    Measures(db);
    more := [];
    assert steps + [] == steps;
    if db.tail != [] {
      AckGoes(db);
      OneMore(steps, db, Ack);
      var rest := WritersCanLeave(steps + [Ack]);
      more := [Ack] + rest;
      assert steps + [Ack] + rest == steps + more;
    } else if db.entered + db.dying != {} {
      var w :| w in db.entered + db.dying;
      FailGoes(db, w);
      OneMore(steps, db, Fail(w));
      OneLess(db.entered, w);
      OneLess(db.dying, w);
      var rest := WritersCanLeave(steps + [Fail(w)]);
      more := [Fail(w)] + rest;
      assert steps + [Fail(w)] + rest == steps + more;
    }
  }

  lemma OneLess(s: set<Op>, w: Op)
    ensures |s - {w}| <= |s| && (w in s ==> |s - {w}| < |s|)
  {
    if w !in s {
      assert s - {w} == s;
    }
  }

  lemma {:induction false} FreshOp(used: set<Op>) returns (n: nat)
    ensures forall w :: w in used ==> w.id < n
    decreases |used|
  {
    n := 0;
    if used != {} {
      var u :| u in used;
      var m := FreshOp(used - {u});
      n := if u.id < m then m else u.id + 1;
    }
  }

  lemma RecoverMends(db: Db)
    requires db.recovering
    ensures Apply(db, Recover) == Some(db.(junk := [], poisoned := false, recovering := false))
  {
  }

  lemma StopCompaction(steps: seq<Step>) returns (more: seq<Step>)
    requires After(steps).Some? && After(steps).value.open
    ensures Mendable(more)
    ensures After(steps + more).Some? && After(steps + more).value.open && After(steps + more).value.compaction.Idle?
  {
    hide After;
    var db := After(steps).value;
    if db.compaction.Idle? {
      more := [];
      assert steps + more == steps;
    } else {
      more := [EndCompaction];
      OneMore(steps, db, EndCompaction);
    }
  }

  lemma Recovered(steps: seq<Step>)
    requires After(steps).Some? && After(steps).value.recovering && After(steps).value.open
    requires InFlight(After(steps).value) == {} && After(steps).value.compaction.Idle?
    ensures After(steps + [Recover]).Some? && Settled(After(steps + [Recover]).value)
  {
    hide After;
    RecoverMends(After(steps).value);
    OneMore(steps, After(steps).value, Recover);
  }

  lemma MendLog(steps: seq<Step>) returns (more: seq<Step>)
    requires Mendable(steps) && After(steps).Some? && After(steps).value.open
    requires InFlight(After(steps).value) == {} && After(steps).value.compaction.Idle?
    ensures Mendable(more) && After(steps + more).Some? && Settled(After(steps + more).value)
  {
    hide After;
    var db := After(steps).value;
    MendableRuns(steps);
    Measures(db);
    more := [];
    assert steps + [] == steps;
    if db.recovering {
      more := [Recover];
      Recovered(steps);
    }
  }

  lemma JoinMendable(a: seq<Step>, b: seq<Step>)
    requires Mendable(a) && Mendable(b)
    ensures Mendable(a + b)
  {
  }

  /** Unless a recovery has failed, the database can be brought to rest from every state of every run:
      the gate open, nothing in flight, no recovery and no compaction under way, and the log healthy. */
  lemma CanSettle(steps: seq<Step>) returns (more: seq<Step>)
    requires Mendable(steps) && After(steps).Some?
    ensures Mendable(more) && After(steps + more).Some? && Settled(After(steps + more).value)
  {
    hide After, Settled, Mendable;
    var first := GateCanReopen(steps);
    BackupsGiveUpNothing(first);
    JoinMendable(steps, first);
    var second := StopCompaction(steps + first);
    JoinMendable(steps + first, second);
    var third := WritersCanLeave(steps + first + second);
    JoinMendable(steps + first + second, third);
    var fourth := MendLog(steps + first + second + third);
    more := first + second + third + fourth;
    JoinMendable(first, second);
    JoinMendable(first + second, third);
    JoinMendable(first + second + third, fourth);
    assert steps + first + second + third + fourth == steps + more;
  }

  lemma BackupsGiveUpNothing(steps: seq<Step>)
    requires forall s :: s in steps ==> OfBackups(s)
    ensures Mendable(steps)
  {
  }

  // ---- and then writes and backups succeed -----------------------------------

  /** At rest a write that has not entered before is acknowledged, last. */
  lemma WriteSucceeds(steps: seq<Step>, w: Op)
    requires After(steps).Some? && Settled(After(steps).value) && w !in After(steps).value.used
    ensures var end := After(steps + [Enter(w), Append(w), Ack]);
            end.Some? && end.value.history == After(steps).value.history + [w]
            && end.value.log == After(steps).value.log + [w]
  {
    hide After;
    var db := After(steps).value;
    Measures(db);
    var entered := db.(used := db.used + {w}, entered := {w});
    var appended := db.(used := db.used + {w}, tail := [w]);
    assert {} + {w} == {w} && {w} - {w} == {} && [] + [w] == [w] && [w][1..] == [];
    ThreeMore(steps, db, Enter(w), entered, Append(w), appended, Ack);
  }

  /** At rest a compaction moves all that is acknowledged into the snapshot and empties the log. */
  lemma CompactionSucceeds(steps: seq<Step>)
    requires After(steps).Some? && Settled(After(steps).value)
    ensures var end := After(steps
                             + [StartCompaction, Fence, TakeSnapshot(true), RotateSnapshot, RotateWal, EndCompaction]);
            end.Some? && end.value.snapshot == After(steps).value.history && end.value.log == []
            && end.value.history == After(steps).value.history && end.value.compaction.Idle?
  {
    hide After, IsEnd;
    RunsFit(steps);
    var db := After(steps).value;
    Measures(db);
    var _ := RotatedOut(steps, db);
  }

  /** Backup b under way in a database that was at rest. */
  function Under(db: Db, b: Id, phase: Phase, snapshot: Option<seq<Op>>, wal: Option<seq<Op>>): Db {
    db.(pausers := 1, open := false, queue := [b],
        backups := db.backups[b := Backup(phase, false, db.history, {}, true, db.history, snapshot, wal, [])])
  }

  lemma Moves(db: Db, b: Id, before: Phase, after: Phase)
    ensures To(Under(db, b, before, None, None), b, after) == Under(db, b, after, None, None)
  {
    assert To(Under(db, b, before, None, None), b, after).backups == Under(db, b, after, None, None).backups;
  }

  lemma Calls(db: Db, b: Id)
    requires Settled(db) && db.pausers == 0 && db.queue == [] && b !in db.backups
    ensures Apply(db, Call(b)) == Some(Under(db, b, Queued, None, None))
  {
    assert [] + [b] == [b];
    assert DoCall(db, b).value.backups == Under(db, b, Queued, None, None).backups;
  }

  lemma Waits(db: Db, b: Id)
    requires Settled(db)
    ensures Apply(Under(db, b, Queued, None, None), Begin(b)) == Some(Under(db, b, Draining, None, None))
    ensures Apply(Under(db, b, Draining, None, None), PassDrain(b)) == Some(Under(db, b, AwaitingRecovery, None, None))
  {
    hide InFlight;
    Moves(db, b, Queued, Draining);
    Moves(db, b, Draining, AwaitingRecovery);
  }

  lemma WaitsMore(db: Db, b: Id)
    requires Settled(db)
    ensures Apply(Under(db, b, AwaitingRecovery, None, None), PassRecovery(b))
            == Some(Under(db, b, Flushing, None, None))
    ensures Apply(Under(db, b, Flushing, None, None), PassFlush(b)) == Some(Under(db, b, Copying, None, None))
  {
    hide InFlight;
    Moves(db, b, AwaitingRecovery, Flushing);
    Moves(db, b, Flushing, Copying);
  }

  lemma Copies(db: Db, b: Id)
    ensures Apply(Under(db, b, Copying, None, None), CopySnapshot(b))
            == Some(Under(db, b, Copying, Some(db.snapshot), None))
  {
    assert DoCopySnapshot(Under(db, b, Copying, None, None), b).value.backups
           == Under(db, b, Copying, Some(db.snapshot), None).backups;
  }

  lemma HeadIsQueued(db: Db)
    requires QueueFits(db) && db.queue != []
    ensures Actives(db) != {}
  {
    assert QueuedFits(db, 0);
    assert db.queue[0] in Actives(db);
  }

  lemma NobodyWaits(steps: seq<Step>)
    requires After(steps).Some? && After(steps).value.open
    ensures After(steps).value.pausers == 0 && After(steps).value.queue == []
  {
    RunsFit(steps);
    var db := After(steps).value;
    assert GateFits(db) && QueueFits(db);
    if db.queue != [] {
      HeadIsQueued(db);
    }
  }

  /** At rest a backup succeeds: it fences in exactly what is acknowledged, and copies both files. */
  lemma BackupSucceeds(steps: seq<Step>, b: Id) returns (more: seq<Step>)
    requires After(steps).Some? && Settled(After(steps).value) && b !in After(steps).value.backups
    ensures forall s :: s in more ==> OfBackups(s)
    ensures After(steps + more).Some? && At(After(steps + more).value, b, Finished)
    ensures var db, k := After(steps).value, After(steps + more).value.backups[b];
            && !k.failed && k.fence == db.history && k.snapshot == Some(db.snapshot)
            && k.wal == Some(db.log + db.junk)
  {
    hide After, Apply, Settled;
    var db := After(steps).value;
    SettledIsOpen(db);
    NobodyWaits(steps);
    Calls(db, b);
    Waits(db, b);
    WaitsMore(db, b);
    Copies(db, b);
    ThreeMore(steps, db, Call(b), Under(db, b, Queued, None, None), Begin(b), Under(db, b, Draining, None, None),
              PassDrain(b));
    var half := steps + [Call(b), Begin(b), PassDrain(b)];
    ThreeMore(half, Under(db, b, AwaitingRecovery, None, None), PassRecovery(b), Under(db, b, Flushing, None, None),
              PassFlush(b), Under(db, b, Copying, None, None), CopySnapshot(b));
    var most := half + [PassRecovery(b), PassFlush(b), CopySnapshot(b)];
    var _ := CopiedOut(most, Under(db, b, Copying, Some(db.snapshot), None), b);
    more := [Call(b), Begin(b), PassDrain(b)] + [PassRecovery(b), PassFlush(b), CopySnapshot(b)]
            + [CopyWal(b), Commit(b), Resume(b)];
    assert most + [CopyWal(b), Commit(b), Resume(b)] == steps + more;
    assert db.log + db.junk + db.tail == db.log + db.junk;
  }

  lemma SettledIsOpen(db: Db)
    requires Settled(db)
    ensures db.open && db.tail == []
  {
    Measures(db);
  }

  lemma {:induction false} FreshId(used: set<Id>) returns (b: Id)
    ensures forall c :: c in used ==> c < b
    decreases |used|
  {
    b := 0;
    if used != {} {
      var u :| u in used;
      var m := FreshId(used - {u});
      assert forall c :: c in used ==> c == u || c in used - {u};
      b := if u < m then m else u + 1;
    }
  }

  lemma StillSettled(steps: seq<Step>, w: Op)
    requires After(steps).Some? && Settled(After(steps).value) && w !in After(steps).value.used
    ensures var end := After(steps + [Enter(w), Append(w), Ack]);
            end.Some? && Settled(end.value) && end.value.backups.Keys == After(steps).value.backups.Keys
  {
    hide After;
    var db := After(steps).value;
    Measures(db);
    var entered := db.(used := db.used + {w}, entered := {w});
    var appended := db.(used := db.used + {w}, tail := [w]);
    assert {} + {w} == {w} && {w} - {w} == {} && [] + [w] == [w] && [w][1..] == [];
    ThreeMore(steps, db, Enter(w), entered, Append(w), appended, Ack);
    Measures(DoAck(appended).value);
  }

  /** No run without a failed recovery is a dead end: whatever else has happened, the database can be
      brought to rest, a new write acknowledged, and a new backup made that holds it. */
  lemma NoDeadEnds(steps: seq<Step>) returns (settle: seq<Step>, w: Op, b: Id, back: seq<Step>)
    requires Mendable(steps) && After(steps).Some?
    ensures After(steps + settle).Some?
    ensures w !in After(steps + settle).value.used && b !in After(steps + settle).value.backups
    ensures var end := After(steps + settle + [Enter(w), Append(w), Ack] + back);
            && end.Some? && At(end.value, b, Finished)
            && var k := end.value.backups[b];
               && !k.failed && k.fence == After(steps + settle).value.history + [w]
               && k.wal.Some? && w in k.wal.value
  {
    hide After, Settled;
    settle := CanSettle(steps);
    var db := After(steps + settle).value;
    var n := FreshOp(db.used);
    w := Op(n, 0);
    b := FreshId(db.backups.Keys);
    WriteSucceeds(steps + settle, w);
    StillSettled(steps + settle, w);
    back := BackupSucceeds(steps + settle + [Enter(w), Append(w), Ack], b);
  }
}
