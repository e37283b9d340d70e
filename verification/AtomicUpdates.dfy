/** What the lock buys, what a returned answer means, and what goes wrong without the lock or without
    private scratch names. */
module AtomicUpdates {
  import opened Wrappers
  import opened FileSystem
  import opened AtomicIo

  // ---------------------------------------------------------------- what readers see, step by step

  function VisibleAfter(env: Env, s: System, step: Step): Option<Content> {
    match step
    case Rename(p) => Some(Full(NewDoc(env, s, p)))
    case PowerLoss(_) => Durable(s.disk)
    case _ => Visible(s.disk)
  }

  /** The steps in which the directory reaches the device. */
  predicate Flushes(step: Step) {
    (step.FlushDir? && step.flushes) || step.WriteBackDir?
  }

  function DurableAfter(s: System, step: Step): Option<Content> {
    if Flushes(step) then Visible(s.disk) else Durable(s.disk)
  }

  /** Only a rename changes what a reader finds, and only flushing the directory what a crash recovers. */
  lemma ReadersStep(env: Env, init: Option<Content>, s: System, step: Step)
    requires Atomic(env, init, s) && Enabled(env, s, step) && Private(env, s)
    ensures Visible(Do(env, s, step).disk) == VisibleAfter(env, s, step)
    ensures Durable(Do(env, s, step).disk) == DurableAfter(s, step)
  {
    if step.Rename? {
      RenameStep(env, init, s, step.p);
    } else if step.PowerLoss? {
      CrashRecovers(s.disk, step.garbage);
    } else if Flushes(step) {
      FlushMoves(env, s, step);
      SyncDirSettles(s.disk);
    } else if step.FlushDir? {
      assert Do(env, s, step).disk == s.disk;
    } else if Bookkeeping(step) {
      BookkeepingMoves(env, s, step);
    } else {
      ScratchStepIsPrivate(env, init, s, step);
    }
  }

  lemma FlushMoves(env: Env, s: System, step: Step)
    requires Enabled(env, s, step) && Flushes(step)
    ensures Do(env, s, step).disk == SyncDir(s.disk)
  {
  }

  lemma ScratchStepIsPrivate(env: Env, init: Option<Content>, s: System, step: Step)
    requires Atomic(env, init, s) && Enabled(env, s, step)
    requires step.OpenScratch? || step.WriteScratch? || step.FsyncScratch? || step.Clean? || step.WriteBackData?
    ensures SameForReaders(s.disk, Do(env, s, step).disk)
  {
    match step
    case OpenScratch(p) => OpenIsPrivate(s.disk, Scratch(env.scratch(p)));
    case WriteScratch(p) =>
      assert WriterOk(env, s, p);
      FillIsPrivate(s.disk, Scratch(env.scratch(p)), NewDoc(env, s, p));
    case FsyncScratch(p) => FsyncIsPrivate(s.disk, P(s, p).fd);
    case Clean(p) => UnlinkIsPrivate(s.disk, Scratch(env.scratch(p)));
    case WriteBackData(i) => FsyncIsPrivate(s.disk, i);
  }

  // ---------------------------------------------------------------- no update is lost

  /** The mutate functions applied in commit order. A call whose reading failed starts from its default. */
  function Folded(env: Env, start: Option<Doc>, commits: seq<Commit>): Option<Doc> {
    if commits == [] then start
    else
      var c := commits[|commits| - 1];
      var before := if c.unread then None else Folded(env, start, commits[..|commits| - 1]);
      Some(env.mutate(c.pid, Base(env, c.pid, before)))
  }

  lemma FoldedSnoc(env: Env, start: Option<Doc>, commits: seq<Commit>, c: Commit)
    ensures Folded(env, start, commits + [c]) ==
            Some(env.mutate(c.pid, Base(env, c.pid, if c.unread then None else Folded(env, start, commits))))
  {
    assert (commits + [c])[..|commits|] == commits;
  }

  predicate HasRead(pc: Pc) { pc.Ready? || pc.Opened? || pc.Written? || pc.Synced? }

  ghost predicate InOrder(env: Env, init: Option<Content>, s: System) {
    && s.durable <= |s.commits|
    && AsDoc(Visible(s.disk)) == Folded(env, AsDoc(init), s.commits)
    && AsDoc(Durable(s.disk)) == Folded(env, AsDoc(init), s.commits[..s.durable])
    && forall p :: p in s.procs ==> UpToDate(s, s.procs[p])
  }

  /** What a call has read is still what the target holds. */
  predicate UpToDate(s: System, q: Proc) {
    && (q.pc.Locked? ==> !q.unread)
    && (HasRead(q.pc) ==> q.cur == if q.unread then None else AsDoc(Visible(s.disk)))
  }

  lemma InOrderStep(env: Env, init: Option<Content>, s: System, step: Step)
    requires Atomic(env, init, s) && AllLocked(s) && Private(env, s) && InOrder(env, init, s)
    requires Enabled(env, s, step) && !step.LockFails?
    ensures InOrder(env, init, Do(env, s, step))
  {
    ReadersStep(env, init, s, step);
    match step
    case Rename(p) => RenameInOrder(env, init, s, p);
    case PowerLoss(garbage) => PowerLossInOrder(env, init, s, garbage);
    case _ =>
      if Flushes(step) {
        FlushInOrder(env, init, s, step);
      } else {
        QuietInOrder(env, init, s, step);
      }
  }

  /** A step that changes neither what readers find nor the commits. */
  lemma QuietInOrder(env: Env, init: Option<Content>, s: System, step: Step)
    requires InOrder(env, init, s) && Enabled(env, s, step) && AllLocked(s)
    requires !step.LockFails? && !step.Rename? && !step.PowerLoss? && !Flushes(step)
    requires SameForReaders(s.disk, Do(env, s, step).disk)
    ensures InOrder(env, init, Do(env, s, step))
  {
    forall p | p in Do(env, s, step).procs
      ensures UpToDate(Do(env, s, step), Do(env, s, step).procs[p])
    {
      assert p in s.procs ==> UpToDate(s, s.procs[p]);
      StaysUpToDate(env, s, step, p);
    }
  }

  lemma StaysUpToDate(env: Env, s: System, step: Step, p: Pid)
    requires Enabled(env, s, step) && p in Do(env, s, step).procs && (p in s.procs ==> UpToDate(s, s.procs[p]))
    requires !step.Rename? && !step.PowerLoss?
    requires Visible(Do(env, s, step).disk) == Visible(s.disk)
    ensures UpToDate(Do(env, s, step), Do(env, s, step).procs[p])
  {
    if P(Do(env, s, step), p) != P(s, p) {
      assert step.p == p;
    }
  }

  lemma FlushInOrder(env: Env, init: Option<Content>, s: System, step: Step)
    requires InOrder(env, init, s) && Enabled(env, s, step) && Flushes(step)
    requires Visible(Do(env, s, step).disk) == Visible(s.disk) && Durable(Do(env, s, step).disk) == Visible(s.disk)
    ensures InOrder(env, init, Do(env, s, step))
  {
    assert s.commits[..|s.commits|] == s.commits;
    assert forall p :: p in s.procs ==> UpToDate(s, s.procs[p]);
  }

  lemma PowerLossInOrder(env: Env, init: Option<Content>, s: System, garbage: map<Inode, Content>)
    requires InOrder(env, init, s)
    requires var d := Do(env, s, PowerLoss(garbage)).disk;
             Visible(d) == Durable(s.disk) && Durable(d) == Durable(s.disk)
    ensures InOrder(env, init, Do(env, s, PowerLoss(garbage)))
  {
    assert s.commits[..s.durable][..s.durable] == s.commits[..s.durable];
  }

  lemma RenameInOrder(env: Env, init: Option<Content>, s: System, p: Pid)
    requires AllLocked(s) && InOrder(env, init, s) && Enabled(env, s, Rename(p))
    requires Visible(Do(env, s, Rename(p)).disk) == Some(Full(NewDoc(env, s, p)))
    requires Durable(Do(env, s, Rename(p)).disk) == Durable(s.disk)
    ensures InOrder(env, init, Do(env, s, Rename(p)))
  {
    var c := Commit(p, P(s, p).unread);
    assert UpToDate(s, s.procs[p]);
    FoldedSnoc(env, AsDoc(init), s.commits, c);
    assert (s.commits + [c])[..s.durable] == s.commits[..s.durable];
    var s' := Do(env, s, Rename(p));
    forall q | q in s'.procs
      ensures UpToDate(s', s'.procs[q])
    {
      assert q != p ==> !Busy(s.procs[q].pc);
    }
  }

  /** In every interleaving of calls whose lock succeeded, through failures, kills and crashes, the
      published document is the surviving mutations folded in commit order, starting over at every call
      that could not read. */
  lemma {:induction false} NoUpdateIsLost(env: Env, init: Option<Content>, steps: seq<Step>)
    requires Runs(env, Start(init), steps) && LockNeverFails(steps)
    ensures InOrder(env, init, Last(env, Start(init), steps))
  {
    if steps != [] {
      var before := steps[..|steps| - 1];
      assert LockNeverFails(before);
      NoUpdateIsLost(env, init, before);
      AllLockedRun(env, init, before);
      PrivateRun(env, init, before);
      AtomicRun(env, init, before);
      InOrderStep(env, init, Last(env, Start(init), before), steps[|steps| - 1]);
    }
  }

  /** Short of a crash every rename survives, in the order the renames were made; a call starts over
      from its default only if reading failed. */
  ghost predicate AllKept(s: System) {
    && |s.commits| == |s.published|
    && (forall i :: 0 <= i < |s.commits| ==> s.commits[i] == Commit(s.published[i].0, false))
    && (forall p :: p in s.procs ==> !s.procs[p].unread)
  }

  lemma AllKeptStep(env: Env, s: System, step: Step)
    requires AllKept(s) && Enabled(env, s, step) && !step.PowerLoss? && !step.ReadFails?
    ensures AllKept(Do(env, s, step))
  {
    assert step.Rename? ==> !P(s, step.p).unread;
  }

  lemma {:induction false} EveryRenameSurvives(env: Env, init: Option<Content>, steps: seq<Step>)
    requires Runs(env, Start(init), steps)
    requires forall i :: 0 <= i < |steps| ==> !steps[i].PowerLoss? && !steps[i].ReadFails?
    ensures AllKept(Last(env, Start(init), steps))
  {
    if steps != [] {
      EveryRenameSurvives(env, init, steps[..|steps| - 1]);
      AllKeptStep(env, Last(env, Start(init), steps[..|steps| - 1]), steps[|steps| - 1]);
    }
  }

  // ---------------------------------------------------------------- what an answer means

  predicate Published(s: System, p: Pid) {
    exists i :: 0 <= i < |s.published| && s.published[i].0 == p
  }

  predicate PublishedOnce(s: System) {
    forall i, j :: 0 <= i < j < |s.published| ==> s.published[i].0 != s.published[j].0
  }

  /** Where a call is decides whether its document has been published; a killed call tells nothing. */
  predicate Truthful(s: System, p: Pid) {
    var q := P(s, p);
    match q.pc
    case Renamed => Published(s, p) && !q.closeFailed && !q.late
    case Cleaning(r) => AnswerOk(s, p, r)
    case Leaving(r) => AnswerOk(s, p, r)
    case Done(r) => AnswerOk(s, p, r)
    case Dead => true
    case _ => !Published(s, p) && !q.closeFailed && !q.late
  }

  predicate AnswerOk(s: System, p: Pid, r: Answer) {
    match r
    case Wrote => Published(s, p) && !P(s, p).closeFailed && !P(s, p).late
    case Raised => Published(s, p) <==> P(s, p).late
    case NotWritten => (Published(s, p) <==> P(s, p).closeFailed) && !P(s, p).late
  }

  ghost predicate AllTruthful(s: System) {
    PublishedOnce(s) && forall p: Pid :: Truthful(s, p)
  }

  lemma TruthfulStep(env: Env, s: System, step: Step)
    requires AllTruthful(s) && Enabled(env, s, step)
    ensures AllTruthful(Do(env, s, step))
  {
    if step.Rename? {
      RenameIsTruthful(env, s, step.p);
    } else {
      var s' := Do(env, s, step);
      assert s'.published == s.published;
      forall p: Pid
        ensures Truthful(s', p)
      {
        assert Truthful(s, p);
        MovesTruthfully(env, s, step, p);
      }
    }
  }

  /** What one step does to one call, renames aside. */
  lemma MovesTruthfully(env: Env, s: System, step: Step, p: Pid)
    requires Truthful(s, p) && Enabled(env, s, step) && !step.Rename?
    ensures Truthful(Do(env, s, step), p)
  {
    var s' := Do(env, s, step);
    SamePublished(s, s', p);
    if P(s', p) != P(s, p) && !step.PowerLoss? {
      assert step.p == p;
    }
  }

  lemma SamePublished(s: System, s': System, p: Pid)
    ensures s.published == s'.published ==> Published(s, p) == Published(s', p)
  {
  }

  lemma RenameIsTruthful(env: Env, s: System, p: Pid)
    requires AllTruthful(s) && Enabled(env, s, Rename(p))
    ensures AllTruthful(Do(env, s, Rename(p)))
  {
    var s' := Do(env, s, Rename(p));
    assert Truthful(s, p);
    assert s'.published[|s.published|].0 == p;
    forall q: Pid
      ensures Truthful(s', q)
    {
      assert Truthful(s, q);
      if Published(s, q) {
        var i :| 0 <= i < |s.published| && s.published[i].0 == q;
        assert s'.published[i].0 == q;
      }
      if q != p && Published(s', q) {
        var i :| 0 <= i < |s'.published| && s'.published[i].0 == q;
        assert s.published[i].0 == q;
      }
    }
  }

  lemma {:induction false} AlwaysTruthful(env: Env, init: Option<Content>, steps: seq<Step>)
    requires Runs(env, Start(init), steps)
    ensures AllTruthful(Last(env, Start(init), steps))
  {
    if steps != [] {
      AlwaysTruthful(env, init, steps[..|steps| - 1]);
      TruthfulStep(env, Last(env, Start(init), steps[..|steps| - 1]), steps[|steps| - 1]);
    }
  }

  /** In every interleaving: a call that returned true published its document, once; one that returned
      false did not, except exactly when its rename took effect and then closing the directory handle
      failed; and one that raised did not, except exactly when an interrupt came after its rename. */
  lemma AnswerMeansPublished(env: Env, init: Option<Content>, steps: seq<Step>, p: Pid)
    requires Runs(env, Start(init), steps) && P(Last(env, Start(init), steps), p).pc.Done?
    ensures var s := Last(env, Start(init), steps);
            && PublishedOnce(s)
            && (Published(s, p) <==>
                  || P(s, p).pc.r == Wrote
                  || (P(s, p).pc.r == NotWritten && P(s, p).closeFailed)
                  || (P(s, p).pc.r == Raised && P(s, p).late))
  {
    AlwaysTruthful(env, init, steps);
    assert Truthful(Last(env, Start(init), steps), p);
  }

  // ---------------------------------------------------------------- what survives a crash

  predicate OnDevice(s: System, p: Pid) {
    exists i :: 0 <= i < s.durable && i < |s.commits| && s.commits[i].pid == p
  }

  /** A call in its last phase has its commit among those not yet lost. */
  predicate Surviving(s: System, p: Pid) {
    && (P(s, p).flushed ==> OnDevice(s, p))
    && (P(s, p).pc.Renamed? ==> exists i :: 0 <= i < |s.commits| && s.commits[i].pid == p)
  }

  ghost predicate AllSurviving(s: System) {
    s.durable <= |s.commits| && forall p: Pid :: Surviving(s, p)
  }

  lemma SurvivingStep(env: Env, s: System, step: Step)
    requires AllSurviving(s) && Enabled(env, s, step)
    ensures AllSurviving(Do(env, s, step))
  {
    forall p: Pid
      ensures Surviving(Do(env, s, step), p)
    {
      assert Surviving(s, p);
      SurvivesStep(env, s, step, p);
    }
  }

  lemma SurvivesStep(env: Env, s: System, step: Step, p: Pid)
    requires s.durable <= |s.commits| && Surviving(s, p) && Enabled(env, s, step)
    ensures Surviving(Do(env, s, step), p)
  {
    var s' := Do(env, s, step);
    if P(s, p).flushed {
      var i :| 0 <= i < s.durable && i < |s.commits| && s.commits[i].pid == p;
      assert s'.commits[i].pid == p;
    }
    if P(s, p).pc.Renamed? {
      var i :| 0 <= i < |s.commits| && s.commits[i].pid == p;
      assert !step.PowerLoss? ==> s'.commits[i].pid == p;
    }
    if step == Rename(p) {
      assert s'.commits[|s.commits|].pid == p;
    }
  }

  /** A call whose directory flush went through is among the surviving commits in every later state,
      whatever crashes come after. */
  lemma {:induction false} FlushedCallsSurviveCrashes(env: Env, init: Option<Content>, steps: seq<Step>)
    requires Runs(env, Start(init), steps)
    ensures AllSurviving(Last(env, Start(init), steps))
  {
    if steps != [] {
      FlushedCallsSurviveCrashes(env, init, steps[..|steps| - 1]);
      SurvivingStep(env, Last(env, Start(init), steps[..|steps| - 1]), steps[|steps| - 1]);
    }
  }

  // ---------------------------------------------------------------- without the lock

  lemma OpenedState(env: Env, s: System, p: Pid)
    requires P(s, p).pc == Ready
    ensures var i := OpenInode(s.disk, Scratch(env.scratch(p)));
            Do(env, s, OpenScratch(p)) ==
            s.(disk := Open(s.disk, Scratch(env.scratch(p))), procs := s.procs[p := P(s, p).(pc := Opened, fd := i)])
  {
  }

  lemma WrittenState(env: Env, s: System, p: Pid)
    requires P(s, p).pc == Opened
    ensures Do(env, s, WriteScratch(p)) ==
            s.(disk := Fill(s.disk, P(s, p).fd, NewDoc(env, s, p)), procs := s.procs[p := P(s, p).(pc := Written)])
  {
  }

  lemma SyncedState(env: Env, s: System, p: Pid)
    requires P(s, p).pc == Written
    ensures Do(env, s, FsyncScratch(p)) ==
            s.(disk := Fsync(s.disk, P(s, p).fd), procs := s.procs[p := P(s, p).(pc := Synced)])
  {
  }

  /** From a state in which `p` has read, three steps leave a filled and flushed scratch file. */
  lemma FilledState(env: Env, s: System, p: Pid) returns (s1: System, s2: System, s3: System)
    requires P(s, p).pc == Ready
    ensures s1 == Do(env, s, OpenScratch(p))
    ensures Enabled(env, s1, WriteScratch(p)) && s2 == Do(env, s1, WriteScratch(p))
    ensures Enabled(env, s2, FsyncScratch(p)) && s3 == Do(env, s2, FsyncScratch(p))
    ensures FilledBy(env, s, p, s3)
  {
    OpenedState(env, s, p);
    s1 := Do(env, s, OpenScratch(p));
    WrittenState(env, s1, p);
    s2 := Do(env, s1, WriteScratch(p));
    SyncedState(env, s2, p);
    s3 := Do(env, s2, FsyncScratch(p));
    var a := P(s, p).(pc := Opened, fd := OpenInode(s.disk, Scratch(env.scratch(p))));
    LastPutCounts(s.procs, p, a, a.(pc := Written));
    LastPutCounts(s.procs, p, a.(pc := Written), a.(pc := Synced));
    assert NewDoc(env, s1, p) == NewDoc(env, s, p);
  }

  lemma LastPutCounts(procs: map<Pid, Proc>, p: Pid, a: Proc, b: Proc)
    ensures procs[p := a][p := b] == procs[p := b]
  {
  }

  predicate FilledBy(env: Env, before: System, p: Pid, after: System) {
    var n := Scratch(env.scratch(p));
    var i := OpenInode(before.disk, n);
    && after.disk == Fsync(Fill(Open(before.disk, n), i, NewDoc(env, before, p)), i)
    && after.procs == before.procs[p := P(before, p).(pc := Synced, fd := i)]
    && after.published == before.published && after.holder == before.holder && after.commits == before.commits
  }

  lemma FillBlindly(env: Env, s: System, steps: seq<Step>, p: Pid) returns (more: seq<Step>)
    requires Runs(env, s, steps) && P(Last(env, s, steps), p).pc == Ready
    ensures Runs(env, s, more) && more == steps + [OpenScratch(p)] + [WriteScratch(p)] + [FsyncScratch(p)]
    ensures FilledBy(env, Last(env, s, steps), p, Last(env, s, more))
  {
    var s1, s2, s3 := FilledState(env, Last(env, s, steps), p);
    Then(env, s, steps, OpenScratch(p));
    more := steps + [OpenScratch(p)];
    Then(env, s, more, WriteScratch(p));
    more := more + [WriteScratch(p)];
    Then(env, s, more, FsyncScratch(p));
    more := more + [FsyncScratch(p)];
  }

  /** ... and a fourth publishes what it made of that reading, whatever has been published since. */
  lemma CommitBlindly(env: Env, s: System, steps: seq<Step>, p: Pid) returns (more: seq<Step>)
    requires Runs(env, s, steps) && P(Last(env, s, steps), p).pc == Ready
    ensures Runs(env, s, more)
    ensures more == steps + [OpenScratch(p)] + [WriteScratch(p)] + [FsyncScratch(p)] + [Rename(p)]
    ensures var before, after := Last(env, s, steps), Last(env, s, more);
            && Visible(after.disk) == Some(Full(NewDoc(env, before, p)))
            && after.published == before.published + [(p, NewDoc(env, before, p))]
            && after.commits == before.commits + [Commit(p, P(before, p).unread)]
            && after.procs == before.procs[p := P(after, p)]
  {
    more := FillBlindly(env, s, steps, p);
    Then(env, s, more, Rename(p));
    more := more + [Rename(p)];
  }

  /** Two calls whose lock failed can both read the document from before the run. */
  lemma BothRead(env: Env, init: Option<Content>, p: Pid, q: Pid) returns (steps: seq<Step>)
    requires p != q
    ensures Runs(env, Start(init), steps) && ReadsNeverFail(steps)
    ensures var s := Last(env, Start(init), steps);
            && P(s, p) == P(s, q) == FRESH.(pc := Ready, cur := AsDoc(init))
            && s.published == [] && s.commits == []
  {
    var s0 := Start(init);
    steps := [];
    Then(env, s0, steps, LockFails(p));
    steps := steps + [LockFails(p)];
    Then(env, s0, steps, LockFails(q));
    steps := steps + [LockFails(q)];
    Then(env, s0, steps, Read(p));
    steps := steps + [Read(p)];
    Then(env, s0, steps, Read(q));
    steps := steps + [Read(q)];
  }

  /** Then both publish, and the first one's change is not in the result. */
  lemma UnlockedUpdateIsLost(env: Env, init: Option<Content>, p: Pid, q: Pid) returns (steps: seq<Step>)
    requires p != q
    ensures Runs(env, Start(init), steps) && ReadsNeverFail(steps)
    ensures var s := Last(env, Start(init), steps);
            && Published(s, p) && Published(s, q)
            && s.commits == [Commit(p, false), Commit(q, false)]
            && Visible(s.disk) == Some(Full(env.mutate(q, Base(env, q, AsDoc(init)))))
  {
    var s0 := Start(init);
    steps := BothRead(env, init, p, q);
    steps := CommitBlindly(env, s0, steps, p);
    ghost var once := Last(env, s0, steps);
    assert P(once, q) == FRESH.(pc := Ready, cur := AsDoc(init));
    assert once.published[0].0 == p;
    steps := CommitBlindly(env, s0, steps, q);
    ghost var s := Last(env, s0, steps);
    assert s.published[0].0 == p && s.published[1].0 == q;
  }

  /** What `q` makes of the document from before the run shows that `p` had no part in it. */
  ghost predicate Interfere(env: Env, init: Option<Content>, p: Pid, q: Pid) {
    && p != q
    && env.mutate(q, Base(env, q, AsDoc(init))) != env.mutate(q, env.mutate(p, Base(env, p, AsDoc(init))))
  }

  predicate ReadsNeverFail(steps: seq<Step>) {
    forall i :: 0 <= i < |steps| ==> !steps[i].ReadFails?
  }

  /** The runs of a place where the lock can be relied on, or reading can, or both. */
  predicate Allowed(lockHolds: bool, readsWork: bool, steps: seq<Step>) {
    (lockHolds ==> LockNeverFails(steps)) && (readsWork ==> ReadsNeverFail(steps))
  }

  /** The mutate functions applied in commit order, each to what the ones before it made. */
  function Plain(env: Env, start: Option<Doc>, commits: seq<Commit>): Option<Doc> {
    if commits == [] then start
    else
      var c := commits[|commits| - 1];
      Some(env.mutate(c.pid, Base(env, c.pid, Plain(env, start, commits[..|commits| - 1]))))
  }

  lemma PlainSnoc(env: Env, start: Option<Doc>, commits: seq<Commit>, c: Commit)
    ensures Plain(env, start, commits + [c]) == Some(env.mutate(c.pid, Base(env, c.pid, Plain(env, start, commits))))
  {
    assert (commits + [c])[..|commits|] == commits;
  }

  /** Every surviving change is in the document, and every durable one in what a crash recovers. */
  ghost predicate NoneSkipped(env: Env, init: Option<Content>, s: System) {
    && s.durable <= |s.commits|
    && AsDoc(Visible(s.disk)) == Plain(env, AsDoc(init), s.commits)
    && AsDoc(Durable(s.disk)) == Plain(env, AsDoc(init), s.commits[..s.durable])
  }

  ghost predicate UpdatesKept(env: Env, lockHolds: bool, readsWork: bool) {
    forall init: Option<Content>, steps: seq<Step> ::
      Runs(env, Start(init), steps) && Allowed(lockHolds, readsWork, steps) ==>
      NoneSkipped(env, init, Last(env, Start(init), steps))
  }

  // No call starts over when reads never fail.

  predicate AllHaveRead(s: System) {
    && (forall c :: c in s.commits ==> !c.unread)
    && (forall p :: p in s.procs ==> !s.procs[p].unread)
  }

  lemma AllHaveReadStep(env: Env, s: System, step: Step)
    requires AllHaveRead(s) && Enabled(env, s, step) && !step.ReadFails?
    ensures AllHaveRead(Do(env, s, step))
  {
    forall p | p in Do(env, s, step).procs
      ensures !Do(env, s, step).procs[p].unread
    {
      KeepsItsReading(env, s, step, p);
    }
    CommitsGrow(env, s, step);
  }

  lemma KeepsItsReading(env: Env, s: System, step: Step, p: Pid)
    requires Enabled(env, s, step) && !step.ReadFails? && p in Do(env, s, step).procs
    requires p in s.procs ==> !s.procs[p].unread
    ensures !Do(env, s, step).procs[p].unread
  {
  }

  lemma CommitsGrow(env: Env, s: System, step: Step)
    requires Enabled(env, s, step)
    ensures forall c :: c in Do(env, s, step).commits ==>
              c in s.commits || (step.Rename? && c == Commit(step.p, P(s, step.p).unread))
  {
  }

  lemma {:induction false} AllHaveReadRun(env: Env, init: Option<Content>, steps: seq<Step>)
    requires Runs(env, Start(init), steps) && ReadsNeverFail(steps)
    ensures AllHaveRead(Last(env, Start(init), steps))
  {
    if steps != [] {
      AllHaveReadRun(env, init, steps[..|steps| - 1]);
      AllHaveReadStep(env, Last(env, Start(init), steps[..|steps| - 1]), steps[|steps| - 1]);
    }
  }

  lemma {:induction false} FoldedIsPlain(env: Env, start: Option<Doc>, commits: seq<Commit>)
    requires forall c :: c in commits ==> !c.unread
    ensures Folded(env, start, commits) == Plain(env, start, commits)
  {
    if commits != [] {
      var init, c := commits[..|commits| - 1], commits[|commits| - 1];
      assert commits == init + [c];
      FoldedIsPlain(env, start, init);
    }
  }

  lemma KeptWithBoth(env: Env, init: Option<Content>, steps: seq<Step>)
    requires Runs(env, Start(init), steps) && LockNeverFails(steps) && ReadsNeverFail(steps)
    ensures NoneSkipped(env, init, Last(env, Start(init), steps))
  {
    NoUpdateIsLost(env, init, steps);
    AllHaveReadRun(env, init, steps);
    var s := Last(env, Start(init), steps);
    FoldedIsPlain(env, AsDoc(init), s.commits);
    FoldedIsPlain(env, AsDoc(init), s.commits[..s.durable]);
  }

  lemma LockedUnread(env: Env, init: Option<Content>, q: Pid) returns (steps: seq<Step>)
    ensures Runs(env, Start(init), steps) && LockNeverFails(steps)
    ensures var s := Last(env, Start(init), steps);
            && P(s, q) == FRESH.(pc := Ready, holds := true, unread := true)
            && s.published == [] && s.commits == []
  {
    var s0 := Start(init);
    steps := [];
    Then(env, s0, steps, Lock(q));
    steps := steps + [Lock(q)];
    Then(env, s0, steps, ReadFails(q));
    steps := steps + [ReadFails(q)];
  }

  /** A locked call that cannot read the document replaces it by what it makes of its default. */
  lemma UnreadUpdateIsLost(env: Env, init: Option<Content>, q: Pid) returns (steps: seq<Step>)
    ensures Runs(env, Start(init), steps) && LockNeverFails(steps)
    ensures var s := Last(env, Start(init), steps);
            && Published(s, q) && s.commits == [Commit(q, true)]
            && Visible(s.disk) == Some(Full(env.mutate(q, env.dflt(q))))
  {
    var before := LockedUnread(env, init, q);
    steps := CommitBlindly(env, Start(init), before, q);
    assert Last(env, Start(init), steps).published[0].0 == q;
  }

  /** Some document is not made the same by `q` as its default is. */
  lemma SomethingToLose(env: Env, init: Option<Content>, p: Pid, q: Pid) returns (d: Doc)
    requires Interfere(env, init, p, q)
    ensures env.mutate(q, d) != env.mutate(q, env.dflt(q))
  {
    d := env.mutate(p, Base(env, p, AsDoc(init)));
    if env.mutate(q, d) == env.mutate(q, env.dflt(q)) {
      d := Base(env, q, AsDoc(init));
    }
  }

  /** For calls that do not all absorb one another's changes, no run skips an update if and only if taking
      the lock cannot fail and neither can reading the document. */
  lemma UpdatesKeptExactly(env: Env, lockHolds: bool, readsWork: bool)
    requires exists init, p, q :: Interfere(env, init, p, q)
    ensures UpdatesKept(env, lockHolds, readsWork) <==> lockHolds && readsWork
  {
    if lockHolds && readsWork {
      KeptByBoth(env);
    } else {
      var init, p, q :| Interfere(env, init, p, q);
      if !lockHolds {
        NotKeptUnlocked(env, readsWork, init, p, q);
      } else {
        NotKeptUnread(env, lockHolds, init, p, q);
      }
    }
  }

  lemma KeptByBoth(env: Env)
    ensures UpdatesKept(env, true, true)
  {
    forall init: Option<Content>, steps: seq<Step> | Runs(env, Start(init), steps) && Allowed(true, true, steps)
      ensures NoneSkipped(env, init, Last(env, Start(init), steps))
    {
      KeptWithBoth(env, init, steps);
    }
  }

  lemma NotKeptUnlocked(env: Env, readsWork: bool, init: Option<Content>, p: Pid, q: Pid)
    requires Interfere(env, init, p, q)
    ensures !UpdatesKept(env, false, readsWork)
  {
    var steps := UnlockedUpdateIsLost(env, init, p, q);
    PlainOfTwo(env, AsDoc(init), p, q);
    assert Allowed(false, readsWork, steps) && !NoneSkipped(env, init, Last(env, Start(init), steps));
  }

  lemma NotKeptUnread(env: Env, lockHolds: bool, init: Option<Content>, p: Pid, q: Pid)
    requires Interfere(env, init, p, q)
    ensures !UpdatesKept(env, lockHolds, false)
  {
    var d := SomethingToLose(env, init, p, q);
    var before := Some(Full(d));
    var steps := UnreadUpdateIsLost(env, before, q);
    PlainSnoc(env, Some(d), [], Commit(q, true));
    assert [] + [Commit(q, true)] == [Commit(q, true)];
    assert Allowed(lockHolds, false, steps) && !NoneSkipped(env, before, Last(env, Start(before), steps));
  }

  lemma PlainOfTwo(env: Env, start: Option<Doc>, p: Pid, q: Pid)
    ensures Plain(env, start, [Commit(p, false), Commit(q, false)]) ==
            Some(env.mutate(q, env.mutate(p, Base(env, p, start))))
  {
    PlainSnoc(env, start, [], Commit(p, false));
    PlainSnoc(env, start, [Commit(p, false)], Commit(q, false));
    assert [] + [Commit(p, false)] == [Commit(p, false)];
    assert [Commit(p, false)] + [Commit(q, false)] == [Commit(p, false), Commit(q, false)];
  }

  // ---------------------------------------------------------------- without private scratch names

  lemma Then(env: Env, s: System, steps: seq<Step>, step: Step)
    requires Runs(env, s, steps) && Enabled(env, Last(env, s, steps), step)
    ensures Runs(env, s, steps + [step]) && Last(env, s, steps + [step]) == Do(env, Last(env, s, steps), step)
  {
    assert (steps + [step])[..|steps|] == steps;
  }

  /** Two unlocked calls with one scratch name: `q` empties the file that `p` has filled and flushed,
      and `p` then renames it over the target. */
  lemma SharedScratchTears(env: Env, p: Pid, q: Pid) returns (steps: seq<Step>)
    requires p != q && env.scratch(p) == env.scratch(q)
    ensures Runs(env, Start(None), steps)
    ensures Visible(Last(env, Start(None), steps).disk) == Some(Torn)
  {
    var s0 := Start(None);
    steps := FillScratch(env, p);
    EmptiedState(env, Last(env, s0, steps), p, q);
    Then(env, s0, steps, LockFails(q));
    steps := steps + [LockFails(q)];
    Then(env, s0, steps, Read(q));
    steps := steps + [Read(q)];
    Then(env, s0, steps, OpenScratch(q));
    steps := steps + [OpenScratch(q)];
    Then(env, s0, steps, Rename(p));
    steps := steps + [Rename(p)];
  }

  /** `q` locks (in vain), reads and opens while `p` is about to rename. */
  lemma EmptiedState(env: Env, s: System, p: Pid, q: Pid)
    requires p != q && env.scratch(p) == env.scratch(q) && q !in s.procs
    requires P(s, p).pc == Synced && Scratch(env.scratch(p)) in s.disk.dir
    ensures var s1 := Do(env, s, LockFails(q));
            && Enabled(env, s1, Read(q))
            && var s2 := Do(env, s1, Read(q));
            && Enabled(env, s2, OpenScratch(q))
            && var s3 := Do(env, s2, OpenScratch(q));
            && Enabled(env, s3, Rename(p)) && Visible(Do(env, s3, Rename(p)).disk) == Some(Torn)
  {
  }

  /** One unlocked call up to the point where its scratch file is filled and flushed. */
  lemma FillScratch(env: Env, p: Pid) returns (steps: seq<Step>)
    ensures Runs(env, Start(None), steps)
    ensures var s := Last(env, Start(None), steps);
            Scratch(env.scratch(p)) in s.disk.dir && P(s, p).pc == Synced && s.procs.Keys == {p}
  {
    var s0 := Start(None);
    steps := [];
    Then(env, s0, steps, LockFails(p));
    steps := steps + [LockFails(p)];
    Then(env, s0, steps, Read(p));
    steps := steps + [Read(p)];
    steps := FillBlindly(env, s0, steps, p);
  }

  /** In every run readers find what was there before it or one whole published document. */
  ghost predicate AlwaysWhole(env: Env) {
    forall init: Option<Content>, steps: seq<Step> ::
      Runs(env, Start(init), steps) ==>
      Whole(init, Last(env, Start(init), steps), Visible(Last(env, Start(init), steps).disk))
  }

  /** Without the lock, readers are safe from torn documents if and only if no two calls can pick the
      same scratch name. */
  lemma AtomicExactlyWhenScratchIsPrivate(env: Env)
    ensures AlwaysWhole(env) <==> ScratchNamesUnique(env)
  {
    if ScratchNamesUnique(env) {
      forall init: Option<Content>, steps: seq<Step> | Runs(env, Start(init), steps)
        ensures Whole(init, Last(env, Start(init), steps), Visible(Last(env, Start(init), steps).disk))
      {
        PrivateRun(env, init, steps);
        AtomicRun(env, init, steps);
      }
    } else {
      var p: Pid, q: Pid :| p != q && env.scratch(p) == env.scratch(q);
      var steps := SharedScratchTears(env, p, q);
      assert !Whole(None, Last(env, Start(None), steps), Visible(Last(env, Start(None), steps).disk));
    }
  }

  /** How a call's scratch name comes about: from the process it runs in and the path object it was given. */
  ghost predicate NamedBy(env: Env, process: Pid -> nat, path: Pid -> nat, name: (nat, nat) -> nat) {
    && (forall a: nat, b: nat, c: nat, d: nat :: name(a, b) == name(c, d) ==> a == c && b == d)
    && forall p: Pid :: env.scratch(p) == name(process(p), path(p))
  }

  ghost predicate PathsNotShared(process: Pid -> nat, path: Pid -> nat) {
    forall p: Pid, q: Pid :: p != q && process(p) == process(q) ==> path(p) != path(q)
  }

  /** So without the lock readers are safe in every run if and only if no two calls of one process are
      given the same path object: two threads that share one can publish a torn document. */
  lemma AtomicExactlyWhenPathsAreNotShared(env: Env, process: Pid -> nat, path: Pid -> nat, name: (nat, nat) -> nat)
    requires NamedBy(env, process, path, name)
    ensures AlwaysWhole(env) <==> PathsNotShared(process, path)
  {
    AtomicExactlyWhenScratchIsPrivate(env);
    if !PathsNotShared(process, path) {
      var p: Pid, q: Pid :| p != q && process(p) == process(q) && path(p) == path(q);
      assert env.scratch(p) == env.scratch(q);
    }
    if !ScratchNamesUnique(env) {
      var p: Pid, q: Pid :| p != q && env.scratch(p) == env.scratch(q);
      assert process(p) == process(q) && path(p) == path(q);
    }
  }
}
