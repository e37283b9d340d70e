/** `update_json` run by any number of processes at once: lock, read, write a private scratch file,
    flush it, rename it over the target, flush the directory, clean up, unlock. Steps of different
    processes interleave freely; any call can fail, any process can be killed, and the machine can crash. */
module AtomicIo {
  import opened Wrappers
  import opened FileSystem

  type Pid = nat

  /** What differs between the calls: each changes the document its own way, and has its own default and
      its own scratch name. */
  datatype Env = Env(mutate: (Pid, Doc) -> Doc, dflt: Pid -> Doc, scratch: Pid -> nat)

  datatype Answer = Wrote | NotWritten | Raised

  datatype Pc = Idle | Locked | Ready | Opened | Written | Synced | Renamed | Cleaning(r: Answer) | Leaving(r: Answer)
              | Done(r: Answer) | Dead

  /** One call: where it is, whether it holds the lock, the document it read (none: absent, unreadable or
      not a document), whether that reading failed, the scratch file it opened, whether it saw the
      directory reach the device, whether closing the directory then failed, and whether an interrupt
      came after its rename. */
  datatype Proc = Proc(pc: Pc, holds: bool, cur: Option<Doc>, unread: bool, fd: Inode, flushed: bool,
                       closeFailed: bool, late: bool)
  {
    /** Past its rename, and on to its answer. */
    predicate AfterRename() {
      || pc.Renamed?
      || late
      || ((pc.Cleaning? || pc.Leaving?) && (pc.r == Wrote || (pc.r == NotWritten && closeFailed)))
    }
  }

  const FRESH := Proc(Idle, false, None, false, 0, false, false, false)

  /** A rename that took effect. `unread` marks a call that started over from its default because
      reading the target failed. */
  datatype Commit = Commit(pid: Pid, unread: bool)

  /** `commits` is what survives of the renames, in order, of which the device has the first `durable`;
      `published` remembers every rename ever made with the document it published. */
  datatype System = System(disk: Disk, holder: Option<Pid>, procs: map<Pid, Proc>, commits: seq<Commit>, durable: nat,
                           published: seq<(Pid, Doc)>)

  function Start(init: Option<Content>): System {
    var dir: map<Name, Inode> := if init.Some? then map[Target := 0] else map[];
    var data: map<Inode, Content> := if init.Some? then map[0 := init.value] else map[];
    System(Disk(dir, dir, data, data.Keys, 1), None, map[], [], 0, [])
  }

  function P(s: System, p: Pid): Proc {
    if p in s.procs then s.procs[p] else FRESH
  }

  function Base(env: Env, p: Pid, cur: Option<Doc>): Doc {
    if cur.Some? then cur.value else env.dflt(p)
  }

  /** The document a call writes. */
  function NewDoc(env: Env, s: System, p: Pid): Doc {
    env.mutate(p, Base(env, p, P(s, p).cur))
  }

  function AsDoc(c: Option<Content>): Option<Doc> {
    if c.Some? && c.value.Full? then Some(c.value.doc) else None
  }

  datatype Step =
    | Lock(p: Pid) | LockFails(p: Pid)
    | Read(p: Pid) | ReadFails(p: Pid) | ReadRaises(p: Pid) | MutateRaises(p: Pid)
    | OpenScratch(p: Pid) | WriteScratch(p: Pid) | FsyncScratch(p: Pid) | Rename(p: Pid)
    | FlushDir(p: Pid, flushes: bool, closeFails: bool) | SkipFlushDir(p: Pid)
    | Fail(p: Pid, raises: bool) | Interrupt(p: Pid)
    | Clean(p: Pid) | CleanFails(p: Pid) | Unlock(p: Pid) | Kill(p: Pid)
    | WriteBackDir | WriteBackData(i: Inode) | PowerLoss(garbage: map<Inode, Content>)

  predicate Enabled(env: Env, s: System, step: Step) {
    match step
    case Lock(p) => P(s, p).pc == Idle && s.holder.None?
    case LockFails(p) => P(s, p).pc == Idle
    case Read(p) => P(s, p).pc == Locked
    case ReadFails(p) => P(s, p).pc == Locked
    case ReadRaises(p) => P(s, p).pc == Locked
    case MutateRaises(p) => P(s, p).pc == Ready
    case OpenScratch(p) => P(s, p).pc == Ready
    case WriteScratch(p) => P(s, p).pc == Opened
    case FsyncScratch(p) => P(s, p).pc == Written
    case Rename(p) => P(s, p).pc == Synced && Scratch(env.scratch(p)) in s.disk.dir
    case FlushDir(p, _, _) => P(s, p).pc == Renamed
    case SkipFlushDir(p) => P(s, p).pc == Renamed
    case Fail(p, _) => P(s, p).pc in {Ready, Opened, Written, Synced}
    case Interrupt(p) => P(s, p).pc.Renamed? || P(s, p).pc.Cleaning? || P(s, p).pc.Leaving?
    case Clean(p) => P(s, p).pc.Cleaning?
    case CleanFails(p) => P(s, p).pc.Cleaning?
    case Unlock(p) => P(s, p).pc.Leaving?
    case Kill(p) => Busy(P(s, p).pc)
    case WriteBackDir => true
    case WriteBackData(i) => true
    case PowerLoss(_) => true
  }

  /** Between taking the lock (or failing to) and giving it back. */
  predicate Busy(pc: Pc) {
    !pc.Idle? && !pc.Done? && !pc.Dead?
  }

  function Put(s: System, p: Pid, q: Proc): System {
    s.(procs := s.procs[p := q])
  }

  /** What a crash makes of a call. */
  function Struck(q: Proc): Proc {
    if Busy(q.pc) then q.(pc := Dead, holds := false) else q
  }

  function Release(holder: Option<Pid>, p: Pid): Option<Pid> {
    if holder == Some(p) then None else holder
  }

  function Do(env: Env, s: System, step: Step): System
    requires Enabled(env, s, step)
  {
    match step
    case Lock(p) => Put(s, p, FRESH.(pc := Locked, holds := true)).(holder := Some(p))
    case LockFails(p) => Put(s, p, FRESH.(pc := Locked))
    case Read(p) => Put(s, p, P(s, p).(pc := Ready, cur := AsDoc(Visible(s.disk))))
    case ReadFails(p) => Put(s, p, P(s, p).(pc := Ready, cur := None, unread := true))
    case ReadRaises(p) => Put(s, p, P(s, p).(pc := Leaving(Raised)))
    case MutateRaises(p) => Put(s, p, P(s, p).(pc := Leaving(Raised)))
    case OpenScratch(p) =>
      var n := Scratch(env.scratch(p));
      Put(s, p, P(s, p).(pc := Opened, fd := OpenInode(s.disk, n))).(disk := Open(s.disk, n))
    case WriteScratch(p) =>
      Put(s, p, P(s, p).(pc := Written)).(disk := Fill(s.disk, P(s, p).fd, NewDoc(env, s, p)))
    case FsyncScratch(p) => Put(s, p, P(s, p).(pc := Synced)).(disk := Fsync(s.disk, P(s, p).fd))
    case Rename(p) =>
      Put(s, p, P(s, p).(pc := Renamed)).(
        disk := Replace(s.disk, Scratch(env.scratch(p))),
        commits := s.commits + [Commit(p, P(s, p).unread)],
        published := s.published + [(p, NewDoc(env, s, p))])
    case FlushDir(p, flushes, closeFails) =>
      var q := P(s, p).(pc := Cleaning(if closeFails then NotWritten else Wrote),
                        flushed := flushes, closeFailed := closeFails);
      if flushes then Put(s, p, q).(disk := SyncDir(s.disk), durable := |s.commits|) else Put(s, p, q)
    case SkipFlushDir(p) => Put(s, p, P(s, p).(pc := Cleaning(Wrote)))
    case Fail(p, raises) => Put(s, p, P(s, p).(pc := Cleaning(if raises then Raised else NotWritten)))
    case Interrupt(p) =>
      var q := P(s, p);
      Put(s, p, q.(pc := if q.pc.Renamed? then Cleaning(Raised) else Leaving(Raised), late := q.AfterRename()))
    case Clean(p) =>
      Put(s, p, P(s, p).(pc := Leaving(P(s, p).pc.r))).(disk := Unlink(s.disk, Scratch(env.scratch(p))))
    case CleanFails(p) => Put(s, p, P(s, p).(pc := Leaving(P(s, p).pc.r)))
    case Unlock(p) => Put(s, p, P(s, p).(pc := Done(P(s, p).pc.r), holds := false)).(holder := Release(s.holder, p))
    case Kill(p) => Put(s, p, P(s, p).(pc := Dead, holds := false)).(holder := Release(s.holder, p))
    case WriteBackDir => s.(disk := SyncDir(s.disk), durable := |s.commits|)
    case WriteBackData(i) => s.(disk := Fsync(s.disk, i))
    case PowerLoss(garbage) =>
      System(Crash(s.disk, garbage), None,
             map p | p in s.procs :: Struck(s.procs[p]),
             if s.durable <= |s.commits| then s.commits[..s.durable] else s.commits, s.durable, s.published)
  }

  /** The states a run passes through, the last one being `Last`. */
  function Last(env: Env, s: System, steps: seq<Step>): System
    requires Runs(env, s, steps)
    decreases |steps|, 1
  {
    if steps == [] then s else Do(env, Last(env, s, steps[..|steps| - 1]), steps[|steps| - 1])
  }

  predicate Runs(env: Env, s: System, steps: seq<Step>)
    decreases |steps|, 0
  {
    steps == [] ||
    (Runs(env, s, steps[..|steps| - 1]) && Enabled(env, Last(env, s, steps[..|steps| - 1]), steps[|steps| - 1]))
  }

  // ---------------------------------------------------------------- who may be writing

  /** From opening the scratch file until it is cleaned up. */
  predicate Writing(pc: Pc) {
    pc.Opened? || pc.Written? || pc.Synced? || pc.Renamed? || pc.Cleaning?
  }

  /** No two calls that are writing share a scratch name. */
  predicate Private(env: Env, s: System) {
    forall p, q :: p in s.procs && q in s.procs && p != q && Writing(s.procs[p].pc) && Writing(s.procs[q].pc)
                   ==> env.scratch(p) != env.scratch(q)
  }

  ghost predicate ScratchNamesUnique(env: Env) {
    forall p: Pid, q: Pid :: p != q ==> env.scratch(p) != env.scratch(q)
  }

  predicate LockNeverFails(steps: seq<Step>) {
    forall i :: 0 <= i < |steps| ==> !steps[i].LockFails?
  }

  /** Every call under way holds the lock, so there is at most one. */
  predicate AllLocked(s: System) {
    forall p :: p in s.procs && Busy(s.procs[p].pc) ==> s.procs[p].holds && s.holder == Some(p)
  }

  lemma AllLockedStep(env: Env, s: System, step: Step)
    requires Enabled(env, s, step) && !step.LockFails? && AllLocked(s)
    ensures AllLocked(Do(env, s, step))
  {
    forall p | p in Do(env, s, step).procs && Busy(Do(env, s, step).procs[p].pc)
      ensures Do(env, s, step).procs[p].holds && Do(env, s, step).holder == Some(p)
    {
      StaysLocked(env, s, step, p);
    }
  }

  lemma StaysLocked(env: Env, s: System, step: Step, p: Pid)
    requires Enabled(env, s, step) && !step.LockFails? && AllLocked(s)
    requires Busy(P(Do(env, s, step), p).pc)
    ensures P(Do(env, s, step), p).holds && Do(env, s, step).holder == Some(p)
  {
    if !(step.Lock? && step.p == p) {
      assert p in s.procs && Busy(P(s, p).pc);
    }
  }

  lemma {:induction false} AllLockedRun(env: Env, init: Option<Content>, steps: seq<Step>)
    requires Runs(env, Start(init), steps) && LockNeverFails(steps)
    ensures AllLocked(Last(env, Start(init), steps))
  {
    if steps != [] {
      AllLockedRun(env, init, steps[..|steps| - 1]);
      AllLockedStep(env, Last(env, Start(init), steps[..|steps| - 1]), steps[|steps| - 1]);
    }
  }

  /** The lock is held by nobody but a call under way that took it. */
  predicate HeldByOneUnderWay(s: System) {
    s.holder.Some? ==> Busy(P(s, s.holder.value).pc) && P(s, s.holder.value).holds
  }

  lemma HeldStep(env: Env, s: System, step: Step)
    requires Enabled(env, s, step) && HeldByOneUnderWay(s)
    ensures HeldByOneUnderWay(Do(env, s, step))
  {
    var holder := Do(env, s, step).holder;
    if holder.Some? {
      HolderStep(env, s, step, holder.value);
    }
  }

  lemma HolderStep(env: Env, s: System, step: Step, p: Pid)
    requires Enabled(env, s, step) && Do(env, s, step).holder == Some(p)
    requires s.holder == Some(p) ==> Busy(P(s, p).pc) && P(s, p).holds
    ensures Busy(P(Do(env, s, step), p).pc) && P(Do(env, s, step), p).holds
  {
    if !step.Lock? {
      assert s.holder == Some(p);
    }
  }

  /** So it is free again once its holder has answered, died or gone down with the machine. */
  lemma {:induction false} LockIsGivenBack(env: Env, init: Option<Content>, steps: seq<Step>, p: Pid)
    requires Runs(env, Start(init), steps)
    ensures HeldByOneUnderWay(Last(env, Start(init), steps))
    ensures !Busy(P(Last(env, Start(init), steps), p).pc) ==> Last(env, Start(init), steps).holder != Some(p)
  {
    if steps != [] {
      LockIsGivenBack(env, init, steps[..|steps| - 1], p);
      HeldStep(env, Last(env, Start(init), steps[..|steps| - 1]), steps[|steps| - 1]);
    }
  }

  /** At no point of the run did two calls that were writing share a scratch name. */
  ghost predicate PrivateThroughout(env: Env, s: System, steps: seq<Step>)
    requires Runs(env, s, steps)
  {
    Private(env, Last(env, s, steps)) && (steps == [] || PrivateThroughout(env, s, steps[..|steps| - 1]))
  }

  /** Unique names see to that, and so does the lock; so does any run in which calls with one name follow
      one another. */
  lemma {:induction false} PrivateRun(env: Env, init: Option<Content>, steps: seq<Step>)
    requires Runs(env, Start(init), steps)
    requires ScratchNamesUnique(env) || LockNeverFails(steps)
    ensures PrivateThroughout(env, Start(init), steps)
  {
    if LockNeverFails(steps) {
      AllLockedRun(env, init, steps);
    }
    if steps != [] {
      assert LockNeverFails(steps) ==> LockNeverFails(steps[..|steps| - 1]);
      PrivateRun(env, init, steps[..|steps| - 1]);
    }
  }

  // ---------------------------------------------------------------- atomicity

  /** A document some rename published. */
  predicate WasPublished(s: System, doc: Doc) {
    exists i :: 0 <= i < |s.published| && s.published[i].1 == doc
  }

  /** The content from before the run, or a whole published document. */
  predicate Whole(init: Option<Content>, s: System, c: Option<Content>) {
    c == init || (c.Some? && c.value.Full? && WasPublished(s, c.value.doc))
  }

  /** A writer's scratch name leads to the file it opened, holding what it has written so far. */
  predicate WriterOk(env: Env, s: System, p: Pid)
    requires p in s.procs
  {
    var q, n := s.procs[p], Scratch(env.scratch(p));
    && (q.pc.Opened? || q.pc.Written? || q.pc.Synced? ==> n in s.disk.dir && s.disk.dir[n] == q.fd)
    && (q.pc.Written? || q.pc.Synced? ==> q.fd in s.disk.data && s.disk.data[q.fd] == Full(NewDoc(env, s, p)))
    && (q.pc.Synced? ==> q.fd in s.disk.synced)
  }

  ghost predicate Atomic(env: Env, init: Option<Content>, s: System) {
    && Sound(s.disk)
    && (forall p :: p in s.procs ==> WriterOk(env, s, p))
    && Whole(init, s, Visible(s.disk)) && Whole(init, s, Durable(s.disk))
  }

  /** A step of `p` that leaves every other writer's file alone keeps the others in order. */
  lemma OthersOk(env: Env, s: System, s': System, p: Pid)
    requires InRange(s.disk) && forall q :: q in s.procs ==> WriterOk(env, s, q)
    requires p in s'.procs && s'.procs.Keys == s.procs.Keys + {p}
    requires forall q :: q in s.procs && q != p ==> s'.procs[q] == s.procs[q]
    requires forall q :: q in s.procs && q != p && Writing(s.procs[q].pc) ==>
      Untouched(s.disk, s'.disk, Scratch(env.scratch(q)))
    requires WriterOk(env, s', p)
    ensures forall q :: q in s'.procs ==> WriterOk(env, s', q)
  {
    forall q | q in s'.procs && q != p
      ensures WriterOk(env, s', q)
    {
      assert WriterOk(env, s, q);
    }
  }

  predicate Untouched(d: Disk, d': Disk, n: Name) {
    n in d.dir ==>
      && n in d'.dir && d'.dir[n] == d.dir[n]
      && (d.dir[n] in d.data ==> d.dir[n] in d'.data && d'.data[d.dir[n]] == d.data[d.dir[n]])
      && (d.dir[n] in d.synced ==> d.dir[n] in d'.synced)
  }

  lemma OpenStep(env: Env, init: Option<Content>, s: System, p: Pid)
    requires Atomic(env, init, s) && P(s, p).pc == Ready && Private(env, Do(env, s, OpenScratch(p)))
    ensures Atomic(env, init, Do(env, s, OpenScratch(p)))
  {
    var s' := Do(env, s, OpenScratch(p));
    OpenIsPrivate(s.disk, Scratch(env.scratch(p)));
    forall q | q in s.procs && q != p && Writing(s.procs[q].pc)
      ensures Untouched(s.disk, s'.disk, Scratch(env.scratch(q)))
    {
      assert s'.procs[q] == s.procs[q] && env.scratch(p) != env.scratch(q);
    }
    OthersOk(env, s, s', p);
  }

  lemma WriteStep(env: Env, init: Option<Content>, s: System, p: Pid)
    requires Atomic(env, init, s) && P(s, p).pc == Opened && Private(env, s)
    ensures Atomic(env, init, Do(env, s, WriteScratch(p)))
  {
    var s' := Do(env, s, WriteScratch(p));
    assert WriterOk(env, s, p);
    FillIsPrivate(s.disk, Scratch(env.scratch(p)), NewDoc(env, s, p));
    forall q | q in s.procs && q != p && Writing(s.procs[q].pc)
      ensures Untouched(s.disk, s'.disk, Scratch(env.scratch(q)))
    {
      assert env.scratch(p) != env.scratch(q);
    }
    assert NewDoc(env, s', p) == NewDoc(env, s, p);
    OthersOk(env, s, s', p);
  }

  lemma FsyncStep(env: Env, init: Option<Content>, s: System, p: Pid)
    requires Atomic(env, init, s) && P(s, p).pc == Written
    ensures Atomic(env, init, Do(env, s, FsyncScratch(p)))
  {
    var s' := Do(env, s, FsyncScratch(p));
    assert WriterOk(env, s, p);
    FsyncIsPrivate(s.disk, P(s, p).fd);
    assert NewDoc(env, s', p) == NewDoc(env, s, p);
    OthersOk(env, s, s', p);
  }

  lemma RenameStep(env: Env, init: Option<Content>, s: System, p: Pid)
    requires Atomic(env, init, s) && Enabled(env, s, Rename(p)) && Private(env, s)
    ensures Atomic(env, init, Do(env, s, Rename(p)))
    ensures Visible(Do(env, s, Rename(p)).disk) == Some(Full(NewDoc(env, s, p)))
    ensures Durable(Do(env, s, Rename(p)).disk) == Durable(s.disk)
  {
    var s' := Do(env, s, Rename(p));
    assert WriterOk(env, s, p);
    ReplacePublishes(s.disk, Scratch(env.scratch(p)));
    forall q | q in s.procs && q != p && Writing(s.procs[q].pc)
      ensures Untouched(s.disk, s'.disk, Scratch(env.scratch(q)))
    {
      assert env.scratch(p) != env.scratch(q);
    }
    OthersOk(env, s, s', p);
    StillPublished(s, s');
    assert s'.published[|s.published|].1 == NewDoc(env, s, p);
  }

  lemma StillPublished(s: System, s': System)
    requires s.published <= s'.published
    ensures forall doc :: WasPublished(s, doc) ==> WasPublished(s', doc)
  {
    forall doc | WasPublished(s, doc)
      ensures WasPublished(s', doc)
    {
      var i :| 0 <= i < |s.published| && s.published[i].1 == doc;
      assert s'.published[i].1 == doc;
    }
  }

  lemma CleanStep(env: Env, init: Option<Content>, s: System, p: Pid)
    requires Atomic(env, init, s) && P(s, p).pc.Cleaning? && Private(env, s)
    ensures Atomic(env, init, Do(env, s, Clean(p)))
  {
    var s' := Do(env, s, Clean(p));
    UnlinkIsPrivate(s.disk, Scratch(env.scratch(p)));
    forall q | q in s.procs && q != p && Writing(s.procs[q].pc)
      ensures Untouched(s.disk, s'.disk, Scratch(env.scratch(q)))
    {
      assert env.scratch(p) != env.scratch(q);
    }
    OthersOk(env, s, s', p);
  }

  /** The steps that only move one call along. */
  predicate Bookkeeping(step: Step) {
    || step.Lock? || step.LockFails? || step.Read? || step.ReadFails? || step.ReadRaises? || step.MutateRaises?
    || step.SkipFlushDir? || step.Fail? || step.Interrupt? || step.CleanFails? || step.Unlock? || step.Kill?
  }

  lemma BookkeepingMoves(env: Env, s: System, step: Step)
    requires Enabled(env, s, step) && Bookkeeping(step)
    ensures var s' := Do(env, s, step);
            && s'.disk == s.disk && s'.published == s.published
            && s'.procs == s.procs[step.p := P(s', step.p)]
            && (Writing(P(s', step.p).pc) ==> P(s', step.p).pc.Cleaning?)
  {
  }

  lemma BookkeepingStep(env: Env, init: Option<Content>, s: System, step: Step)
    requires Atomic(env, init, s) && Enabled(env, s, step) && Bookkeeping(step)
    ensures Atomic(env, init, Do(env, s, step))
    ensures Do(env, s, step).disk == s.disk
  {
    BookkeepingMoves(env, s, step);
    MovedOne(env, init, s, Do(env, s, step), step.p);
  }

  /** Moving one call along to a place where it holds no scratch file in the making. */
  lemma MovedOne(env: Env, init: Option<Content>, s: System, s': System, p: Pid)
    requires Atomic(env, init, s)
    requires s'.disk == s.disk && s'.published == s.published && p in s'.procs && s'.procs == s.procs[p := s'.procs[p]]
    requires Writing(s'.procs[p].pc) ==> s'.procs[p].pc.Cleaning?
    ensures Atomic(env, init, s')
  {
    OthersOk(env, s, s', p);
    assert s.published <= s'.published;
    StillPublished(s, s');
  }

  lemma FlushDirStep(env: Env, init: Option<Content>, s: System, p: Pid, flushes: bool, closeFails: bool)
    requires Atomic(env, init, s) && P(s, p).pc == Renamed
    ensures Atomic(env, init, Do(env, s, FlushDir(p, flushes, closeFails)))
  {
    if flushes {
      SyncDirSettles(s.disk);
      OthersOk(env, s, Do(env, s, FlushDir(p, flushes, closeFails)), p);
    } else {
      MovedOne(env, init, s, Do(env, s, FlushDir(p, flushes, closeFails)), p);
    }
  }

  lemma MachineStep(env: Env, init: Option<Content>, s: System, step: Step)
    requires Atomic(env, init, s) && (step.WriteBackDir? || step.WriteBackData?)
    ensures Atomic(env, init, Do(env, s, step))
  {
    SyncDirSettles(s.disk);
    var s' := Do(env, s, step);
    if step.WriteBackData? {
      FsyncIsPrivate(s.disk, step.i);
    }
    forall p | p in s'.procs
      ensures WriterOk(env, s', p)
    {
      assert WriterOk(env, s, p);
    }
  }

  lemma PowerLossStep(env: Env, init: Option<Content>, s: System, garbage: map<Inode, Content>)
    requires Atomic(env, init, s)
    ensures Atomic(env, init, Do(env, s, PowerLoss(garbage)))
    ensures Visible(Do(env, s, PowerLoss(garbage)).disk) == Durable(s.disk)
  {
    CrashRecovers(s.disk, garbage);
  }

  lemma AtomicStep(env: Env, init: Option<Content>, s: System, step: Step)
    requires Atomic(env, init, s) && Enabled(env, s, step)
    requires Private(env, s) && Private(env, Do(env, s, step))
    ensures Atomic(env, init, Do(env, s, step))
  {
    match step
    case OpenScratch(p) => OpenStep(env, init, s, p);
    case WriteScratch(p) => WriteStep(env, init, s, p);
    case FsyncScratch(p) => FsyncStep(env, init, s, p);
    case Rename(p) => RenameStep(env, init, s, p);
    case Clean(p) => CleanStep(env, init, s, p);
    case FlushDir(p, flushes, closeFails) => FlushDirStep(env, init, s, p, flushes, closeFails);
    case WriteBackDir => MachineStep(env, init, s, step);
    case WriteBackData(i) => MachineStep(env, init, s, step);
    case PowerLoss(garbage) => PowerLossStep(env, init, s, garbage);
    case _ => BookkeepingStep(env, init, s, step);
  }

  lemma {:induction false} AtomicRun(env: Env, init: Option<Content>, steps: seq<Step>)
    requires Runs(env, Start(init), steps)
    requires PrivateThroughout(env, Start(init), steps)
    ensures Atomic(env, init, Last(env, Start(init), steps))
  {
    if steps != [] {
      var before := steps[..|steps| - 1];
      AtomicRun(env, init, before);
      AtomicStep(env, init, Last(env, Start(init), before), steps[|steps| - 1]);
    }
  }

  /** At every step of every interleaving, with or without the lock, through failures, kills and crashes,
      a reader of the target finds what was there before the run or one whole published document, and so
      does recovery after a crash at that step, whatever the device had of unsynced files. All it takes is
      that no two calls were writing to one scratch name at the same time. */
  lemma ReadersAndRecoveryFindWholeDocuments(env: Env, init: Option<Content>, steps: seq<Step>,
                                             garbage: map<Inode, Content>)
    requires Runs(env, Start(init), steps)
    requires PrivateThroughout(env, Start(init), steps)
    ensures var s := Last(env, Start(init), steps);
            Whole(init, s, Visible(s.disk)) && Whole(init, s, Visible(Crash(s.disk, garbage)))
  {
    AtomicRun(env, init, steps);
    PowerLossStep(env, init, Last(env, Start(init), steps), garbage);
  }
}
