/** One call of `update_json`, statement by statement, over the file system it changes in place. */
module UpdateJson {
  import opened Wrappers
  import opened FileSystem
  import opened AtomicIo
  import opened AtomicUpdates

  /** How a write goes: which call of it fails, or past the rename, whether the directory is flushed and
      whether its handle is closed. A failing flush is tolerated, a failing close is not. */
  datatype Course =
    | OpenFails | WriteFails | FsyncFails | ReplaceFails
    | Renames(flushed: bool, closed: bool)
  {
    /** Whether the directory reaches the device. */
    predicate Flushed() { Renames? && flushed }

    /** Whether the write is reported as done. */
    predicate Reported() { Renames? && closed }
  }

  class Files {
    var dir: map<Name, Inode>
    var durableDir: map<Name, Inode>
    var data: map<Inode, Content>
    var synced: set<Inode>
    var next: Inode

    ghost function State(): Disk
      reads this
    {
      Disk(dir, durableDir, data, synced, next)
    }

    constructor ()
      ensures State() == Start(None).disk
    {
      dir, durableDir, data, synced, next := map[], map[], map[], {}, 1;
    }

    method OpenForWriting(n: Name) returns (fd: Inode)
      modifies this
      ensures State() == Open(old(State()), n) && fd == OpenInode(old(State()), n)
    {
      if n in dir {
        fd := dir[n];
      } else {
        fd := next;
        next := next + 1;
      }
      dir := dir[n := fd];
      data := data[fd := Torn];
      synced := synced - {fd};
    }

    method WriteAll(fd: Inode, doc: Doc)
      modifies this
      ensures State() == Fill(old(State()), fd, doc)
    {
      data := data[fd := Full(doc)];
      synced := synced - {fd};
    }

    method FlushFile(fd: Inode)
      modifies this
      ensures State() == Fsync(old(State()), fd)
    {
      if fd in data {
        synced := synced + {fd};
      }
    }

    method RenameOverTarget(n: Name)
      requires n in dir
      modifies this
      ensures State() == Replace(old(State()), n)
    {
      var i := dir[n];
      dir := (dir - {n})[Target := i];
    }

    method FlushDirectory()
      modifies this
      ensures State() == SyncDir(old(State()))
    {
      durableDir := dir;
    }

    method Remove(n: Name)
      modifies this
      ensures State() == FileSystem.Unlink(old(State()), n)
    {
      dir := dir - {n};
    }

    /** The document in the target, if it can be read and is one. */
    method ReadTarget() returns (cur: Option<Doc>)
      requires Sound(State())
      ensures cur == AsDoc(Visible(State()))
    {
      cur := None;
      if Target in dir && data[dir[Target]].Full? {
        cur := Some(data[dir[Target]].doc);
      }
    }
  }

  /** What a write leaves alone: every name but the target and its own scratch. */
  ghost predicate OtherNamesKept(a: Disk, b: Disk, scratch: Name) {
    forall m :: m != Target && m != scratch ==>
      (m in a.dir <==> m in b.dir) && (m in a.dir ==> a.dir[m] == b.dir[m])
  }

  /** Publishes `doc` or changes nothing a reader finds, and tidies up either way. */
  method AtomicWrite(fs: Files, scratch: nat, doc: Doc, course: Course, cleanFails: bool) returns (ok: bool)
    requires Sound(fs.State())
    modifies fs
    ensures Sound(fs.State())
    ensures ok == course.Reported()
    ensures Visible(fs.State()) == if !course.Renames? then Visible(old(fs.State())) else Some(Full(doc))
    ensures Durable(fs.State()) == if course.Flushed() then Some(Full(doc)) else Durable(old(fs.State()))
    ensures !cleanFails || course.Renames? ==> Scratch(scratch) !in fs.dir
    ensures OtherNamesKept(old(fs.State()), fs.State(), Scratch(scratch))
    ensures fs.State() == WrittenDisk(old(fs.State()), Scratch(scratch), doc, course, cleanFails)
  {
    var tmp := Scratch(scratch);
    ok := Publish(fs, tmp, doc, course);
    if !cleanFails {
      UnlinkIsPrivate(fs.State(), tmp);
      fs.Remove(tmp);
    }
  }

  /** Everything up to the clean-up. */
  method Publish(fs: Files, tmp: Name, doc: Doc, course: Course) returns (ok: bool)
    requires Sound(fs.State()) && tmp != Target
    modifies fs
    ensures Sound(fs.State())
    ensures ok == course.Reported()
    ensures Visible(fs.State()) == if !course.Renames? then Visible(old(fs.State())) else Some(Full(doc))
    ensures Durable(fs.State()) == if course.Flushed() then Some(Full(doc)) else Durable(old(fs.State()))
    ensures course.Renames? ==> tmp !in fs.dir
    ensures OtherNamesKept(old(fs.State()), fs.State(), tmp)
    ensures fs.State() == PublishedDisk(old(fs.State()), tmp, doc, course)
  {
    if course.OpenFails? {
      return false;
    }
    OpenIsPrivate(fs.State(), tmp);
    var fd := fs.OpenForWriting(tmp);
    if course.WriteFails? {
      return false;
    }
    FillIsPrivate(fs.State(), tmp, doc);
    fs.WriteAll(fd, doc);
    if course.FsyncFails? {
      return false;
    }
    FsyncIsPrivate(fs.State(), fd);
    fs.FlushFile(fd);
    if course.ReplaceFails? {
      return false;
    }
    ReplacePublishes(fs.State(), tmp);
    fs.RenameOverTarget(tmp);
    if course.Flushed() {
      SyncDirSettles(fs.State());
      fs.FlushDirectory();
    }
    ok := course.Reported();
  }

  /** The disk before the clean-up. */
  function PublishedDisk(d: Disk, tmp: Name, doc: Doc, course: Course): Disk {
    var fd := OpenInode(d, tmp);
    var made := Open(d, tmp);
    var filled := Fill(made, fd, doc);
    match course
    case OpenFails => d
    case WriteFails => made
    case FsyncFails => filled
    case ReplaceFails => Fsync(filled, fd)
    case Renames(flushed, _) =>
      var renamed := Replace(Fsync(filled, fd), tmp);
      if flushed then SyncDir(renamed) else renamed
  }

  function WrittenDisk(d: Disk, tmp: Name, doc: Doc, course: Course, cleanFails: bool): Disk {
    var d' := PublishedDisk(d, tmp, doc, course);
    if cleanFails then d' else FileSystem.Unlink(d', tmp)
  }

  /** The body of `update_json` under its lock: read, change, write back. `readFails` is an error while
      reading; `raised` an exception of `mutate` that is not an I/O error. */
  method Update(fs: Files, mutate: Doc -> Doc, dflt: Doc, scratch: nat, readFails: bool, raised: bool, course: Course,
                cleanFails: bool)
    returns (r: Answer)
    requires Sound(fs.State())
    modifies fs
    ensures Sound(fs.State())
    ensures r == (if raised then Raised else if course.Reported() then Wrote else NotWritten)
    ensures var cur := if readFails then None else AsDoc(Visible(old(fs.State())));
            Visible(fs.State()) ==
            if raised || !course.Renames? then Visible(old(fs.State()))
            else Some(Full(mutate(if cur.Some? then cur.value else dflt)))
    ensures !raised && course.Flushed() ==> Durable(fs.State()) == Visible(fs.State())
    ensures raised || !course.Flushed() ==> Durable(fs.State()) == Durable(old(fs.State()))
    ensures OtherNamesKept(old(fs.State()), fs.State(), Scratch(scratch))
  {
    var cur := None;
    if !readFails {
      cur := fs.ReadTarget();
    }
    if raised {
      return Raised;
    }
    var ok := AtomicWrite(fs, scratch, mutate(if cur.Some? then cur.value else dflt), course, cleanFails);
    r := if ok then Wrote else NotWritten;
  }

  // ---------------------------------------------------------------- alone in the many-process machine

  /** Where `before` is when call `p` has done no more than move on to `q` and change the disk to `disk`. */
  ghost predicate Advanced(before: System, after: System, p: Pid, q: Proc, disk: Disk) {
    P(after, p) == q && after.disk == disk && after.holder == before.holder
  }

  lemma Opens(env: Env, s: System, steps: seq<Step>, p: Pid) returns (more: seq<Step>)
    requires Runs(env, s, steps) && P(Last(env, s, steps), p).pc == Ready
    ensures Runs(env, s, more)
    ensures var b := Last(env, s, steps); var n := Scratch(env.scratch(p));
            Advanced(b, Last(env, s, more), p, P(b, p).(pc := Opened, fd := OpenInode(b.disk, n)), Open(b.disk, n))
  {
    Then(env, s, steps, OpenScratch(p));
    more := steps + [OpenScratch(p)];
    OpenedState(env, Last(env, s, steps), p);
  }

  lemma Writes(env: Env, s: System, steps: seq<Step>, p: Pid) returns (more: seq<Step>)
    requires Runs(env, s, steps) && P(Last(env, s, steps), p).pc == Opened
    ensures Runs(env, s, more)
    ensures var b := Last(env, s, steps);
            Advanced(b, Last(env, s, more), p, P(b, p).(pc := Written), Fill(b.disk, P(b, p).fd, NewDoc(env, b, p)))
  {
    Then(env, s, steps, WriteScratch(p));
    more := steps + [WriteScratch(p)];
    WrittenState(env, Last(env, s, steps), p);
  }

  lemma Syncs(env: Env, s: System, steps: seq<Step>, p: Pid) returns (more: seq<Step>)
    requires Runs(env, s, steps) && P(Last(env, s, steps), p).pc == Written
    ensures Runs(env, s, more)
    ensures var b := Last(env, s, steps);
            Advanced(b, Last(env, s, more), p, P(b, p).(pc := Synced), Fsync(b.disk, P(b, p).fd))
  {
    Then(env, s, steps, FsyncScratch(p));
    more := steps + [FsyncScratch(p)];
    SyncedState(env, Last(env, s, steps), p);
  }

  lemma RenamesIt(env: Env, s: System, steps: seq<Step>, p: Pid) returns (more: seq<Step>)
    requires Runs(env, s, steps) && P(Last(env, s, steps), p).pc == Synced
    requires Scratch(env.scratch(p)) in Last(env, s, steps).disk.dir
    ensures Runs(env, s, more)
    ensures var b := Last(env, s, steps);
            Advanced(b, Last(env, s, more), p, P(b, p).(pc := AtomicIo.Renamed),
                     Replace(b.disk, Scratch(env.scratch(p))))
  {
    Then(env, s, steps, Rename(p));
    more := steps + [Rename(p)];
  }

  /** A failing call on the way to the rename. */
  lemma GivesUp(env: Env, s: System, steps: seq<Step>, p: Pid) returns (more: seq<Step>)
    requires Runs(env, s, steps) && P(Last(env, s, steps), p).pc in {Ready, Opened, Written, Synced}
    ensures Runs(env, s, more)
    ensures var b := Last(env, s, steps);
            Advanced(b, Last(env, s, more), p, P(b, p).(pc := Cleaning(NotWritten)), b.disk)
  {
    Then(env, s, steps, AtomicIo.Fail(p, false));
    more := steps + [AtomicIo.Fail(p, false)];
  }

  lemma Flushes(env: Env, s: System, steps: seq<Step>, p: Pid, flushed: bool, closed: bool) returns (more: seq<Step>)
    requires Runs(env, s, steps) && P(Last(env, s, steps), p).pc == AtomicIo.Renamed
    ensures Runs(env, s, more)
    ensures var b, a := Last(env, s, steps), Last(env, s, more);
            && P(a, p).pc == Cleaning(if closed then Wrote else NotWritten) && a.holder == b.holder
            && a.disk == if flushed then SyncDir(b.disk) else b.disk
  {
    Then(env, s, steps, AtomicIo.FlushDir(p, flushed, !closed));
    more := steps + [AtomicIo.FlushDir(p, flushed, !closed)];
  }

  /** Up to the clean-up, the call changes the disk as the write does, and its answer is settled alike. */
  lemma PublishesTheSame(env: Env, s: System, steps: seq<Step>, p: Pid, course: Course) returns (more: seq<Step>)
    requires Runs(env, s, steps) && P(Last(env, s, steps), p).pc == Ready
    ensures Runs(env, s, more)
    ensures var b, a := Last(env, s, steps), Last(env, s, more);
            && a.disk == PublishedDisk(b.disk, Scratch(env.scratch(p)), NewDoc(env, b, p), course)
            && P(a, p).pc == Cleaning(if course.Reported() then Wrote else NotWritten) && a.holder == b.holder
  {
    if course.OpenFails? {
      more := GivesUp(env, s, steps, p);
      return;
    }
    more := Opens(env, s, steps, p);
    if course.WriteFails? {
      more := GivesUp(env, s, more, p);
      return;
    }
    more := Writes(env, s, more, p);
    if course.FsyncFails? {
      more := GivesUp(env, s, more, p);
      return;
    }
    more := Syncs(env, s, more, p);
    if course.ReplaceFails? {
      more := GivesUp(env, s, more, p);
      return;
    }
    more := RenamesIt(env, s, more, p);
    more := Flushes(env, s, more, p, course.flushed, course.closed);
  }

  lemma CleansUp(env: Env, s: System, steps: seq<Step>, p: Pid, cleanFails: bool) returns (more: seq<Step>)
    requires Runs(env, s, steps)
    requires var b := Last(env, s, steps); P(b, p).pc.Cleaning? && b.holder == Some(p)
    ensures Runs(env, s, more)
    ensures var b, a := Last(env, s, steps), Last(env, s, more);
            && P(a, p).pc == Done(P(b, p).pc.r) && a.holder.None?
            && a.disk == if cleanFails then b.disk else FileSystem.Unlink(b.disk, Scratch(env.scratch(p)))
  {
    var step := if cleanFails then CleanFails(p) else Clean(p);
    Then(env, s, steps, step);
    more := steps + [step];
    Then(env, s, more, Unlock(p));
    more := more + [Unlock(p)];
  }

  lemma LocksAndReads(env: Env, s: System, p: Pid) returns (steps: seq<Step>)
    requires P(s, p).pc == Idle && s.holder.None?
    ensures Runs(env, s, steps)
    ensures var a := Last(env, s, steps);
            && a.disk == s.disk && a.holder == Some(p)
            && P(a, p).pc == Ready && P(a, p).cur == AsDoc(Visible(s.disk))
  {
    steps := [];
    Then(env, s, steps, Lock(p));
    steps := steps + [Lock(p)];
    Then(env, s, steps, Read(p));
    steps := steps + [Read(p)];
  }

  /** In the many-process machine, a call that runs alone does to the disk exactly what `AtomicWrite` does, and
      gives its answer, whatever fails on the way. */
  lemma AloneItWritesTheSame(env: Env, s: System, p: Pid, course: Course, cleanFails: bool) returns (steps: seq<Step>)
    requires P(s, p).pc == Idle && s.holder.None?
    ensures Runs(env, s, steps)
    ensures var s' := Last(env, s, steps);
            && P(s', p).pc == Done(if course.Reported() then Wrote else NotWritten) && s'.holder.None?
            && s'.disk == WrittenDisk(s.disk, Scratch(env.scratch(p)),
                                      env.mutate(p, Base(env, p, AsDoc(Visible(s.disk)))), course, cleanFails)
  {
    steps := LocksAndReads(env, s, p);
    steps := PublishesTheSame(env, s, steps, p, course);
    steps := CleansUp(env, s, steps, p, cleanFails);
  }
}
