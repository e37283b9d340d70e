/** Phase changes over the wire. Each handler takes two steps,
    a read-compare-write under the routing lock and, later and unlocked, an append to the audit log;
    the facts below hold of every interleaving of such steps with routed requests. */
module Control {
  import opened Wrappers
  import opened Framing
  import opened Text
  import opened Routing

  datatype PhaseChange = PhaseChange(cluster: Option<string>, phase: Phase, reason: string, confirmed: bool)

  datatype Transition = Transition(cluster: Option<string>, from: Phase, to: Phase, fromPercent: u8, toPercent: u8,
                                   reason: string, confirmed: bool, at: nat)
  {
    predicate Escalation() { toPercent > fromPercent }
  }

  datatype ControlError = Unauthorised | UnconfirmedEscalation(from: u8, to: u8) | NoReason

  datatype Result<+T> = Ok(value: T) | Err(error: ControlError)

  /** What the locked part of a handler answers, from the table it finds. */
  function Answer(t: Table, authorised: bool, ch: PhaseChange, at: nat): Result<Transition> {
    var from := RouteFor(t, ch.cluster).phase;
    var fromPercent, toPercent := from.CandidatePercent(), ch.phase.CandidatePercent();
    if !authorised then Err(Unauthorised)
    else if Blank(ch.reason) then Err(NoReason)
    else if toPercent > fromPercent && !ch.confirmed then Err(UnconfirmedEscalation(fromPercent, toPercent))
    else Ok(Transition(ch.cluster, from, ch.phase, fromPercent, toPercent, ch.reason, ch.confirmed, at))
  }

  /** The table an answer leaves behind. */
  function Outcome(t: Table, r: Result<Transition>): Table {
    match r case Ok(tr) => WithPhase(t, tr.cluster, tr.to) case Err(_) => t
  }

  class Gateway {
    const router: Router
    var transitions: seq<Transition>

    constructor (router: Router)
      ensures this.router == router && transitions == []
    {
      this.router := router;
      transitions := [];
    }

    /** The first step of a handler, up to the release of the lock. */
    method ApplyLocked(authorised: bool, ch: PhaseChange, at: nat) returns (r: Result<Transition>)
      modifies router
      ensures r == Answer(old(router.State()), authorised, ch, at)
      ensures router.State() == Outcome(old(router.State()), r)
    {
      if !authorised {
        return Err(Unauthorised);
      }
      if Blank(ch.reason) {
        return Err(NoReason);
      }
      var route := router.RouteOf(ch.cluster);
      var from := route.phase;
      var fromPercent, toPercent := from.CandidatePercent(), ch.phase.CandidatePercent();
      if toPercent > fromPercent && !ch.confirmed {
        return Err(UnconfirmedEscalation(fromPercent, toPercent));
      }
      var _ := router.SetPhase(ch.cluster, ch.phase);
      return Ok(Transition(ch.cluster, from, ch.phase, fromPercent, toPercent, ch.reason, ch.confirmed, at));
    }

    /** The second step. */
    method RecordTransition(t: Transition)
      modifies this`transitions
      ensures transitions == old(transitions) + [t]
    {
      transitions := transitions + [t];
    }

    /** The whole handler, when no other handler runs between its two steps. */
    method SetPhase(authorised: bool, ch: PhaseChange, at: nat) returns (r: Result<Transition>)
      modifies router, this`transitions
      ensures r == Answer(old(router.State()), authorised, ch, at)
      ensures router.State() == Outcome(old(router.State()), r)
      ensures transitions == old(transitions) + (if r.Ok? then [r.value] else [])
    {
      r := ApplyLocked(authorised, ch, at);
      if r.Ok? {
        RecordTransition(r.value);
      }
    }
  }

  // ---------------------------------------------------------------- interleavings

  /** The gateway with any number of handlers in flight: those that have applied their change and not
      yet recorded it are `pending`. `applied` remembers, for the facts below, the order under the lock. */
  datatype System = System(table: Table, pending: multiset<Transition>, log: seq<Transition>, applied: seq<Transition>)

  datatype Step =
    | Handle(authorised: bool, change: PhaseChange, at: nat)
    | Record(t: Transition)

  function Start(t: Table): System {
    System(t, multiset{}, [], [])
  }

  predicate Enabled(s: System, step: Step) {
    step.Record? ==> step.t in s.pending
  }

  function Do(s: System, step: Step): System {
    match step
    case Record(t) => s.(pending := s.pending - multiset{t}, log := s.log + [t])
    case Handle(authorised, ch, at) =>
      var r := Answer(s.table, authorised, ch, at);
      if r.Err? then s
      else s.(table := Outcome(s.table, r), pending := s.pending + multiset{r.value}, applied := s.applied + [r.value])
  }

  function Run(s: System, steps: seq<Step>): System {
    if steps == [] then s else Do(Run(s, steps[..|steps| - 1]), steps[|steps| - 1])
  }

  predicate Runs(s: System, steps: seq<Step>) {
    steps == [] || (Runs(s, steps[..|steps| - 1]) && Enabled(Run(s, steps[..|steps| - 1]), steps[|steps| - 1]))
  }

  // ---------------------------------------------------------------- safety of traffic

  /** A change that is not confirmed raises no cluster's share, inherited or overridden. */
  lemma UnconfirmedNeverRaises(s: System, step: Step, cluster: Option<string>)
    requires step.Handle? ==> !step.change.confirmed
    ensures Share(Do(s, step).table, cluster) <= Share(s.table, cluster)
  {
    if step.Handle? {
      var r := Answer(s.table, step.authorised, step.change, step.at);
      if r.Ok? {
        assert RouteFor(Do(s, step).table, cluster) ==
               if Reaches(s.table, step.change.cluster, cluster)
               then RouteFor(s.table, cluster).(phase := step.change.phase)
               else RouteFor(s.table, cluster);
      }
    }
  }

  /** An authorised change with a reason is refused exactly when it is unconfirmed and would raise the
      share of some cluster, so a rollback is always accepted. */
  lemma AcceptedExactly(t: Table, authorised: bool, ch: PhaseChange, at: nat)
    ensures Answer(t, authorised, ch, at).Ok? <==>
            authorised && !Blank(ch.reason) &&
            (ch.confirmed || forall c :: Share(WithPhase(t, ch.cluster, ch.phase), c) <= Share(t, c))
  {
    assert Reaches(t, ch.cluster, ch.cluster);
    assert Share(WithPhase(t, ch.cluster, ch.phase), ch.cluster) == ch.phase.CandidatePercent();
    forall c
      ensures Reaches(t, ch.cluster, c) ==> Share(t, c) == Share(t, ch.cluster)
      ensures Share(WithPhase(t, ch.cluster, ch.phase), c) ==
              if Reaches(t, ch.cluster, c) then ch.phase.CandidatePercent() else Share(t, c)
    {
    }
  }

  /** An accepted change is entered as it was asked for, with the phase it found. */
  lemma EnteredAsAsked(t: Table, authorised: bool, ch: PhaseChange, at: nat)
    requires Answer(t, authorised, ch, at).Ok?
    ensures var tr := Answer(t, authorised, ch, at).value;
            && tr.cluster == ch.cluster && tr.to == ch.phase && tr.reason == ch.reason
            && tr.confirmed == ch.confirmed && tr.at == at
            && tr.from == RouteFor(t, ch.cluster).phase
            && RouteFor(Outcome(t, Ok(tr)), ch.cluster) == RouteFor(t, ch.cluster).(phase := ch.phase)
  {
    assert Reaches(t, ch.cluster, ch.cluster);
  }

  /** Which refusal: an unauthorised caller is told no more, a missing reason comes next, and an escalation is
      named with the share in force and the share asked for. */
  lemma RefusedExactly(t: Table, authorised: bool, ch: PhaseChange, at: nat, from: u8, to: u8)
    ensures Answer(t, authorised, ch, at) == Err(Unauthorised) <==> !authorised
    ensures Answer(t, authorised, ch, at) == Err(NoReason) <==> authorised && Blank(ch.reason)
    ensures Answer(t, authorised, ch, at) == Err(UnconfirmedEscalation(from, to)) <==>
            && authorised && !Blank(ch.reason) && !ch.confirmed
            && from == Share(t, ch.cluster) < to == Share(WithPhase(t, ch.cluster, ch.phase), ch.cluster)
  {
    assert Reaches(t, ch.cluster, ch.cluster);
  }

  /** A confirmed, escalating change that reaches `cluster` and grants it at least `percent`. */
  predicate Authorises(tr: Transition, cluster: Option<string>, percent: u8) {
    tr.confirmed && tr.Escalation() && tr.toPercent >= percent && (tr.cluster.None? || tr.cluster == cluster)
  }

  /** In every run, a cluster's share exceeds what it was at the start only if some applied change,
      confirmed and escalating, granted it that much. */
  lemma {:induction false} EveryRaiseWasConfirmed(t: Table, steps: seq<Step>, cluster: Option<string>)
    requires Runs(Start(t), steps)
    requires Share(Run(Start(t), steps).table, cluster) > Share(t, cluster)
    ensures exists tr :: tr in Run(Start(t), steps).applied
                         && Authorises(tr, cluster, Share(Run(Start(t), steps).table, cluster))
  {
    var init, step := steps[..|steps| - 1], steps[|steps| - 1];
    var s, s' := Run(Start(t), init), Run(Start(t), steps);
    var before, now := Share(s.table, cluster), Share(s'.table, cluster);
    if now <= before {
      EveryRaiseWasConfirmed(t, init, cluster);
      var tr :| tr in s.applied && Authorises(tr, cluster, before);
      assert tr in s'.applied;
    } else {
      RaiseIsThisChange(s, step, cluster);
    }
  }

  lemma RaiseIsThisChange(s: System, step: Step, cluster: Option<string>)
    requires Share(Do(s, step).table, cluster) > Share(s.table, cluster)
    ensures exists tr :: tr in Do(s, step).applied && Authorises(tr, cluster, Share(Do(s, step).table, cluster))
  {
    assert step.Handle?;
    var r := Answer(s.table, step.authorised, step.change, step.at);
    assert RouteFor(Do(s, step).table, cluster) ==
           if Reaches(s.table, step.change.cluster, cluster)
           then RouteFor(s.table, cluster).(phase := step.change.phase)
           else RouteFor(s.table, cluster);
    assert Share(s.table, step.change.cluster) == Share(s.table, cluster);
    assert r.value in Do(s, step).applied;
  }

  /** No run changes a cluster's backends or its failover setting. */
  lemma {:induction false} BackendsNeverChange(t: Table, steps: seq<Step>, cluster: Option<string>)
    ensures RouteFor(Run(Start(t), steps).table, cluster).(phase := Off) == RouteFor(t, cluster).(phase := Off)
  {
    if steps != [] {
      var init, step := steps[..|steps| - 1], steps[|steps| - 1];
      BackendsNeverChange(t, init, cluster);
      var s := Run(Start(t), init);
      if step.Handle? && Answer(s.table, step.authorised, step.change, step.at).Ok? {
        assert RouteFor(WithPhase(s.table, step.change.cluster, step.change.phase), cluster).(phase := Off)
            == RouteFor(s.table, cluster).(phase := Off);
      }
    }
  }

  /** A table that serves no traffic from a candidate and fails over to nobody. */
  ghost predicate Quiet(t: Table) {
    forall c :: Share(t, c) == 0 && !RouteFor(t, c).failover
  }

  /** From a quiet start, a run in which no confirmed change was applied serves every request of every
      cluster from that cluster's incumbent, with no fallback but it. */
  lemma NothingMovesUnconfirmed(t: Table, steps: seq<Step>, cluster: Option<string>, key: bytes)
    requires Quiet(t) && Runs(Start(t), steps)
    requires forall tr :: tr in Run(Start(t), steps).applied ==> !tr.confirmed
    ensures var d := Decide(Run(Start(t), steps).table, cluster, key);
            d.serve == RouteFor(t, cluster).incumbent && d.fallback.None?
  {
    var now := Run(Start(t), steps).table;
    BackendsNeverChange(t, steps, cluster);
    if Share(now, cluster) > Share(t, cluster) {
      EveryRaiseWasConfirmed(t, steps, cluster);
    }
    RoutingIsOneThreshold(now, cluster, key);
  }

  // ---------------------------------------------------------------- the audit log

  function Replay(t: Table, trs: seq<Transition>): Table {
    if trs == [] then t else WithPhase(Replay(t, trs[..|trs| - 1]), trs[|trs| - 1].cluster, trs[|trs| - 1].to)
  }

  /** Each entry names the phase it replaced and the shares on both sides, and escalates only if confirmed. */
  ghost predicate Truthful(t: Table, trs: seq<Transition>) {
    forall i :: 0 <= i < |trs| ==> TruthfulEntry(Replay(t, trs[..i]), trs[i])
  }

  predicate TruthfulEntry(t: Table, tr: Transition) {
    && tr.from == RouteFor(t, tr.cluster).phase
    && tr.fromPercent == tr.from.CandidatePercent() && tr.toPercent == tr.to.CandidatePercent()
    && (tr.Escalation() ==> tr.confirmed)
    && !Blank(tr.reason)
  }

  /** What is recorded and what is still pending are, together, exactly the applied changes; replaying
      these in lock order from the start gives the table in force; and each one is truthful. */
  ghost predicate Audited(t: Table, s: System) {
    && multiset(s.log) + s.pending == multiset(s.applied)
    && Replay(t, s.applied) == s.table
    && Truthful(t, s.applied)
  }

  lemma AuditStep(t: Table, s: System, step: Step)
    requires Audited(t, s) && Enabled(s, step)
    ensures Audited(t, Do(s, step))
  {
    if step.Record? {
      RecordOne(s, step.t);
    } else {
      var r := Answer(s.table, step.authorised, step.change, step.at);
      if r.Ok? {
        EntryIsTruthful(s.table, step.authorised, step.change, step.at);
        ApplyOne(t, s, r.value);
        SameWithOneMore(multiset(s.log), s.pending, multiset(s.applied), multiset{r.value});
      }
    }
  }

  lemma EntryIsTruthful(t: Table, authorised: bool, ch: PhaseChange, at: nat)
    requires Answer(t, authorised, ch, at).Ok?
    ensures var r := Answer(t, authorised, ch, at);
            TruthfulEntry(t, r.value) && Outcome(t, r) == WithPhase(t, r.value.cluster, r.value.to)
  {
  }

  lemma SameWithOneMore(a: multiset<Transition>, b: multiset<Transition>, all: multiset<Transition>,
                        x: multiset<Transition>)
    requires a + b == all
    ensures a + (b + x) == all + x
  {
  }

  lemma RecordOne(s: System, tr: Transition)
    requires tr in s.pending
    ensures multiset(s.log + [tr]) + (s.pending - multiset{tr}) == multiset(s.log) + s.pending
  {
    assert multiset(s.log + [tr]) == multiset(s.log) + multiset{tr};
  }

  /** ... in every interleaving. */
  lemma {:induction false} AuditConserved(t: Table, steps: seq<Step>)
    requires Runs(Start(t), steps)
    ensures Audited(t, Run(Start(t), steps))
  {
    if steps != [] {
      AuditConserved(t, steps[..|steps| - 1]);
      AuditStep(t, Run(Start(t), steps[..|steps| - 1]), steps[|steps| - 1]);
    }
  }

  lemma ApplyOne(t: Table, s: System, tr: Transition)
    requires Replay(t, s.applied) == s.table && Truthful(t, s.applied) && TruthfulEntry(s.table, tr)
    ensures Replay(t, s.applied + [tr]) == WithPhase(s.table, tr.cluster, tr.to)
    ensures Truthful(t, s.applied + [tr])
    ensures multiset(s.applied + [tr]) == multiset(s.applied) + multiset{tr}
  {
    var trs := s.applied + [tr];
    assert trs[..|s.applied|] == s.applied;
    forall i | 0 <= i < |trs|
      ensures TruthfulEntry(Replay(t, trs[..i]), trs[i])
    {
      if i < |s.applied| {
        assert trs[..i] == s.applied[..i];
        assert TruthfulEntry(Replay(t, s.applied[..i]), s.applied[i]);
      }
    }
  }

  /** Every recorded escalation was confirmed. */
  lemma LoggedEscalationsConfirmed(t: Table, steps: seq<Step>, tr: Transition)
    requires Runs(Start(t), steps) && tr in Run(Start(t), steps).log && tr.Escalation()
    ensures tr.confirmed
  {
    AuditConserved(t, steps);
    var s := Run(Start(t), steps);
    assert tr in multiset(s.log);
    assert tr in multiset(s.applied);
    var i :| 0 <= i < |s.applied| && s.applied[i] == tr;
    assert TruthfulEntry(Replay(t, s.applied[..i]), s.applied[i]);
  }

  // ---------------------------------------------------------------- the order of the log

  /** No two different changes wait to be recorded. */
  ghost predicate Alike(s: System) {
    forall a, b :: a in s.pending && b in s.pending ==> a == b
  }

  ghost predicate RecordsInOrder(s: System, tr: Transition) {
    s.log + [tr] <= s.applied
  }

  /** While the log follows the lock order, what is pending is the rest of the applied changes. */
  lemma PendingIsTheRest(t: Table, s: System) returns (rest: seq<Transition>)
    requires Audited(t, s) && s.log <= s.applied
    ensures s.applied == s.log + rest && s.pending == multiset(rest)
    ensures forall tr :: tr in s.pending <==> tr in rest
  {
    rest := s.applied[|s.log|..];
    assert s.applied == s.log + rest;
    SamePart(multiset(s.log), s.pending, multiset(rest));
  }

  lemma SamePart(a: multiset<Transition>, b: multiset<Transition>, c: multiset<Transition>)
    requires a + b == a + c
    ensures b == c
  {
    assert a + b - a == b && a + c - a == c;
  }

  lemma NextInOrder(s: System, rest: seq<Transition>, tr: Transition)
    requires s.applied == s.log + rest && tr in rest
    ensures RecordsInOrder(s, tr) <==> tr == rest[0]
  {
    var n := |s.log|;
    assert s.applied[n] == rest[0] && (s.log + [tr])[n] == tr;
    assert s.applied[..n + 1] == s.log + [rest[0]];
  }

  /** As long as the log has followed the lock order, every way to go on keeps it so exactly if no two
      different changes are waiting: with two, one of them can be recorded out of turn. */
  lemma LogStaysInOrderExactly(t: Table, steps: seq<Step>)
    requires Runs(Start(t), steps)
    requires var s := Run(Start(t), steps); s.log <= s.applied
    ensures var s := Run(Start(t), steps);
            (forall tr :: tr in s.pending ==> RecordsInOrder(s, tr)) <==> Alike(s)
  {
    AuditConserved(t, steps);
    var s := Run(Start(t), steps);
    var rest := PendingIsTheRest(t, s);
    forall tr | tr in s.pending
      ensures RecordsInOrder(s, tr) <==> tr == rest[0]
    {
      NextInOrder(s, rest, tr);
    }
    if Alike(s) && rest != [] {
      assert rest[0] in s.pending;
    }
  }

  /** No two different changes waited at any point of the run. */
  ghost predicate AlwaysAlike(s: System, steps: seq<Step>) {
    Alike(Run(s, steps)) && (steps == [] || AlwaysAlike(s, steps[..|steps| - 1]))
  }

  /** In a run in which no two different changes ever waited, the log follows the lock order throughout. */
  lemma {:induction false} LogInLockOrderWhileAlike(t: Table, steps: seq<Step>)
    requires Runs(Start(t), steps) && AlwaysAlike(Start(t), steps)
    ensures Run(Start(t), steps).log <= Run(Start(t), steps).applied
  {
    if steps != [] {
      var init, step := steps[..|steps| - 1], steps[|steps| - 1];
      LogInLockOrderWhileAlike(t, init);
      LogStaysInOrderExactly(t, init);
      if step.Record? {
        assert RecordsInOrder(Run(Start(t), init), step.t);
      }
    }
  }

  /** Handlers do not overlap: no change is applied while another waits to be recorded. */
  predicate Serial(s: System, steps: seq<Step>) {
    steps == []
    || (Serial(s, steps[..|steps| - 1])
        && (steps[|steps| - 1].Handle? ==> Run(s, steps[..|steps| - 1]).pending == multiset{}))
  }

  /** Then the log is the lock order, short of at most the one change still to be recorded. */
  lemma {:induction false} SerialLogInLockOrder(t: Table, steps: seq<Step>)
    requires Runs(Start(t), steps) && Serial(Start(t), steps)
    ensures var s := Run(Start(t), steps);
            if s.pending == multiset{} then s.log == s.applied
            else |s.applied| > 0 && s.applied == s.log + [s.applied[|s.applied| - 1]]
                 && s.pending == multiset{s.applied[|s.applied| - 1]}
  {
    if steps != [] {
      var init, step := steps[..|steps| - 1], steps[|steps| - 1];
      SerialLogInLockOrder(t, init);
      var s := Run(Start(t), init);
      match step
      case Record(tr) =>
        assert tr == s.applied[|s.applied| - 1];
        assert s.pending - multiset{tr} == multiset{};
      case Handle(authorised, ch, at) =>
        var r := Answer(s.table, authorised, ch, at);
        if r.Ok? {
          assert (s.applied + [r.value])[..|s.applied|] == s.applied;
          assert multiset{} + multiset{r.value} == multiset{r.value};
        }
    }
  }

  /** A cut-over and its rollback, from a table whose default is in shadow. */
  function CutOver(why: string): Transition { Transition(None, Shadow, Cut, 0, 100, why, true, 0) }

  function RollBack(why: string): Transition { Transition(None, Cut, Shadow, 100, 0, why, false, 1) }

  lemma OverlapStates(t: Table, why: string)
    requires t.defaultRoute.phase == Shadow && !Blank(why)
    ensures var a, b := CutOver(why), RollBack(why);
            && Do(Start(t), Handle(true, PhaseChange(None, Cut, why, true), 0))
               == System(WithPhase(t, None, Cut), multiset{a}, [], [a])
            && Do(System(WithPhase(t, None, Cut), multiset{a}, [], [a]),
                  Handle(true, PhaseChange(None, Shadow, why, false), 1))
               == System(t, multiset{a, b}, [], [a, b])
  {
  }

  lemma LateRecords(t: Table, a: Transition, b: Transition)
    requires a != b
    ensures var s := System(t, multiset{a, b}, [], [a, b]);
            && Enabled(s, Record(b)) && Do(s, Record(b)) == System(t, multiset{a}, [b], [a, b])
            && Enabled(Do(s, Record(b)), Record(a))
            && Do(Do(s, Record(b)), Record(a)) == System(t, multiset{}, [b, a], [a, b])
  {
    assert multiset{a, b} - multiset{b} == multiset{a};
    assert multiset{a} - multiset{a} == multiset{};
    assert [] + [b] == [b] && [b] + [a] == [b, a];
  }

  /** When handlers overlap the log can show the changes in the wrong order: the table is back in
      shadow, and the last log entry says it was cut over. */
  lemma OverlapCanReorderTheLog(t: Table, why: string) returns (steps: seq<Step>)
    requires t.defaultRoute.phase == Shadow && !Blank(why)
    ensures Runs(Start(t), steps)
    ensures Run(Start(t), steps) == System(t, multiset{}, [RollBack(why), CutOver(why)], [CutOver(why), RollBack(why)])
  {
    var up := Handle(true, PhaseChange(None, Cut, why, true), 0);
    var down := Handle(true, PhaseChange(None, Shadow, why, false), 1);
    OverlapStates(t, why);
    LateRecords(t, CutOver(why), RollBack(why));
    RunSnoc(Start(t), [], up);
    RunSnoc(Start(t), [] + [up], down);
    RunSnoc(Start(t), [] + [up] + [down], Record(RollBack(why)));
    steps := [] + [up] + [down] + [Record(RollBack(why))];
    RunSnoc(Start(t), steps, Record(CutOver(why)));
    steps := steps + [Record(CutOver(why))];
  }

  lemma RunSnoc(s: System, steps: seq<Step>, step: Step)
    ensures Run(s, steps + [step]) == Do(Run(s, steps), step)
    ensures Runs(s, steps + [step]) <==> Runs(s, steps) && Enabled(Run(s, steps), step)
  {
    assert (steps + [step])[..|steps|] == steps;
  }
}
