/**
  Boxes and their arrival on another machine: when a packed plan may be used unchanged,
  and the ladder of smaller workloads tried when it may not.
  A runtime's planner is a parameter; VllmPlanner supplies the real one.
 */
module Pack {
  import opened Wrappers
  import opened Arithmetic

  datatype Accelerator = Nvidia | Amd | Apple | Cpu

  datatype HostClass = HostClass(
    accelerator: Accelerator, name: string, usableBytes: nat, bandwidth: Option<real>, devices: nat)

  datatype HostChange =
    | AcceleratorChanged(oldKind: Accelerator, newKind: Accelerator)
    | DevicesChanged(before: nat, after: nat)
    | MemoryChanged(before: nat, after: nat)

  /** Whether the plan of a box made on `packed` will do as it is on `here`. */
  predicate Accepts(packed: HostClass, here: HostClass) {
    && packed.accelerator == here.accelerator
    && packed.devices == here.devices
    && here.usableBytes >= packed.usableBytes
  }

  /** What it means for `change` to be a true statement about going from `a` to `b`. */
  predicate IsChange(a: HostClass, b: HostClass, change: HostChange) {
    match change
    case AcceleratorChanged(before, after) => before == a.accelerator && after == b.accelerator && before != after
    case DevicesChanged(before, after) => before == a.devices && after == b.devices && before != after
    case MemoryChanged(before, after) => before == a.usableBytes && after == b.usableBytes && before != after
  }

  method Diff(a: HostClass, b: HostClass) returns (out: seq<HostChange>)
    ensures forall c :: c in out <==> IsChange(a, b, c)
    ensures forall i, j :: 0 <= i < j < |out| ==> out[i] != out[j]
  {
    out := [];
    if a.accelerator != b.accelerator {
      out := out + [AcceleratorChanged(a.accelerator, b.accelerator)];
    }
    if a.devices != b.devices {
      out := out + [DevicesChanged(a.devices, b.devices)];
    }
    if a.usableBytes != b.usableBytes {
      out := out + [MemoryChanged(a.usableBytes, b.usableBytes)];
    }
  }

  /** Hosts are accepted exactly when the only possible change is more memory. */
  lemma AcceptsExactly(a: HostClass, b: HostClass)
    ensures Accepts(a, b) <==>
      forall c :: IsChange(a, b, c) ==> c.MemoryChanged? && c.before < c.after
  {
    if !Accepts(a, b) {
      var c :=
        if a.accelerator != b.accelerator then AcceleratorChanged(a.accelerator, b.accelerator)
        else if a.devices != b.devices then DevicesChanged(a.devices, b.devices)
        else MemoryChanged(a.usableBytes, b.usableBytes);
      assert IsChange(a, b, c);
    }
  }

  /** A change told from the other side. */
  function Reversed(c: HostChange): HostChange {
    match c
    case AcceleratorChanged(was, now) => AcceleratorChanged(now, was)
    case DevicesChanged(before, after) => DevicesChanged(after, before)
    case MemoryChanged(before, after) => MemoryChanged(after, before)
  }

  function Changed(h: HostClass, c: HostChange): HostClass {
    match c
    case AcceleratorChanged(_, now) => h.(accelerator := now)
    case DevicesChanged(_, after) => h.(devices := after)
    case MemoryChanged(_, after) => h.(usableBytes := after)
  }

  function AllChanged(h: HostClass, cs: seq<HostChange>): HostClass {
    if cs == [] then h else Changed(AllChanged(h, cs[..|cs| - 1]), cs[|cs| - 1])
  }

  predicate SameClass(a: HostClass, b: HostClass) {
    a.accelerator == b.accelerator && a.devices == b.devices && a.usableBytes == b.usableBytes
  }

  lemma {:induction false} ChangesLead(a: HostClass, b: HostClass, cs: seq<HostChange>)
    requires forall c :: c in cs ==> IsChange(a, b, c)
    ensures var h := AllChanged(a, cs);
      && h.accelerator == (if exists c :: c in cs && c.AcceleratorChanged? then b.accelerator else a.accelerator)
      && h.devices == (if exists c :: c in cs && c.DevicesChanged? then b.devices else a.devices)
      && h.usableBytes == (if exists c :: c in cs && c.MemoryChanged? then b.usableBytes else a.usableBytes)
  {
    if cs != [] {
      var init, last := cs[..|cs| - 1], cs[|cs| - 1];
      assert cs == init + [last];
      ChangesLead(a, b, init);
      assert last in cs;
    }
  }

  /** The changes listed turn the packed class into the one here, and told from here they are the way back. */
  lemma ChangesRebuildTheHost(a: HostClass, b: HostClass, cs: seq<HostChange>, c: HostChange)
    requires forall x :: x in cs <==> IsChange(a, b, x)
    ensures SameClass(AllChanged(a, cs), b)
    ensures IsChange(a, b, c) <==> IsChange(b, a, Reversed(c))
  {
    ChangesLead(a, b, cs);
    if a.accelerator != b.accelerator { assert AcceleratorChanged(a.accelerator, b.accelerator) in cs; }
    if a.devices != b.devices { assert DevicesChanged(a.devices, b.devices) in cs; }
    if a.usableBytes != b.usableBytes { assert MemoryChanged(a.usableBytes, b.usableBytes) in cs; }
  }

  // ------------------------------------------------------------------ plans

  datatype Draft = Draft(technique: string, tokens: nat)
  datatype RuntimePlan = RuntimePlan(
    quant: string, bits: real, maxModelLen: nat, maxNumSeqs: nat, tensorParallel: nat,
    draft: Option<Draft>, prefixCaching: bool)

  datatype PlanChange =
    | Requantised(oldQuant: string, newQuant: string)
    | ContextMoved(before: nat, after: nat)
    | ConcurrencyMoved(before: nat, after: nat)
    | ParallelismMoved(before: nat, after: nat)
    | DraftDisabled
    | DraftEnabled(technique: string)
    | PrefixCaching(on: bool)
    | ContextConceded(before: nat, after: nat)
    | ConcurrencyConceded(before: nat, after: nat)

  predicate IsPlanChange(a: RuntimePlan, b: RuntimePlan, change: PlanChange) {
    match change
    case Requantised(before, after) => before == a.quant && after == b.quant && before != after
    case ContextMoved(before, after) => before == a.maxModelLen && after == b.maxModelLen && before != after
    case ConcurrencyMoved(before, after) => before == a.maxNumSeqs && after == b.maxNumSeqs && before != after
    case ParallelismMoved(before, after) => before == a.tensorParallel && after == b.tensorParallel && before != after
    case DraftDisabled => a.draft.Some? && b.draft.None?
    case DraftEnabled(technique) => a.draft.None? && b.draft.Some? && technique == b.draft.value.technique
    case PrefixCaching(on) => on == b.prefixCaching && on != a.prefixCaching
    case ContextConceded(_, _) => false
    case ConcurrencyConceded(_, _) => false
  }

  /** The changes in what is served: precision, length, users, devices. */
  predicate IsSizeChange(c: PlanChange) {
    c.Requantised? || c.ContextMoved? || c.ConcurrencyMoved? || c.ParallelismMoved?
  }

  method SizeDiff(a: RuntimePlan, b: RuntimePlan) returns (out: seq<PlanChange>)
    ensures forall c :: c in out <==> IsPlanChange(a, b, c) && IsSizeChange(c)
  {
    out := [];
    if a.quant != b.quant { out := out + [Requantised(a.quant, b.quant)]; }
    if a.maxModelLen != b.maxModelLen { out := out + [ContextMoved(a.maxModelLen, b.maxModelLen)]; }
    assert forall c :: c in out <==> IsPlanChange(a, b, c) && (c.Requantised? || c.ContextMoved?);
    if a.maxNumSeqs != b.maxNumSeqs { out := out + [ConcurrencyMoved(a.maxNumSeqs, b.maxNumSeqs)]; }
    if a.tensorParallel != b.tensorParallel { out := out + [ParallelismMoved(a.tensorParallel, b.tensorParallel)]; }
  }

  method PlanDiff(a: RuntimePlan, b: RuntimePlan) returns (out: seq<PlanChange>)
    ensures forall c :: c in out <==> IsPlanChange(a, b, c)
  {
    out := SizeDiff(a, b);
    match (a.draft, b.draft) {
      case (Some(_), None) => out := out + [DraftDisabled];
      case (None, Some(d)) => out := out + [DraftEnabled(d.technique)];
      case _ =>
    }
    if a.prefixCaching != b.prefixCaching { out := out + [PrefixCaching(b.prefixCaching)]; }
  }

  /**
    Nothing is reported exactly when the plans agree on everything named here.
    The speculation settings themselves are not compared, only their presence.
   */
  lemma SilentExactly(a: RuntimePlan, b: RuntimePlan)
    ensures (forall c :: !IsPlanChange(a, b, c)) <==>
      && a.quant == b.quant && a.maxModelLen == b.maxModelLen && a.maxNumSeqs == b.maxNumSeqs
      && a.tensorParallel == b.tensorParallel && a.prefixCaching == b.prefixCaching
      && a.draft.Some? == b.draft.Some?
  {
    assert IsPlanChange(a, b, Requantised(a.quant, b.quant)) <==> a.quant != b.quant;
    assert IsPlanChange(a, b, ContextMoved(a.maxModelLen, b.maxModelLen)) <==> a.maxModelLen != b.maxModelLen;
    assert IsPlanChange(a, b, ConcurrencyMoved(a.maxNumSeqs, b.maxNumSeqs)) <==> a.maxNumSeqs != b.maxNumSeqs;
    assert IsPlanChange(a, b, ParallelismMoved(a.tensorParallel, b.tensorParallel))
      <==> a.tensorParallel != b.tensorParallel;
    assert IsPlanChange(a, b, PrefixCaching(b.prefixCaching)) <==> a.prefixCaching != b.prefixCaching;
    assert IsPlanChange(a, b, DraftDisabled) <==> a.draft.Some? && b.draft.None?;
    assert b.draft.Some? ==>
      (IsPlanChange(a, b, DraftEnabled(b.draft.value.technique)) <==> a.draft.None?);
  }

  /** What a change in size says of the plan it leads to, and, told from the other side, of the plan it leaves. */
  predicate LeadsTo(c: PlanChange, p: RuntimePlan) {
    match c
    case Requantised(_, q) => p.quant == q
    case ContextMoved(_, n) => p.maxModelLen == n
    case ConcurrencyMoved(_, n) => p.maxNumSeqs == n
    case ParallelismMoved(_, n) => p.tensorParallel == n
    case DraftDisabled => p.draft.None?
    case DraftEnabled(technique) => p.draft.Some? && p.draft.value.technique == technique
    case PrefixCaching(on) => p.prefixCaching == on
    case _ => false
  }

  function Backwards(c: PlanChange): PlanChange {
    match c
    case Requantised(a, b) => Requantised(b, a)
    case ContextMoved(a, b) => ContextMoved(b, a)
    case ConcurrencyMoved(a, b) => ConcurrencyMoved(b, a)
    case ParallelismMoved(a, b) => ParallelismMoved(b, a)
    case PrefixCaching(on) => PrefixCaching(!on)
    case _ => c
  }

  /** A change between two plans is true of the one and not of the other, and told backwards the other way
      around. */
  lemma PlanChangesTellTheWay(a: RuntimePlan, b: RuntimePlan, c: PlanChange)
    ensures IsPlanChange(a, b, c) ==> LeadsTo(c, b) && !LeadsTo(c, a)
    ensures IsSizeChange(c) || c.PrefixCaching? ==>
      (IsPlanChange(a, b, c) <==> LeadsTo(c, b) && LeadsTo(Backwards(c), a) && !LeadsTo(c, a))
  {
  }

  // ------------------------------------------------------------------ the ladder

  /** A planner for one machine and model: context and concurrency in, a plan or a refusal out. */
  type Planner = (nat, nat) -> Option<RuntimePlan>

  /** A workload the ladder tries, and what it admits to having given up. */
  datatype Attempt = Attempt(ctx: nat, conc: nat, given: seq<PlanChange>)

  const MIN_DEGRADED_CONTEXT: nat := 2048

  predicate Offers(plan: Planner, ctx: nat, conc: nat) {
    plan(ctx, conc).Some?
  }

  /** If a workload can be served, so can every smaller one. */
  ghost predicate Downward(plan: Planner) {
    forall c, n, c', n' :: c' <= c && n' <= n && Offers(plan, c, n) ==> Offers(plan, c', n')
  }

  /** One step down: half, but not below the floor. */
  function Lower(x: nat, floor: nat): nat {
    if x / 2 > floor then x / 2 else floor
  }

  /** The values below `x` that halving down to `floor` visits, in order. */
  function Rungs(x: nat, floor: nat): seq<nat>
    requires floor > 0
    decreases x
  {
    if x > floor then [Lower(x, floor)] + Rungs(Lower(x, floor), floor) else []
  }

  function LessContext(wantedCtx: nat, conc: nat, ctx: nat): Attempt {
    Attempt(ctx, conc, [ContextConceded(wantedCtx, ctx)])
  }

  function LessConcurrency(wantedCtx: nat, wantedConc: nat, conc: nat): Attempt {
    Attempt(MIN_DEGRADED_CONTEXT, conc,
            [ContextConceded(wantedCtx, MIN_DEGRADED_CONTEXT), ConcurrencyConceded(wantedConc, conc)])
  }

  function ContextAttempts(ctx: nat, conc: nat): seq<Attempt> {
    var r := Rungs(ctx, MIN_DEGRADED_CONTEXT);
    seq(|r|, i requires 0 <= i < |r| => LessContext(ctx, conc, r[i]))
  }

  function ConcurrencyAttempts(ctx: nat, conc: nat): seq<Attempt> {
    var r := Rungs(conc, 1);
    seq(|r|, i requires 0 <= i < |r| => LessConcurrency(ctx, conc, r[i]))
  }

  /** Every workload the ladder is prepared to try, in the order it tries them. */
  function Attempts(ctx: nat, conc: nat): seq<Attempt> {
    [Attempt(ctx, conc, [])] + ContextAttempts(ctx, conc) + ConcurrencyAttempts(ctx, conc)
  }

  ghost predicate AllRefused(plan: Planner, tried: seq<Attempt>) {
    forall a :: a in tried ==> !Offers(plan, a.ctx, a.conc)
  }

  /** `answer` is what the first acceptable attempt of `ladder` gets, or None when there is none. */
  ghost predicate FirstServed(plan: Planner, ladder: seq<Attempt>, answer: Option<(RuntimePlan, seq<PlanChange>)>) {
    if answer.None? then AllRefused(plan, ladder) else
    exists k ::
      && 0 <= k < |ladder|
      && AllRefused(plan, ladder[..k])
      && plan(ladder[k].ctx, ladder[k].conc) == Some(answer.value.0)
      && answer.value.1 == ladder[k].given
  }

  lemma OneMoreRefused(plan: Planner, ladder: seq<Attempt>, k: nat)
    requires k < |ladder| && AllRefused(plan, ladder[..k]) && !Offers(plan, ladder[k].ctx, ladder[k].conc)
    ensures AllRefused(plan, ladder[..k + 1])
  {
    assert ladder[..k + 1] == ladder[..k] + [ladder[k]];
  }

  /** Halving from `start` has come to `x` after `i` rungs. */
  ghost predicate At(start: nat, floor: nat, x: nat, i: nat)
    requires floor > 0
  {
    i <= |Rungs(start, floor)| && Rungs(start, floor)[i..] == Rungs(x, floor)
  }

  lemma OneRungDown(start: nat, floor: nat, x: nat, i: nat)
    requires floor > 0 && At(start, floor, x, i)
    ensures if x > floor then
              && i < |Rungs(start, floor)| && Rungs(start, floor)[i] == Lower(x, floor)
              && At(start, floor, Lower(x, floor), i + 1)
            else i == |Rungs(start, floor)|
  {
    if x > floor {
      assert Rungs(start, floor)[i + 1..] == Rungs(start, floor)[i..][1..];
    }
  }

  lemma ServedHere(plan: Planner, ladder: seq<Attempt>, k: nat, p: RuntimePlan)
    requires k < |ladder| && AllRefused(plan, ladder[..k]) && plan(ladder[k].ctx, ladder[k].conc) == Some(p)
    ensures FirstServed(plan, ladder, Some((p, ladder[k].given)))
  {
  }

  /** The first loop: less context, until it is served or at the floor. */
  method LowerContext(plan: Planner, wantedCtx: nat, wantedConc: nat)
    returns (answer: Option<(RuntimePlan, seq<PlanChange>)>, ghost calls: nat)
    requires AllRefused(plan, Attempts(wantedCtx, wantedConc)[..1])
    ensures answer.Some? ==> FirstServed(plan, Attempts(wantedCtx, wantedConc), answer)
    ensures calls <= 1 + |Rungs(wantedCtx, MIN_DEGRADED_CONTEXT)|
    ensures answer.None? ==>
      calls == 1 + |Rungs(wantedCtx, MIN_DEGRADED_CONTEXT)|
      && AllRefused(plan, Attempts(wantedCtx, wantedConc)[..calls])
  {
    ghost var all := Attempts(wantedCtx, wantedConc);
    calls := 1;
    var ctx: nat := wantedCtx;
    while ctx > MIN_DEGRADED_CONTEXT
      invariant calls >= 1 && At(wantedCtx, MIN_DEGRADED_CONTEXT, ctx, calls - 1)
      invariant AllRefused(plan, all[..calls])
      decreases ctx
    {
      OneRungDown(wantedCtx, MIN_DEGRADED_CONTEXT, ctx, calls - 1);
      ctx := Lower(ctx, MIN_DEGRADED_CONTEXT);
      AttemptAt(wantedCtx, wantedConc, calls);
      var p := plan(ctx, wantedConc);
      if p.Some? {
        ServedHere(plan, all, calls, p.value);
        return Some((p.value, [ContextConceded(wantedCtx, ctx)])), calls + 1;
      }
      OneMoreRefused(plan, all, calls);
      calls := calls + 1;
    }
    OneRungDown(wantedCtx, MIN_DEGRADED_CONTEXT, ctx, calls - 1);
    return None, calls;
  }

  /** The second loop: the floor context, and less concurrency. */
  method LowerConcurrency(plan: Planner, wantedCtx: nat, wantedConc: nat)
    returns (answer: Option<(RuntimePlan, seq<PlanChange>)>, ghost calls: nat)
    requires AllRefused(plan, Attempts(wantedCtx, wantedConc)[..1 + |Rungs(wantedCtx, MIN_DEGRADED_CONTEXT)|])
    ensures FirstServed(plan, Attempts(wantedCtx, wantedConc), answer)
    ensures calls <= |Rungs(wantedConc, 1)|
  {
    ghost var all, base := Attempts(wantedCtx, wantedConc), 1 + |Rungs(wantedCtx, MIN_DEGRADED_CONTEXT)|;
    calls := 0;
    var conc: nat := wantedConc;
    while conc > 1
      invariant At(wantedConc, 1, conc, calls)
      invariant AllRefused(plan, all[..base + calls])
      decreases conc
    {
      OneRungDown(wantedConc, 1, conc, calls);
      conc := Lower(conc, 1);
      AttemptAt(wantedCtx, wantedConc, base + calls);
      var p := plan(MIN_DEGRADED_CONTEXT, conc);
      if p.Some? {
        ServedHere(plan, all, base + calls, p.value);
        return Some((p.value, [ContextConceded(wantedCtx, MIN_DEGRADED_CONTEXT),
                               ConcurrencyConceded(wantedConc, conc)])), calls + 1;
      }
      OneMoreRefused(plan, all, base + calls);
      calls := calls + 1;
    }
    OneRungDown(wantedConc, 1, conc, calls);
    assert all[..base + calls] == all;
    return None, calls;
  }

  method ResolveHere(plan: Planner, wantedCtx: nat, wantedConc: nat)
    returns (answer: Option<(RuntimePlan, seq<PlanChange>)>, ghost calls: nat)
    ensures FirstServed(plan, Attempts(wantedCtx, wantedConc), answer)
    ensures calls <= |Attempts(wantedCtx, wantedConc)|
  {
    ghost var all := Attempts(wantedCtx, wantedConc);
    var p := plan(wantedCtx, wantedConc);
    if p.Some? {
      ServedHere(plan, all, 0, p.value);
      return Some((p.value, [])), 1;
    }
    OneMoreRefused(plan, all, 0);
    answer, calls := LowerContext(plan, wantedCtx, wantedConc);
    if answer.None? {
      ghost var more;
      answer, more := LowerConcurrency(plan, wantedCtx, wantedConc);
      calls := calls + more;
    }
  }

  // ------------------------------------------------------------------ how far the ladder reaches

  /** The rung above rung `i`: the starting value for the first one. */
  function Above(x: nat, floor: nat, i: nat): nat
    requires floor > 0 && i <= |Rungs(x, floor)|
  {
    if i == 0 then x else Rungs(x, floor)[i - 1]
  }

  /** Each rung is above the floor's half-step: at least half of the one above it, and lower. */
  lemma {:induction false} RungsHalve(x: nat, floor: nat, i: nat)
    requires floor > 0 && i < |Rungs(x, floor)|
    ensures floor <= Rungs(x, floor)[i] < Above(x, floor, i) <= 2 * Rungs(x, floor)[i] + 1
    decreases x
  {
    if i > 0 {
      var y := Lower(x, floor);
      RungsHalve(y, floor, i - 1);
      assert Rungs(x, floor)[i] == Rungs(y, floor)[i - 1];
      assert Above(x, floor, i) == Above(y, floor, i - 1);
    }
  }

  /** The ladder reaches its floor exactly. */
  lemma {:induction false} RungsReachFloor(x: nat, floor: nat)
    requires floor > 0 && x > floor
    ensures |Rungs(x, floor)| > 0 && Rungs(x, floor)[|Rungs(x, floor)| - 1] == floor
    decreases x
  {
    var y := Lower(x, floor);
    if y > floor {
      RungsReachFloor(y, floor);
    } else {
      assert Rungs(y, floor) == [];
    }
  }

  /** The number of rungs is logarithmic in how far `x` is above the floor. */
  lemma {:induction false} RungsAreFew(x: nat, floor: nat)
    requires floor > 0
    ensures |Rungs(x, floor)| > 0 ==> floor * Pow2(|Rungs(x, floor)| - 1) < x
    decreases x
  {
    if x > floor {
      var y := Lower(x, floor);
      RungsAreFew(y, floor);
      var k := |Rungs(y, floor)|;
      if k > 0 {
        assert y == x / 2;
        assert floor * Pow2(k) == 2 * (floor * Pow2(k - 1));
      }
    }
  }

  /** Planner calls: one, plus logarithmically many for each dimension given up. */
  lemma CallsAreLogarithmic(ctx: nat, conc: nat)
    ensures |Attempts(ctx, conc)| == 1 + |ContextAttempts(ctx, conc)| + |ConcurrencyAttempts(ctx, conc)|
    ensures |ContextAttempts(ctx, conc)| > 0 ==> MIN_DEGRADED_CONTEXT * Pow2(|ContextAttempts(ctx, conc)| - 1) < ctx
    ensures |ConcurrencyAttempts(ctx, conc)| > 0 ==> Pow2(|ConcurrencyAttempts(ctx, conc)| - 1) < conc
  {
    RungsAreFew(ctx, MIN_DEGRADED_CONTEXT);
    RungsAreFew(conc, 1);
  }

  /** Where attempt `k` of the ladder comes from. */
  lemma AttemptAt(ctx: nat, conc: nat, k: nat)
    requires k < |Attempts(ctx, conc)|
    ensures var n := |Rungs(ctx, MIN_DEGRADED_CONTEXT)|;
      if k == 0 then Attempts(ctx, conc)[k] == Attempt(ctx, conc, [])
      else if k <= n then Attempts(ctx, conc)[k] == LessContext(ctx, conc, Rungs(ctx, MIN_DEGRADED_CONTEXT)[k - 1])
      else && k - n - 1 < |Rungs(conc, 1)|
           && Attempts(ctx, conc)[k] == LessConcurrency(ctx, conc, Rungs(conc, 1)[k - n - 1])
  {
  }

  /** Before giving up on context, the ladder tries the floor context at full concurrency. */
  lemma FloorWasTried(ctx: nat, conc: nat)
    requires ctx >= MIN_DEGRADED_CONTEXT
    ensures var a := Attempts(ctx, conc)[|Rungs(ctx, MIN_DEGRADED_CONTEXT)|];
      a.ctx == MIN_DEGRADED_CONTEXT && a.conc == conc
  {
    if ctx > MIN_DEGRADED_CONTEXT {
      RungsReachFloor(ctx, MIN_DEGRADED_CONTEXT);
    }
    AttemptAt(ctx, conc, |Rungs(ctx, MIN_DEGRADED_CONTEXT)|);
  }

  /** The answer is the planner's plan for (c, n), with the concessions that belong to trying (c, n). */
  ghost predicate ServedAt(plan: Planner, ctx: nat, conc: nat, c: nat, n: nat,
                           answer: Option<(RuntimePlan, seq<PlanChange>)>)
  {
    && answer.Some?
    && plan(c, n) == Some(answer.value.0)
    && Attempt(c, n, answer.value.1) in Attempts(ctx, conc)
  }

  /**
    Everything given up is admitted. A context concession is also listed when nothing was given up there:
    exactly when the request already asked for the floor context and concurrency was given up.
   */
  lemma GivenUpIsAdmitted(ctx: nat, conc: nat, a: Attempt)
    requires ctx >= MIN_DEGRADED_CONTEXT && a in Attempts(ctx, conc)
    ensures a.conc < conc <==> ConcurrencyConceded(conc, a.conc) in a.given
    ensures ContextConceded(ctx, a.ctx) in a.given <==> a.ctx < ctx || (ctx == MIN_DEGRADED_CONTEXT && a.conc < conc)
    ensures forall c :: c in a.given ==> c == ContextConceded(ctx, a.ctx) || c == ConcurrencyConceded(conc, a.conc)
  {
    var all := Attempts(ctx, conc);
    var k :| 0 <= k < |all| && all[k] == a;
    AttemptAt(ctx, conc, k);
    var m := |Rungs(ctx, MIN_DEGRADED_CONTEXT)|;
    if 0 < k <= m {
      RungsDescend(ctx, MIN_DEGRADED_CONTEXT, k - 1);
    } else if m < k {
      RungsDescend(conc, 1, k - m - 1);
    }
  }

  /** The attempt that a served answer came from. */
  lemma Winner(plan: Planner, ladder: seq<Attempt>, answer: Option<(RuntimePlan, seq<PlanChange>)>) returns (k: nat)
    requires FirstServed(plan, ladder, answer) && answer.Some?
    ensures k < |ladder| && plan(ladder[k].ctx, ladder[k].conc) == Some(answer.value.0)
    ensures ladder[k] in ladder && ladder[k] == Attempt(ladder[k].ctx, ladder[k].conc, answer.value.1)
    ensures forall i :: 0 <= i < k ==> !Offers(plan, ladder[i].ctx, ladder[i].conc)
  {
    k :| && 0 <= k < |ladder| && AllRefused(plan, ladder[..k])
         && plan(ladder[k].ctx, ladder[k].conc) == Some(answer.value.0) && answer.value.1 == ladder[k].given;
    forall i | 0 <= i < k ensures !Offers(plan, ladder[i].ctx, ladder[i].conc) {
      assert ladder[i] == ladder[..k][i];
    }
  }

  /** What is near-optimal about serving (c, n) when (ctx, conc) was asked for. */
  ghost predicate NearBest(plan: Planner, ctx: nat, conc: nat, c: nat, n: nat) {
    && MIN_DEGRADED_CONTEXT <= c <= ctx && n <= conc
    && ((c < ctx || n < conc) ==> !Offers(plan, ctx, conc))
    && (n == conc ==> ContextWithinTwice(plan, ctx, conc, c))
    && (n < conc ==> c == MIN_DEGRADED_CONTEXT && n >= 1 && ConcurrencyWithinTwice(plan, conc, n))
  }

  /** No context up to `ctx` that can be served to `conc` users is more than twice `c`. */
  ghost predicate ContextWithinTwice(plan: Planner, ctx: nat, conc: nat, c: nat) {
    forall c': nat :: c' <= ctx && Offers(plan, c', conc) ==> c' <= 2 * c
  }

  /** No useful context at all can be served to `conc` users, or to more than twice `n`. */
  ghost predicate ConcurrencyWithinTwice(plan: Planner, conc: nat, n: nat) {
    forall c': nat, n': nat :: c' >= MIN_DEGRADED_CONTEXT && Offers(plan, c', n') ==> n' < conc && n' <= 2 * n
  }

  /** A refused value, at most twice the chosen one plus one, bounds every feasible value. */
  lemma ContextBound(plan: Planner, ctx: nat, conc: nat, c: nat, refused: nat)
    requires Downward(plan) && !Offers(plan, refused, conc) && refused <= 2 * c + 1
    ensures ContextWithinTwice(plan, ctx, conc, c)
  {
  }

  lemma ConcurrencyBound(plan: Planner, conc: nat, n: nat, refused: nat)
    requires Downward(plan) && !Offers(plan, MIN_DEGRADED_CONTEXT, refused) && refused <= 2 * n + 1
    requires !Offers(plan, MIN_DEGRADED_CONTEXT, conc)
    ensures ConcurrencyWithinTwice(plan, conc, n)
  {
  }

  /**
    Near-optimal, for a planner that never refuses less than it accepts: asked for at least the floor,
    the ladder serves the request as it stands, or at full concurrency at least half of
    every context that could have been served, or, when no useful context can be had at full concurrency, at least
    half of every concurrency that could.
   */
  lemma NearOptimal(plan: Planner, ctx: nat, conc: nat, answer: Option<(RuntimePlan, seq<PlanChange>)>)
    returns (c: nat, n: nat)
    requires Downward(plan) && ctx >= MIN_DEGRADED_CONTEXT
    requires FirstServed(plan, Attempts(ctx, conc), answer) && answer.Some?
    ensures ServedAt(plan, ctx, conc, c, n, answer) && NearBest(plan, ctx, conc, c, n)
  {
    var k := Winner(plan, Attempts(ctx, conc), answer);
    c, n := Attempts(ctx, conc)[k].ctx, Attempts(ctx, conc)[k].conc;
    AttemptAt(ctx, conc, 0);
    if k == 0 {
    } else if k <= |Rungs(ctx, MIN_DEGRADED_CONTEXT)| {
      ContextRung(plan, ctx, conc, k);
    } else {
      ConcurrencyRung(plan, ctx, conc, k);
    }
  }

  lemma ContextRung(plan: Planner, ctx: nat, conc: nat, k: nat)
    requires Downward(plan) && ctx >= MIN_DEGRADED_CONTEXT
    requires 0 < k <= |Rungs(ctx, MIN_DEGRADED_CONTEXT)|
    requires forall i :: 0 <= i < k ==> !Offers(plan, Attempts(ctx, conc)[i].ctx, Attempts(ctx, conc)[i].conc)
    ensures var a := Attempts(ctx, conc)[k]; NearBest(plan, ctx, conc, a.ctx, a.conc)
  {
    AttemptAt(ctx, conc, 0);
    AttemptAt(ctx, conc, k - 1);
    AttemptAt(ctx, conc, k);
    RungsHalve(ctx, MIN_DEGRADED_CONTEXT, k - 1);
    RungsDescend(ctx, MIN_DEGRADED_CONTEXT, k - 1);
    ContextBound(plan, ctx, conc, Attempts(ctx, conc)[k].ctx, Attempts(ctx, conc)[k - 1].ctx);
  }

  lemma ConcurrencyRung(plan: Planner, ctx: nat, conc: nat, k: nat)
    requires Downward(plan) && ctx >= MIN_DEGRADED_CONTEXT
    requires |Rungs(ctx, MIN_DEGRADED_CONTEXT)| < k < |Attempts(ctx, conc)|
    requires forall i :: 0 <= i < k ==> !Offers(plan, Attempts(ctx, conc)[i].ctx, Attempts(ctx, conc)[i].conc)
    ensures var a := Attempts(ctx, conc)[k]; NearBest(plan, ctx, conc, a.ctx, a.conc)
  {
    var i := k - |Rungs(ctx, MIN_DEGRADED_CONTEXT)| - 1;
    AttemptAt(ctx, conc, 0);
    AttemptAt(ctx, conc, k - 1);
    AttemptAt(ctx, conc, k);
    FloorWasTried(ctx, conc);
    RungsHalve(conc, 1, i);
    RungsDescend(conc, 1, i);
    ConcurrencyBound(plan, conc, Attempts(ctx, conc)[k].conc, Attempts(ctx, conc)[k - 1].conc);
  }

  lemma {:induction false} RungsDescend(x: nat, floor: nat, i: nat)
    requires floor > 0 && i < |Rungs(x, floor)|
    ensures Rungs(x, floor)[i] < x
    decreases i
  {
    RungsHalve(x, floor, i);
    if i > 0 {
      RungsDescend(x, floor, i - 1);
    }
  }

  /** Complete at the floor: within the domain, refusal means even 2048 tokens for one user cannot be served. */
  lemma RefusedExactlyAtTheFloor(plan: Planner, ctx: nat, conc: nat, answer: Option<(RuntimePlan, seq<PlanChange>)>)
    requires Downward(plan) && ctx >= MIN_DEGRADED_CONTEXT && conc >= 1
    requires FirstServed(plan, Attempts(ctx, conc), answer)
    ensures answer.None? <==> !Offers(plan, 2048, 1)
  {
    if answer.None? {
      LastResortIsTried(ctx, conc);
    } else {
      var c, n := NearOptimal(plan, ctx, conc, answer);
      assert Offers(plan, c, n);
    }
  }

  /** The last resort is one of the attempts, whatever the planner is like. */
  lemma LastResortIsTried(ctx: nat, conc: nat)
    requires ctx >= MIN_DEGRADED_CONTEXT && conc >= 1
    ensures exists a :: a in Attempts(ctx, conc) && a.ctx == MIN_DEGRADED_CONTEXT && a.conc == 1
  {
    var all := Attempts(ctx, conc);
    if conc > 1 {
      RungsReachFloor(conc, 1);
      AttemptAt(ctx, conc, |all| - 1);
      assert all[|all| - 1] in all;
    } else {
      FloorWasTried(ctx, conc);
      assert all[|Rungs(ctx, MIN_DEGRADED_CONTEXT)|] in all;
    }
  }

  /**
    Below the floor the ladder can hand back MORE context than was asked for. Exactly when:
    the request asks for less than the floor, is refused, and the floor can be served to some fewer users.
   */
  lemma NeverMoreThanAskedExactly(plan: Planner, ctx: nat, conc: nat, answer: Option<(RuntimePlan, seq<PlanChange>)>)
    requires Downward(plan) && FirstServed(plan, Attempts(ctx, conc), answer)
    ensures (exists c, n :: c > ctx && ServedAt(plan, ctx, conc, c, n, answer))
      <==> (ctx < MIN_DEGRADED_CONTEXT && !Offers(plan, ctx, conc) && conc > 1 && Offers(plan, MIN_DEGRADED_CONTEXT, 1))
  {
    var all := Attempts(ctx, conc);
    if ctx >= MIN_DEGRADED_CONTEXT {
      forall a | a in all ensures a.ctx <= ctx {
        var k :| 0 <= k < |all| && all[k] == a;
        AttemptAt(ctx, conc, k);
        if 0 < k <= |Rungs(ctx, MIN_DEGRADED_CONTEXT)| {
          RungsDescend(ctx, MIN_DEGRADED_CONTEXT, k - 1);
        }
      }
    } else if conc <= 1 {
      assert all == [Attempt(ctx, conc, [])];
    } else {
      BelowTheFloor(plan, ctx, conc, answer);
    }
  }

  lemma UnconcededIsAsAsked(ctx: nat, conc: nat)
    ensures forall a :: a in Attempts(ctx, conc) && a.given == [] ==> a == Attempt(ctx, conc, [])
  {
  }

  lemma BelowTheFloor(plan: Planner, ctx: nat, conc: nat, answer: Option<(RuntimePlan, seq<PlanChange>)>)
    requires Downward(plan) && FirstServed(plan, Attempts(ctx, conc), answer)
    requires ctx < MIN_DEGRADED_CONTEXT && conc > 1
    ensures (exists c, n :: c > ctx && ServedAt(plan, ctx, conc, c, n, answer))
      <==> !Offers(plan, ctx, conc) && Offers(plan, MIN_DEGRADED_CONTEXT, 1)
  {
    var all := Attempts(ctx, conc);
    var m := |all| - 1;
    assert m == |Rungs(conc, 1)|;
    RungsReachFloor(conc, 1);
    AttemptAt(ctx, conc, m);
    AttemptAt(ctx, conc, 0);
    assert all[m] in all;
    if answer.Some? {
      var k := Winner(plan, all, answer);
      AttemptAt(ctx, conc, k);
      if k == 0 {
        UnconcededIsAsAsked(ctx, conc);
      } else {
        assert !Offers(plan, ctx, conc);
        RungsHalve(conc, 1, k - 1);
        assert Offers(plan, all[k].ctx, all[k].conc);
        assert all[k].ctx > ctx && ServedAt(plan, ctx, conc, all[k].ctx, all[k].conc, answer);
      }
    }
  }

  // ------------------------------------------------------------------ arrival

  datatype Feasibility = Yes | Degraded(reason: string) | No(reason: string)
  datatype Runtime = Runtime(name: string, supports: Feasibility, plan: Planner)
  datatype Refusal = CannotServe(name: string, reason: string) | DoesNotFit(name: string)

  /** What a box carries, so far as arrival looks at it. */
  datatype Manifest = Manifest(plan: RuntimePlan, packedOn: HostClass, wantedCtx: nat, wantedConc: nat, benched: bool)

  datatype Arrival =
    | AsPacked(plan: RuntimePlan)
    | Resolved(plan: RuntimePlan, hostChanges: seq<HostChange>, planChanges: seq<PlanChange>, benchInvalidated: bool)
    | Unsupported(refusals: seq<Refusal>)

  /** `rt` turns the box away, and `refusal` says which way. */
  ghost predicate Refuses(rt: Runtime, m: Manifest, refusal: Refusal) {
    if rt.supports.No? then refusal == CannotServe(rt.name, rt.supports.reason)
    else refusal == DoesNotFit(rt.name) && FirstServed(rt.plan, Attempts(m.wantedCtx, m.wantedConc), None)
  }

  ghost predicate RefusedBy(runtimes: seq<Runtime>, m: Manifest, refusals: seq<Refusal>) {
    |refusals| == |runtimes| && forall i :: 0 <= i < |runtimes| ==> Refuses(runtimes[i], m, refusals[i])
  }

  /** `r` is what `rt` makes of the box, with every host change, plan change and concession named. */
  ghost predicate Serves(rt: Runtime, m: Manifest, here: HostClass, r: Arrival) {
    && r.Resolved?
    && !rt.supports.No?
    && (forall c :: c in r.hostChanges <==> IsChange(m.packedOn, here, c))
    && r.benchInvalidated == m.benched
    && exists given ::
      && FirstServed(rt.plan, Attempts(m.wantedCtx, m.wantedConc), Some((r.plan, given)))
      && forall c :: c in r.planChanges <==> c in given || IsPlanChange(m.plan, r.plan, c)
  }

  method OnArrival(m: Manifest, here: HostClass, runtimes: seq<Runtime>) returns (r: Arrival)
    ensures r.AsPacked? <==> Accepts(m.packedOn, here)
    ensures r.AsPacked? ==> r.plan == m.plan
    ensures r.Unsupported? ==> RefusedBy(runtimes, m, r.refusals)
    ensures r.Resolved? ==> exists i, refusals ::
      0 <= i < |runtimes| && RefusedBy(runtimes[..i], m, refusals) && Serves(runtimes[i], m, here, r)
  {
    if Accepts(m.packedOn, here) {
      return AsPacked(m.plan);
    }
    var hostChanges := Diff(m.packedOn, here);
    var refusals: seq<Refusal> := [];
    for i := 0 to |runtimes|
      invariant RefusedBy(runtimes[..i], m, refusals)
    {
      var rt := runtimes[i];
      if rt.supports.No? {
        refusals := refusals + [CannotServe(rt.name, rt.supports.reason)];
      } else {
        var answer, _ := ResolveHere(rt.plan, m.wantedCtx, m.wantedConc);
        if answer.Some? {
          var planChanges := PlanDiff(m.plan, answer.value.0);
          r := Resolved(answer.value.0, hostChanges, planChanges + answer.value.1, m.benched);
          assert answer == Some((r.plan, answer.value.1));
          assert Serves(rt, m, here, r);
          return;
        }
        refusals := refusals + [DoesNotFit(rt.name)];
      }
      assert runtimes[..i + 1] == runtimes[..i] + [rt];
    }
    assert runtimes[..|runtimes|] == runtimes;
    return Unsupported(refusals);
  }

  /** A re-solve is never silent: it always names what about the machine differs. */
  lemma ResolvedNamesADifference(rt: Runtime, m: Manifest, here: HostClass, r: Arrival)
    requires !Accepts(m.packedOn, here) && Serves(rt, m, here, r)
    ensures exists c :: c in r.hostChanges && !(c.MemoryChanged? && c.before < c.after)
  {
    AcceptsExactly(m.packedOn, here);
  }

  ghost predicate AllDownward(runtimes: seq<Runtime>) {
    forall rt :: rt in runtimes ==> Downward(rt.plan)
  }

  ghost predicate SomeoneCanServe(runtimes: seq<Runtime>) {
    exists rt :: rt in runtimes && !rt.supports.No? && Offers(rt.plan, MIN_DEGRADED_CONTEXT, 1)
  }

  /** Turned away by everyone exactly when nobody who supports the model could serve even the floor. */
  lemma UnsupportedExactly(m: Manifest, runtimes: seq<Runtime>)
    requires m.wantedCtx >= MIN_DEGRADED_CONTEXT && m.wantedConc >= 1
    requires AllDownward(runtimes)
    ensures (exists refusals :: RefusedBy(runtimes, m, refusals)) <==> !SomeoneCanServe(runtimes)
  {
    if refusals :| RefusedBy(runtimes, m, refusals) {
      forall rt | rt in runtimes && !rt.supports.No? ensures !Offers(rt.plan, MIN_DEGRADED_CONTEXT, 1) {
        var i :| 0 <= i < |runtimes| && runtimes[i] == rt;
        assert Refuses(runtimes[i], m, refusals[i]);
        RefusedExactlyAtTheFloor(rt.plan, m.wantedCtx, m.wantedConc, None);
      }
    }
    if !SomeoneCanServe(runtimes) {
      var refusals := seq(|runtimes|, i requires 0 <= i < |runtimes| =>
        if runtimes[i].supports.No? then CannotServe(runtimes[i].name, runtimes[i].supports.reason)
        else DoesNotFit(runtimes[i].name));
      forall i | 0 <= i < |runtimes| ensures Refuses(runtimes[i], m, refusals[i]) {
        var rt := runtimes[i];
        assert rt in runtimes;
        if !rt.supports.No? {
          FloorRefusedRefusesAll(rt.plan, m.wantedCtx, m.wantedConc);
        }
      }
      assert RefusedBy(runtimes, m, refusals);
    }
  }

  lemma FloorRefusedRefusesAll(plan: Planner, ctx: nat, conc: nat)
    requires Downward(plan) && ctx >= MIN_DEGRADED_CONTEXT && conc >= 1
    requires !Offers(plan, MIN_DEGRADED_CONTEXT, 1)
    ensures FirstServed(plan, Attempts(ctx, conc), None)
  {
    var all := Attempts(ctx, conc);
    forall a | a in all ensures !Offers(plan, a.ctx, a.conc) {
      var k :| 0 <= k < |all| && all[k] == a;
      AttemptAt(ctx, conc, k);
      var m := |Rungs(ctx, MIN_DEGRADED_CONTEXT)|;
      if 0 < k <= m {
        RungsHalve(ctx, MIN_DEGRADED_CONTEXT, k - 1);
      } else if m < k {
        RungsHalve(conc, 1, k - m - 1);
      }
    }
  }
}
