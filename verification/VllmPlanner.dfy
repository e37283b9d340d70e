/**
  The vLLM planner (SGLang and llm-d size with it): saturating 64-bit byte counts,
  the highest precision that fits. It meets the hypothesis the degradation ladder rests on.
 */
module VllmPlanner {
  import opened Wrappers
  import opened Pack
  import opened Arithmetic

  const OVERHEAD_FLOOR_BYTES: nat := 1_610_612_736

  /** A model, as far as sizing looks: billions of parameters, KV bytes per token, longest context. */
  datatype Model = Model(paramsB: real, kvBytesPerToken: nat, maxContext: nat)
  datatype Host = Host(accelerator: Accelerator, usableBytes: nat, devices: nat)
  datatype Quant = Quant(name: string, bits: real)

  const QUANTS: seq<Quant> := [Quant("fp8", 8.0), Quant("awq", 4.5), Quant("gptq", 4.0)]

  function Floored(x: real): nat
    requires x >= 0.0
  {
    x.Floor
  }

  /** Weights in bytes at `bits` per parameter; nothing for a non-positive size, capped at 64 bits. */
  function WeightBytes(m: Model, bits: real): nat {
    BytesOf(Parameters(m), bits)
  }

  function Parameters(m: Model): real {
    m.paramsB * 1000000000.0
  }

  function BytesOf(params: real, bits: real): nat {
    BytesFrom(params * bits / 8.0)
  }

  function BytesFrom(bytes: real): nat {
    if bytes <= 0.0 then 0 else Saturated(Floored(bytes))
  }

  function RequiredBytes(m: Model, bits: real, ctx: nat, seqs: nat): nat {
    var w := WeightBytes(m, bits);
    var kv := SatMul(SatMul(m.kvBytesPerToken, ctx), seqs);
    SatAdd(SatAdd(SatAdd(w, kv), Floored(w as real * 0.08)), OVERHEAD_FLOOR_BYTES)
  }

  function Supports(h: Host, m: Model): Feasibility {
    match h.accelerator
    case Apple => No("CUDA/ROCm only")
    case Cpu => Degraded("no accelerator")
    case _ => if WeightBytes(m, 4.0) > h.usableBytes then No("weights do not fit") else Yes
  }

  predicate Fits(h: Host, m: Model, q: Quant, ctx: nat, conc: nat) {
    RequiredBytes(m, q.bits, ctx, conc) <= h.usableBytes
  }

  function Shortest(a: nat, b: nat): nat { if a < b then a else b }

  /** Speculation pays up to 32 concurrent requests, with shorter drafts above 4. */
  function DraftFor(conc: nat): Option<Draft> {
    if conc > 32 then None else Some(Draft("eagle3", if conc <= 4 then 5 else 3))
  }

  /** The first quant of the list that fits. */
  method ChooseQuant(h: Host, m: Model, ctx: nat, conc: nat) returns (chosen: Option<Quant>)
    ensures chosen == FirstFitting(h, m, ctx, conc, QUANTS)
  {
    for i := 0 to |QUANTS|
      invariant FirstFitting(h, m, ctx, conc, QUANTS) == FirstFitting(h, m, ctx, conc, QUANTS[i..])
    {
      if Fits(h, m, QUANTS[i], ctx, conc) {
        return Some(QUANTS[i]);
      }
    }
    return None;
  }

  function FirstFitting(h: Host, m: Model, ctx: nat, conc: nat, quants: seq<Quant>): (r: Option<Quant>)
    ensures r.Some? ==> r.value in quants
  {
    if quants == [] then None
    else if Fits(h, m, quants[0], ctx, conc) then Some(quants[0])
    else FirstFitting(h, m, ctx, conc, quants[1..])
  }

  function Plan(h: Host, m: Model, cachePrefixes: bool, wantedCtx: nat, conc: nat): Option<RuntimePlan> {
    if Supports(h, m).No? then None else
    var ctx := Shortest(wantedCtx, m.maxContext);
    match FirstFitting(h, m, ctx, conc, QUANTS)
    case None => None
    case Some(q) => Some(RuntimePlan(q.name, q.bits, ctx, AtLeastOne(conc), AtLeastOne(h.devices),
                                     DraftFor(conc), cachePrefixes))
  }

  // ------------------------------------------------------------------ arithmetic

  lemma MulMonotone(a: nat, b: nat, c: nat, d: nat)
    requires a <= c && b <= d
    ensures a * b <= c * d
  {
    assert a * b <= c * b;
    assert c * b <= c * d;
  }

  lemma SatMulMonotone(a: nat, b: nat, c: nat, d: nat)
    requires a <= c && b <= d
    ensures SatMul(a, b) <= SatMul(c, d)
  {
    MulMonotone(a, b, c, d);
  }

  /** Saturating early and multiplying on loses nothing. */
  lemma SaturatedProduct(a: nat, b: nat, c: nat)
    ensures SatMul(SatMul(a, b), c) == Saturated(a * b * c)
  {
    var p := a * b;
    if p > U64_MAX && c > 0 {
      MulMonotone(p, 1, p, c);
      MulMonotone(U64_MAX, 1, U64_MAX, c);
    }
  }

  /** What the configuration truly needs, in unbounded integers. */
  function TrueBytes(m: Model, bits: real, ctx: nat, seqs: nat): nat {
    var w := WeightBytes(m, bits);
    w + m.kvBytesPerToken * ctx * seqs + Floored(w as real * 0.08) + OVERHEAD_FLOOR_BYTES
  }

  lemma RequiredIsSaturatedTruth(m: Model, bits: real, ctx: nat, seqs: nat)
    ensures RequiredBytes(m, bits, ctx, seqs) == Saturated(TrueBytes(m, bits, ctx, seqs))
  {
    SaturatedProduct(m.kvBytesPerToken, ctx, seqs);
  }

  /**
    An overflowed requirement reads as too big, exactly on machines that report less memory than
    the largest 64-bit count; one that reports that very count is said to fit everything.
   */
  lemma FitsTruthfullyExactly(h: Host)
    requires h.usableBytes <= U64_MAX
    ensures (forall m, q, ctx, conc :: Fits(h, m, q, ctx, conc) <==> TrueBytes(m, q.bits, ctx, conc) <= h.usableBytes)
      <==> h.usableBytes < U64_MAX
  {
    if h.usableBytes < U64_MAX {
      forall m, q: Quant, ctx, conc
        ensures Fits(h, m, q, ctx, conc) <==> TrueBytes(m, q.bits, ctx, conc) <= h.usableBytes
      {
        RequiredIsSaturatedTruth(m, q.bits, ctx, conc);
      }
    } else {
      var m, q := Model(0.0, U64_MAX, 2), Quant("fp8", 8.0);
      RequiredIsSaturatedTruth(m, q.bits, 1, 1);
      assert Fits(h, m, q, 1, 1) && TrueBytes(m, q.bits, 1, 1) > h.usableBytes;
    }
  }

  lemma RequiredMonotone(m: Model, bits: real, c: nat, n: nat, c': nat, n': nat)
    requires c' <= c && n' <= n
    ensures RequiredBytes(m, bits, c', n') <= RequiredBytes(m, bits, c, n)
  {
    SatMulMonotone(m.kvBytesPerToken, c', m.kvBytesPerToken, c);
    SatMulMonotone(SatMul(m.kvBytesPerToken, c'), n', SatMul(m.kvBytesPerToken, c), n);
  }

  lemma RealMulMonotone(a: real, x: real, y: real)
    requires 0.0 < x <= y
    ensures if a > 0.0 then 0.0 < a * x <= a * y else a * x <= 0.0 && a * y <= 0.0
  {
  }

  lemma BytesMonotone(a: real, b: real)
    requires a <= b
    ensures BytesFrom(a) <= BytesFrom(b)
  {
  }

  lemma EighthMonotone(a: real, b: real)
    requires a <= b
    ensures a / 8.0 <= b / 8.0
  {
  }

  lemma BytesAtMost(params: real, x: real, y: real)
    requires 0.0 < x <= y
    ensures BytesOf(params, x) <= BytesOf(params, y)
  {
    RealMulMonotone(params, x, y);
    if params > 0.0 {
      EighthMonotone(params * x, params * y);
      BytesMonotone(params * x / 8.0, params * y / 8.0);
    } else {
      EighthMonotone(params * x, 0.0);
    }
  }

  lemma WeightMonotone(m: Model, x: real, y: real)
    requires 0.0 < x <= y
    ensures WeightBytes(m, x) <= WeightBytes(m, y)
  {
    BytesAtMost(Parameters(m), x, y);
  }

  lemma RequiredMonotoneInBits(m: Model, x: real, y: real, ctx: nat, conc: nat)
    requires 0.0 < x <= y
    ensures WeightBytes(m, x) <= RequiredBytes(m, x, ctx, conc) || RequiredBytes(m, x, ctx, conc) == U64_MAX
    ensures RequiredBytes(m, x, ctx, conc) <= RequiredBytes(m, y, ctx, conc)
  {
    WeightMonotone(m, x, y);
    RequiredIsSaturatedTruth(m, x, ctx, conc);
    RequiredIsSaturatedTruth(m, y, ctx, conc);
  }

  // ------------------------------------------------------------------ what the planner promises

  ghost predicate HighestFirst(quants: seq<Quant>) {
    forall i, j :: 0 <= i < j < |quants| ==> quants[i].bits >= quants[j].bits
  }

  /** The quant chosen fits, and no quant of higher precision does; nothing is chosen when nothing fits. */
  lemma {:induction false} HighestPrecisionThatFits(h: Host, m: Model, ctx: nat, conc: nat, quants: seq<Quant>)
    requires HighestFirst(quants)
    ensures match FirstFitting(h, m, ctx, conc, quants)
      case Some(q) => q in quants && Fits(h, m, q, ctx, conc)
                      && forall p :: p in quants && Fits(h, m, p, ctx, conc) ==> p.bits <= q.bits
      case None => forall p :: p in quants ==> !Fits(h, m, p, ctx, conc)
  {
    if quants != [] {
      HighestPrecisionThatFits(h, m, ctx, conc, quants[1..]);
      assert quants == [quants[0]] + quants[1..];
    }
  }

  lemma SmallestNeedsLeast(m: Model, q: Quant, ctx: nat, conc: nat)
    requires q in QUANTS
    ensures RequiredBytes(m, 4.0, ctx, conc) <= RequiredBytes(m, q.bits, ctx, conc)
  {
    RequiredMonotoneInBits(m, 4.0, q.bits, ctx, conc);
  }

  lemma SomethingFitsExactly(h: Host, m: Model, ctx: nat, conc: nat)
    ensures FirstFitting(h, m, ctx, conc, QUANTS).Some? <==> Fits(h, m, Quant("gptq", 4.0), ctx, conc)
  {
    HighestPrecisionThatFits(h, m, ctx, conc, QUANTS);
    var r := FirstFitting(h, m, ctx, conc, QUANTS);
    if r.Some? {
      SmallestNeedsLeast(m, r.value, ctx, conc);
    } else {
      assert QUANTS[2] in QUANTS;
    }
  }

  /** A plan exists exactly when the engine can run here and the smallest quant fits. */
  lemma PlansExactly(h: Host, m: Model, cachePrefixes: bool, wantedCtx: nat, conc: nat)
    requires h.usableBytes < U64_MAX
    ensures Plan(h, m, cachePrefixes, wantedCtx, conc).Some? <==>
      !h.accelerator.Apple? && Fits(h, m, Quant("gptq", 4.0), Shortest(wantedCtx, m.maxContext), conc)
  {
    var ctx := Shortest(wantedCtx, m.maxContext);
    SomethingFitsExactly(h, m, ctx, conc);
    RequiredMonotoneInBits(m, 4.0, 4.0, ctx, conc);
  }

  function Engine(h: Host, m: Model, cachePrefixes: bool): Runtime {
    Runtime("vllm", Supports(h, m), (c: nat, n: nat) => Plan(h, m, cachePrefixes, c, n))
  }

  /** Whoever can be served can be served less: the ladder's hypothesis holds of the real planner. */
  lemma EngineIsDownward(h: Host, m: Model, cachePrefixes: bool)
    requires h.usableBytes < U64_MAX
    ensures Downward(Engine(h, m, cachePrefixes).plan)
  {
    var plan := Engine(h, m, cachePrefixes).plan;
    forall c, n, c', n' | c' <= c && n' <= n && Offers(plan, c, n) ensures Offers(plan, c', n') {
      PlansExactly(h, m, cachePrefixes, c, n);
      PlansExactly(h, m, cachePrefixes, c', n');
      RequiredMonotone(m, 4.0, Shortest(c, m.maxContext), n, Shortest(c', m.maxContext), n');
    }
  }

  /**
    A box that has to be re-solved for this engine is turned away exactly when 2048 tokens (or the model's
    whole context, if shorter) for one user do not fit at 4 bits, or the engine has no backend for the machine.
   */
  lemma TurnedAwayExactly(h: Host, m: Model, cachePrefixes: bool, box: Manifest)
    requires h.usableBytes < U64_MAX
    requires box.wantedCtx >= MIN_DEGRADED_CONTEXT && box.wantedConc >= 1
    ensures (exists refusals :: RefusedBy([Engine(h, m, cachePrefixes)], box, refusals)) <==>
      h.accelerator.Apple? || TrueBytes(m, 4.0, Shortest(2048, m.maxContext), 1) > h.usableBytes
  {
    var rt := Engine(h, m, cachePrefixes);
    EngineIsDownward(h, m, cachePrefixes);
    UnsupportedExactly(box, [rt]);
    PlansExactly(h, m, cachePrefixes, MIN_DEGRADED_CONTEXT, 1);
    RequiredIsSaturatedTruth(m, 4.0, Shortest(MIN_DEGRADED_CONTEXT, m.maxContext), 1);
    assert rt in [rt];
  }

  /** What every plan of this engine looks like: precision and draft follow from its label and its users. */
  lemma PlanShape(h: Host, m: Model, cachePrefixes: bool, ctx: nat, conc: nat)
    requires Plan(h, m, cachePrefixes, ctx, conc).Some?
    ensures var p := Plan(h, m, cachePrefixes, ctx, conc).value;
      && Quant(p.quant, p.bits) in QUANTS && p.draft == DraftFor(p.maxNumSeqs)
      && (p.quant, p.bits) in {("fp8", 8.0), ("awq", 4.5), ("gptq", 4.0)}
      && p.maxModelLen <= ctx && p.maxModelLen <= m.maxContext
      && (p.maxModelLen == ctx || p.maxModelLen == m.maxContext)
      && p.maxNumSeqs >= 1 && p.tensorParallel >= 1
      && (conc >= 1 ==> p.maxNumSeqs == conc) && (h.devices >= 1 ==> p.tensorParallel == h.devices)
      && p.prefixCaching == cachePrefixes
  {
    var q := FirstFitting(h, m, Shortest(ctx, m.maxContext), conc, QUANTS);
    assert Quant(q.value.name, q.value.bits) == q.value;
  }

  /** Speculation is on for up to 32 users, and its drafts are never longer for more users than for fewer:
      five tokens up to four, three from there. */
  lemma DraftsShrinkWithUsers(n: nat, more: nat)
    requires n <= more
    ensures DraftFor(n).Some? <==> n <= 32
    ensures DraftFor(more).Some? ==>
      DraftFor(n).Some? && DraftFor(more).value.tokens <= DraftFor(n).value.tokens
      && DraftFor(n).value.technique == DraftFor(more).value.technique
    ensures DraftFor(n).Some? && DraftFor(more).Some? ==>
      (DraftFor(more).value.tokens < DraftFor(n).value.tokens <==> n <= 4 < more)
    ensures DraftFor(4) == Some(Draft("eagle3", 5)) && DraftFor(5) == Some(Draft("eagle3", 3))
  {
  }

  /** A machine is turned away before sizing exactly when there is no backend for it, or it has an accelerator
      and not even the smallest weights fit; then no workload has a plan. */
  lemma TurnedAwayBeforeSizing(h: Host, m: Model, cachePrefixes: bool, ctx: nat, conc: nat)
    ensures Supports(h, m).No? <==>
      h.accelerator.Apple? || (!h.accelerator.Cpu? && WeightBytes(m, 4.0) > h.usableBytes)
    ensures Supports(h, m).Degraded? <==> h.accelerator.Cpu?
    ensures Supports(h, m).No? ==> Plan(h, m, cachePrefixes, ctx, conc).None?
  {
  }

  /** Two plans of this engine between which no change is reported are the same plan. */
  lemma SilenceMeansSamePlan(a: RuntimePlan, b: RuntimePlan)
    requires Quant(a.quant, a.bits) in QUANTS && a.draft == DraftFor(a.maxNumSeqs)
    requires Quant(b.quant, b.bits) in QUANTS && b.draft == DraftFor(b.maxNumSeqs)
    ensures (forall x :: !IsPlanChange(a, b, x)) <==> a == b
  {
    SilentExactly(a, b);
    QuantNamesAreDistinct();
  }

  lemma QuantNamesAreDistinct()
    ensures forall p, q :: p in QUANTS && q in QUANTS && p.name == q.name ==> p == q
  {
    assert "fp8"[0] != "awq"[0] && "fp8"[0] != "gptq"[0] && "awq"[0] != "gptq"[0];
  }
}
