/** The two sizing solvers of the system, the command line's and the runtime planner's, give one answer. */
module SizingAgreement {
  import opened Arithmetic
  import opened Catalog
  import FitSolver
  import VllmPlanner

  /** A catalogue model as the planner sees it. */
  function Planned(m: ModelSpec): VllmPlanner.Model
    requires m.Valid()
  {
    KvIsPositive(m);
    VllmPlanner.Model(m.paramsB, m.KvBytesPerToken(), m.maxContext)
  }

  lemma WeighsSomething(m: ModelSpec, q: Quant)
    requires m.paramsB > 0.0
    ensures m.paramsB * 1000000000.0 * Bits(q) / 8.0 > 0.0
  {
    VllmPlanner.RealMulMonotone(m.paramsB * 1000000000.0, Bits(q), Bits(q));
  }

  /** Weights agree, up to the planner's 64-bit cap. */
  lemma WeightsAgree(m: ModelSpec, q: Quant)
    requires m.Valid()
    ensures 0 <= m.WeightBytes(q) && VllmPlanner.WeightBytes(Planned(m), Bits(q)) == Saturated(m.WeightBytes(q))
  {
    WeighsSomething(m, q);
    var bytes := m.paramsB * 1000000000.0 * Bits(q) / 8.0;
    assert m.WeightBytes(q) == Truncated(bytes) == bytes.Floor;
    assert VllmPlanner.WeightBytes(Planned(m), Bits(q)) == VllmPlanner.BytesFrom(bytes);
  }

  /** A whole number of bytes on top moves the floor by as much. */
  lemma FloorMoves(x: real, k: int)
    ensures (x + k as real).Floor == x.Floor + k
  {
  }

  lemma OverheadAgrees(w: nat)
    ensures FitSolver.Overhead(w) == VllmPlanner.Floored(w as real * 0.08) + VllmPlanner.OVERHEAD_FLOOR_BYTES
  {
    FloorMoves(w as real * 0.08, 1610612736);
  }

  /** Unless the weights alone pass 64 bits, both solvers come to the same number of bytes. */
  lemma TotalsAgree(m: ModelSpec, q: Quant, hw: FitSolver.Hardware, context: nat, concurrency: nat)
    requires m.Valid() && context >= 1 && concurrency >= 1 && m.WeightBytes(q) <= U64_MAX
    ensures FitSolver.Solve(m, q, hw, context, concurrency).fit.TotalBytes() ==
            VllmPlanner.TrueBytes(Planned(m), Bits(q), context, concurrency)
  {
    WeightsAgree(m, q);
    OverheadAgrees(m.WeightBytes(q));
  }

  /** Both solvers find the same workloads feasible, at every precision, on every machine with less memory than
      the largest 64-bit count. */
  lemma FeasibilityAgrees(m: ModelSpec, q: Quant, quant: VllmPlanner.Quant, hw: FitSolver.Hardware,
                          h: VllmPlanner.Host, context: nat, concurrency: nat)
    requires m.Valid() && context >= 1 && concurrency >= 1
    requires quant.bits == Bits(q) && hw.usableBytes == h.usableBytes < U64_MAX
    ensures FitSolver.Fits(m, q, hw, context, concurrency) <==>
            VllmPlanner.Fits(h, Planned(m), quant, context, concurrency)
  {
    WeightsAgree(m, q);
    VllmPlanner.RequiredIsSaturatedTruth(Planned(m), Bits(q), context, concurrency);
    if m.WeightBytes(q) <= U64_MAX {
      TotalsAgree(m, q, hw, context, concurrency);
    } else {
      TooHeavy(m, q, hw, context, concurrency);
      assert VllmPlanner.TrueBytes(Planned(m), Bits(q), context, concurrency) >= U64_MAX;
    }
  }

  lemma TooHeavy(m: ModelSpec, q: Quant, hw: FitSolver.Hardware, context: nat, concurrency: nat)
    requires m.Valid() && context >= 1 && concurrency >= 1
    requires m.WeightBytes(q) > U64_MAX > hw.usableBytes
    ensures !FitSolver.Fits(m, q, hw, context, concurrency)
  {
    KvIsPositive(m);
    Positive(m.KvBytesPerToken(), context);
    Positive(m.KvBytesPerToken() * context, concurrency);
    FitSolver.OverheadGrows(m.WeightBytes(q), m.WeightBytes(q));
  }
}
