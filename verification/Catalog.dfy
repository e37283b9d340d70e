/** Model geometry as the catalogue holds it, and the byte counts sizing rests on. */
module Catalog {
  import opened Wrappers

  datatype Quant = Fp16 | Bf16 | Fp8 | Q8 | Q6 | Q5 | Q4 | Q3

  function Bits(q: Quant): real {
    match q
    case Fp16 => 16.0
    case Bf16 => 16.0
    case Fp8 => 8.0
    case Q8 => 8.0
    case Q6 => 6.0
    case Q5 => 5.0
    case Q4 => 4.5
    case Q3 => 3.5
  }

  datatype KvScheme = Mha | Gqa | Mla

  datatype ModelSpec = ModelSpec(
    id: string, paramsB: real, activeB: real, layers: int, kvHeads: int, headDim: int,
    kvScheme: KvScheme, maxContext: int, quants: seq<Quant>, kvLoraRank: Option<int>)
  {
    /** What loading the catalogue refuses to go without. */
    predicate Valid() {
      && paramsB > 0.0 && activeB > 0.0 && layers > 0 && kvHeads > 0 && headDim > 0 && maxContext > 0
      && quants != []
      && (kvLoraRank.Some? ==> kvLoraRank.value > 0)
      && (kvScheme.Mla? ==> kvLoraRank.Some?)
    }

    predicate IsMoe() {
      activeB < paramsB * 0.95
    }

    /** Every expert is resident, whatever is active. */
    function WeightBytes(q: Quant): int {
      Truncated(paramsB * 1000000000.0 * Bits(q) / 8.0)
    }

    function KvBytesPerToken(): int {
      var perLayer := if kvScheme.Mla? && kvLoraRank.Some? && kvLoraRank.value != 0 then kvLoraRank.value
                      else 2 * kvHeads * headDim;
      perLayer * layers * 2
    }

    /** Bytes of weights one decoded token of one stream reads. */
    function ActiveBytes(q: Quant): real {
      activeB * 1000000000.0 * Bits(q) / 8.0
    }
  }

  /** Towards zero, as converting to an integer does. */
  function Truncated(x: real): int {
    if x >= 0.0 then x.Floor else -((-x).Floor)
  }

  lemma Positive(a: int, b: int)
    requires a > 0 && b > 0
    ensures a * b > 0
  {
  }

  lemma KvIsPositive(m: ModelSpec)
    requires m.Valid()
    ensures m.KvBytesPerToken() > 0
  {
    Positive(m.kvHeads, m.headDim);
    if m.kvScheme.Mla? {
      Positive(m.kvLoraRank.value, m.layers);
    } else {
      Positive(2 * m.kvHeads * m.headDim, m.layers);
    }
  }

  /** Keys and values, two bytes each, for every head, dimension and layer. */
  lemma KvPerHeadDimensionAndLayer(m: ModelSpec)
    requires m.Valid() && !m.kvScheme.Mla?
    ensures m.KvBytesPerToken() == (2 + 2) * (m.kvHeads * m.headDim * m.layers)
  {
    Regroup(m.kvHeads, m.headDim, m.layers);
  }

  lemma Regroup(a: int, b: int, c: int)
    ensures 2 * a * b * c * 2 == 4 * (a * b * c)
  {
  }

  /** A compressed latent takes the place of all heads' keys and values: sizes are in the ratio of its rank to
      their number. */
  lemma LatentIsSmallerByItsRank(m: ModelSpec)
    requires m.Valid() && m.kvScheme.Mla?
    ensures m.KvBytesPerToken() == 2 * (m.kvLoraRank.value * m.layers)
    ensures m.KvBytesPerToken() * (2 * m.kvHeads * m.headDim) ==
            m.kvLoraRank.value * m.(kvScheme := Gqa).KvBytesPerToken()
  {
    Crosswise(m.kvLoraRank.value, m.layers, 2 * m.kvHeads * m.headDim);
  }

  lemma Crosswise(rank: int, layers: int, perHead: int)
    ensures (rank * layers * 2) * perHead == rank * (perHead * layers * 2)
    ensures rank * layers * 2 == 2 * (rank * layers)
  {
  }

  /** What a billion parameters weigh at each precision, in bytes. */
  lemma BytesPerBillion(m: ModelSpec)
    requires m.paramsB == 1.0
    ensures m.WeightBytes(Fp16) == m.WeightBytes(Bf16) == 2_000_000_000
    ensures m.WeightBytes(Fp8) == m.WeightBytes(Q8) == 1_000_000_000
    ensures m.WeightBytes(Q6) == 750_000_000 && m.WeightBytes(Q5) == 625_000_000
    ensures m.WeightBytes(Q4) == 562_500_000 && m.WeightBytes(Q3) == 437_500_000
  {
  }

  lemma Scale(p: real, x: real, y: real)
    requires p > 0.0 && x <= y
    ensures p * x / 8.0 <= p * y / 8.0
  {
    assert p * x <= p * y;
  }

  lemma TruncatedMonotone(x: real, y: real)
    requires 0.0 <= x <= y
    ensures 0 <= Truncated(x) <= Truncated(y)
  {
  }

  /** More bits never make a model smaller. */
  lemma WeightsGrowWithBits(m: ModelSpec, p: Quant, q: Quant)
    requires m.paramsB > 0.0 && Bits(p) <= Bits(q)
    ensures 0 <= m.WeightBytes(p) <= m.WeightBytes(q)
  {
    var params := m.paramsB * 1000000000.0;
    Scale(params, 0.0, Bits(p));
    Scale(params, Bits(p), Bits(q));
    TruncatedMonotone(params * Bits(p) / 8.0, params * Bits(q) / 8.0);
  }
}
