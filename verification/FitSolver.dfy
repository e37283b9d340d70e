/** The size of a deployment: memory, the two inverse bounds, and throughput. */
module FitSolver {
  import opened Wrappers
  import opened Catalog
  import opened Arithmetic

  const OVERHEAD_FLOOR: real := 1610612736.0
  const OVERHEAD_FRACTION: real := 0.08
  const BANDWIDTH_EFFICIENCY: real := 0.72

  datatype Hardware = Hardware(usableBytes: int, bandwidthGbps: Option<real>)

  datatype Fit = Fit(
    model: ModelSpec, quant: Quant, context: int, concurrency: int,
    weightBytes: int, kvBytes: int, overheadBytes: int, usableBytes: int,
    tokensPerSec: Option<real>, effectiveBw: Option<real>)
  {
    function TotalBytes(): int { weightBytes + kvBytes + overheadBytes }
    predicate Feasible() { TotalBytes() <= usableBytes }

    /** The rate of the batch as a whole, in tokens per second. */
    function Aggregate(): Option<real> {
      if effectiveBw.None? || concurrency < 1 || model.ActiveBytes(quant) <= 0.0 then None
      else Some(Rate(concurrency as real, effectiveBw.value, model.ActiveBytes(quant), KvRead(model, context)))
    }

    /** The largest weight read the batch could need, relative to the one assumed. */
    function MoeBatchOptimism(): Option<real> {
      if !model.IsMoe() || concurrency < 2 || model.activeB <= 0.0 || model.paramsB <= model.activeB then None
      else Some(Least(model.paramsB, concurrency as real * model.activeB) / model.activeB)
    }
  }

  /** Tokens per second of a batch of `b` whose steps read `w` bytes of weights and `kv` of cache per sequence. */
  function Rate(b: real, bw: real, w: real, kv: real): real {
    if w + b * kv == 0.0 then 0.0 else b * bw / (w + b * kv)
  }

  /** Cache bytes one token of one stream reads. */
  function KvRead(m: ModelSpec, context: int): real {
    (m.KvBytesPerToken() * context) as real
  }

  datatype Solved = Sized(fit: Fit) | BadConcurrency(concurrency: int) | BadContext(context: int)

  function Least(a: real, b: real): real { if a < b then a else b }

  function Overhead(weightBytes: int): int {
    Truncated(weightBytes as real * OVERHEAD_FRACTION + OVERHEAD_FLOOR)
  }

  function Solve(m: ModelSpec, q: Quant, hw: Hardware, context: int, concurrency: int): Solved {
    if concurrency < 1 then BadConcurrency(concurrency)
    else if context < 1 then BadContext(context)
    else
      var w := m.WeightBytes(q);
      var kv := m.KvBytesPerToken() * context * concurrency;
      var read := m.ActiveBytes(q) + KvRead(m, context);
      var bw := if hw.bandwidthGbps.Some? && hw.bandwidthGbps.value != 0.0 && read != 0.0
                then Some(hw.bandwidthGbps.value * 1000000000.0 * BANDWIDTH_EFFICIENCY) else None;
      Sized(Fit(m, q, context, concurrency, w, kv, Overhead(w), hw.usableBytes,
                if bw.Some? then Some(bw.value / read) else None, bw))
  }

  /** Memory left for the KV cache. */
  function Spare(m: ModelSpec, q: Quant, hw: Hardware): int {
    hw.usableBytes - m.WeightBytes(q) - Overhead(m.WeightBytes(q))
  }

  function MaxContext(m: ModelSpec, q: Quant, hw: Hardware, concurrency: int): int
    requires m.Valid()
  {
    if Spare(m, q, hw) <= 0 then 0 else
    KvIsPositive(m);
    Positive(m.KvBytesPerToken(), AtLeastOne(concurrency));
    var fits := Spare(m, q, hw) / (m.KvBytesPerToken() * AtLeastOne(concurrency));
    if fits < m.maxContext then fits else m.maxContext
  }

  function MaxConcurrency(m: ModelSpec, q: Quant, hw: Hardware, context: int): int
    requires m.Valid()
  {
    if Spare(m, q, hw) <= 0 then 0 else
    KvIsPositive(m);
    Positive(m.KvBytesPerToken(), AtLeastOne(context));
    Spare(m, q, hw) / (m.KvBytesPerToken() * AtLeastOne(context))
  }

  predicate Fits(m: ModelSpec, q: Quant, hw: Hardware, context: int, concurrency: int) {
    var s := Solve(m, q, hw, context, concurrency);
    s.Sized? && s.fit.Feasible()
  }

  // ------------------------------------------------------------------ the two bounds are exact inverses

  lemma DivisionIsExact(a: int, b: int, c: int)
    requires b > 0
    ensures a <= c / b <==> a * b <= c
  {
    var d := c / b;
    assert d * b <= c < (d + 1) * b;
    if a <= d {
      assert a * b <= d * b;
    } else {
      assert a * b >= (d + 1) * b;
    }
  }

  /** The three factors of the cache, in any grouping. */
  lemma Regroup(kv: int, context: int, concurrency: int)
    ensures kv * context * concurrency == context * (kv * concurrency) == concurrency * (kv * context)
  {
  }

  lemma FitsWhenKvFits(m: ModelSpec, q: Quant, hw: Hardware, context: int, concurrency: int)
    requires context >= 1 && concurrency >= 1
    ensures Fits(m, q, hw, context, concurrency) <==>
      context * (m.KvBytesPerToken() * concurrency) <= Spare(m, q, hw)
  {
    Regroup(m.KvBytesPerToken(), context, concurrency);
  }

  /** A context is within the bound exactly when the model allows it and the solver finds it feasible. */
  lemma ContextBoundIsExact(m: ModelSpec, q: Quant, hw: Hardware, context: int, concurrency: int)
    requires m.Valid() && context >= 1 && concurrency >= 1
    ensures context <= MaxContext(m, q, hw, concurrency) <==>
      context <= m.maxContext && Fits(m, q, hw, context, concurrency)
  {
    KvIsPositive(m);
    Positive(m.KvBytesPerToken(), concurrency);
    Positive(context, m.KvBytesPerToken() * concurrency);
    FitsWhenKvFits(m, q, hw, context, concurrency);
    DivisionIsExact(context, m.KvBytesPerToken() * concurrency, Spare(m, q, hw));
  }

  /** A batch is within the bound exactly when the solver finds it feasible. */
  lemma ConcurrencyBoundIsExact(m: ModelSpec, q: Quant, hw: Hardware, context: int, concurrency: int)
    requires m.Valid() && context >= 1 && concurrency >= 1
    ensures concurrency <= MaxConcurrency(m, q, hw, context) <==> Fits(m, q, hw, context, concurrency)
  {
    KvIsPositive(m);
    Positive(m.KvBytesPerToken(), context);
    Positive(concurrency, m.KvBytesPerToken() * context);
    FitsWhenKvFits(m, q, hw, context, concurrency);
    Regroup(m.KvBytesPerToken(), context, concurrency);
    DivisionIsExact(concurrency, m.KvBytesPerToken() * context, Spare(m, q, hw));
  }

  /** The two bounds form a Galois connection, up to the model's own limit. */
  lemma BoundsAreAdjoint(m: ModelSpec, q: Quant, hw: Hardware, context: int, concurrency: int)
    requires m.Valid() && context >= 1 && concurrency >= 1
    ensures context <= MaxContext(m, q, hw, concurrency) <==>
      context <= m.maxContext && concurrency <= MaxConcurrency(m, q, hw, context)
  {
    ContextBoundIsExact(m, q, hw, context, concurrency);
    ConcurrencyBoundIsExact(m, q, hw, context, concurrency);
  }

  /** Both bounds are attained, and one more of either does not fit. */
  lemma BoundsAreTight(m: ModelSpec, q: Quant, hw: Hardware, context: int, concurrency: int)
    requires m.Valid() && context >= 1 && concurrency >= 1
    ensures var c := MaxContext(m, q, hw, concurrency);
      0 <= c <= m.maxContext && (c >= 1 ==> Fits(m, q, hw, c, concurrency))
      && (c < m.maxContext ==> !Fits(m, q, hw, c + 1, concurrency))
    ensures var n := MaxConcurrency(m, q, hw, context);
      0 <= n && (n >= 1 ==> Fits(m, q, hw, context, n)) && !Fits(m, q, hw, context, n + 1)
  {
    KvIsPositive(m);
    Positive(m.KvBytesPerToken(), concurrency);
    Positive(m.KvBytesPerToken(), context);
    DivisionIsExact(0, m.KvBytesPerToken() * concurrency, if Spare(m, q, hw) < 0 then 0 else Spare(m, q, hw));
    DivisionIsExact(0, m.KvBytesPerToken() * context, if Spare(m, q, hw) < 0 then 0 else Spare(m, q, hw));
    var c, n := MaxContext(m, q, hw, concurrency), MaxConcurrency(m, q, hw, context);
    if c >= 1 { ContextBoundIsExact(m, q, hw, c, concurrency); }
    ContextBoundIsExact(m, q, hw, c + 1, concurrency);
    if n >= 1 { ConcurrencyBoundIsExact(m, q, hw, context, n); }
    ConcurrencyBoundIsExact(m, q, hw, context, n + 1);
  }

  /** Whatever fits at some precision fits with less of everything: precision, context, batch. */
  lemma FittingIsDownward(m: ModelSpec, p: Quant, q: Quant, hw: Hardware, c: int, n: int, c': int, n': int)
    requires m.Valid() && Bits(p) <= Bits(q) && 1 <= c' <= c && 1 <= n' <= n
    requires Fits(m, q, hw, c, n)
    ensures Fits(m, p, hw, c', n')
  {
    KvIsPositive(m);
    WeightsGrowWithBits(m, p, q);
    OverheadGrows(m.WeightBytes(p), m.WeightBytes(q));
    FitsWhenKvFits(m, q, hw, c, n);
    FitsWhenKvFits(m, p, hw, c', n');
    Grows(m.KvBytesPerToken(), n', n);
    Positive(m.KvBytesPerToken(), n');
    Grows(m.KvBytesPerToken() * n', c', c);
    Grows(c, m.KvBytesPerToken() * n', m.KvBytesPerToken() * n);
  }

  lemma Grows(a: int, x: int, y: int)
    requires a >= 0 && x <= y
    ensures a * x <= a * y
  {
  }

  lemma OverheadGrows(a: int, b: int)
    requires 0 <= a <= b
    ensures 0 < Overhead(a) <= Overhead(b)
  {
    TruncatedMonotone(a as real * OVERHEAD_FRACTION + OVERHEAD_FLOOR, b as real * OVERHEAD_FRACTION + OVERHEAD_FLOOR);
  }

  // ------------------------------------------------------------------ throughput

  lemma NonNegative(a: real, b: real)
    requires a >= 0.0 && b >= 0.0
    ensures a * b >= 0.0
  {
  }

  lemma QuotientBelow(a: real, b: real, c: real, d: real)
    requires b > 0.0 && d > 0.0
    ensures a * d < c * b ==> a / b < c / d
    ensures a * d <= c * b ==> a / b <= c / d
  {
    var x, y := a / b, c / d;
    assert a == x * b && c == y * d;
    assert a * d == x * (b * d) && c * b == y * (b * d);
    assert b * d > 0.0;
    if x > y { StrictlyScaled(b * d, y, x); }
    if x == y { assert a * d == c * b; }
  }

  lemma StrictlyScaled(a: real, x: real, y: real)
    requires a > 0.0 && x < y
    ensures a * x < a * y
  {
  }

  /** Throughput strictly grows with the batch. */
  lemma RateGrows(b: real, b': real, bw: real, w: real, kv: real)
    requires 0.0 < b < b' && bw > 0.0 && w > 0.0 && kv >= 0.0
    ensures Rate(b, bw, w, kv) < Rate(b', bw, w, kv)
  {
    NonNegative(b, kv);
    NonNegative(b', kv);
    var d, d' := w + b * kv, w + b' * kv;
    assert b' * d - b * d' == w * (b' - b);
    StrictlyScaled(w, 0.0, b' - b);
    StrictlyScaled(bw, b * d', b' * d);
    assert b * bw * d' == bw * (b * d') && b' * bw * d == bw * (b' * d);
    QuotientBelow(b * bw, d, b' * bw, d');
  }

  /** Throughput never reaches the bandwidth over one sequence's cache. */
  lemma RateIsBounded(b: real, bw: real, w: real, kv: real)
    requires b > 0.0 && bw > 0.0 && w > 0.0 && kv > 0.0
    ensures Rate(b, bw, w, kv) < bw / kv
  {
    NonNegative(b, kv);
    StrictlyScaled(bw, 0.0, w);
    assert bw * (w + b * kv) == bw * w + b * bw * kv;
    QuotientBelow(b * bw, w + b * kv, bw, kv);
  }

  /** Dividing the same work by a divisor between `d` and `s * d` costs at most a factor `s`. */
  lemma SlowerByAtMost(n: real, d: real, d': real, s: real, r: real, r': real, y: real)
    requires n > 0.0 && 0.0 < d <= d' <= s * d && s >= 1.0
    requires r * d == n && r' * d' == n && y * s == r
    ensures y <= r' <= r
  {
    if r < r' {
      PositiveFactor(r, d, n);
      GrowsReal(r, d, d');
      StrictlyScaled(d', r, r');
    }
    PositiveFactor(r', d', n);
    assert (y * s) * d == y * (s * d);
    if r' < y {
      GrowsReal(y, d', s * d);
      StrictlyScaled(d', r', y);
    }
  }

  lemma PositiveFactor(r: real, d: real, n: real)
    requires d > 0.0 && n > 0.0 && r * d == n
    ensures r > 0.0
  {
    if r <= 0.0 { GrowsReal(d, r, 0.0); }
  }

  lemma SpreadCovers(w: real, w': real, k: real, s: real)
    requires w' <= s * w && k >= 0.0 && s >= 1.0
    ensures w' + k <= s * (w + k)
  {
    GrowsReal(k, 1.0, s);
    assert s * (w + k) == s * w + s * k;
  }

  /** The true figure is no higher than the one quoted, and no lower than it over `spread`. */
  predicate Within(truth: real, quoted: real, spread: real) {
    spread >= 1.0 && quoted / spread <= truth <= quoted
  }

  /** Reading more weights slows a step down, but by no more than the ratio of the reads. */
  lemma RateBand(b: real, bw: real, w: real, w': real, kv: real, spread: real)
    requires b > 0.0 && bw > 0.0 && 0.0 < w <= w' <= spread * w && kv >= 0.0 && spread >= 1.0
    ensures Within(Rate(b, bw, w', kv), Rate(b, bw, w, kv), spread)
  {
    NonNegative(b, kv);
    StrictlyScaled(b, 0.0, bw);
    SpreadCovers(w, w', b * kv, spread);
    SlowerByAtMost(b * bw, w + b * kv, w' + b * kv, spread,
                   Rate(b, bw, w, kv), Rate(b, bw, w', kv), Rate(b, bw, w, kv) / spread);
  }

  lemma GrowsReal(a: real, x: real, y: real)
    requires a >= 0.0 && x <= y
    ensures a * x <= a * y
  {
  }

  /** The fit's own numbers: a valid model on a machine of known bandwidth. */
  ghost predicate Streams(m: ModelSpec, hw: Hardware) {
    m.Valid() && hw.bandwidthGbps.Some? && hw.bandwidthGbps.value > 0.0
  }

  function Bandwidth(hw: Hardware): real {
    if hw.bandwidthGbps.Some? then hw.bandwidthGbps.value * 1000000000.0 * BANDWIDTH_EFFICIENCY else 0.0
  }

  lemma ReadsArePositive(m: ModelSpec, q: Quant, context: int)
    requires m.Valid() && context >= 1
    ensures m.ActiveBytes(q) > 0.0 && KvRead(m, context) > 0.0
  {
    KvIsPositive(m);
    Positive(m.KvBytesPerToken(), context);
    StrictlyScaled(m.activeB * 1000000000.0, 0.0, Bits(q));
  }

  lemma RateOfOne(bw: real, w: real, kv: real)
    requires w + kv != 0.0
    ensures Rate(1.0, bw, w, kv) == bw / (w + kv)
  {
  }

  /** The aggregate figure is the batched rate at the active weights; the single-stream figure is the same at one. */
  lemma AggregateIsTheRate(m: ModelSpec, q: Quant, hw: Hardware, context: int, concurrency: int)
    requires Streams(m, hw) && context >= 1 && concurrency >= 1
    ensures m.ActiveBytes(q) > 0.0 && KvRead(m, context) > 0.0
    ensures var f := Solve(m, q, hw, context, concurrency).fit;
      && f.Aggregate() == Some(Rate(concurrency as real, Bandwidth(hw), m.ActiveBytes(q), KvRead(m, context)))
      && f.tokensPerSec == Some(Rate(1.0, Bandwidth(hw), m.ActiveBytes(q), KvRead(m, context)))
  {
    ReadsArePositive(m, q, context);
    RateOfOne(Bandwidth(hw), m.ActiveBytes(q), KvRead(m, context));
  }

  function AggregateAt(m: ModelSpec, q: Quant, hw: Hardware, context: int, concurrency: int): real
    requires context >= 1 && concurrency >= 1
  {
    var a := Solve(m, q, hw, context, concurrency).fit.Aggregate();
    if a.Some? then a.value else 0.0
  }

  /** At batch one it is the single-stream figure; it strictly grows, below the bandwidth over one cache. */
  lemma ThroughputShape(m: ModelSpec, q: Quant, hw: Hardware, context: int, n: int, n': int)
    requires Streams(m, hw) && context >= 1 && 1 <= n < n'
    ensures Solve(m, q, hw, context, n).fit.tokensPerSec == Some(AggregateAt(m, q, hw, context, 1))
    ensures AggregateAt(m, q, hw, context, n) < AggregateAt(m, q, hw, context, n')
    ensures KvRead(m, context) > 0.0
    ensures AggregateAt(m, q, hw, context, n') < Bandwidth(hw) / KvRead(m, context)
  {
    AggregateIsTheRate(m, q, hw, context, 1);
    AggregateIsTheRate(m, q, hw, context, n);
    AggregateIsTheRate(m, q, hw, context, n');
    RateGrows(n as real, n' as real, Bandwidth(hw), m.ActiveBytes(q), KvRead(m, context));
    RateIsBounded(n' as real, Bandwidth(hw), m.ActiveBytes(q), KvRead(m, context));
  }

  /** Bytes of weights a step reads when it touches `paramsB` billion parameters. */
  function WeightRead(paramsB: real, q: Quant): real {
    paramsB * 1000000000.0 * Bits(q) / 8.0
  }

  function Unit(q: Quant): real { 1000000000.0 * Bits(q) / 8.0 }

  lemma WeightReadIsLinear(x: real, q: Quant)
    ensures WeightRead(x, q) == Unit(q) * x && Unit(q) > 0.0
  {
  }

  /** The ratio of the largest to the smallest weight read. */
  function Spread(m: ModelSpec, n: int): real
    requires m.activeB > 0.0
  {
    Least(m.paramsB, n as real * m.activeB) / m.activeB
  }

  lemma Cancel(a: real, x: real, y: real)
    requires a > 0.0 && x * a <= y * a
    ensures x <= y
  {
    if y < x { StrictlyScaled(a, y, x); }
  }

  lemma ScaledCover(unit: real, a: real, t: real, s: real)
    requires unit > 0.0 && 0.0 < a <= t <= s * a
    ensures s >= 1.0 && 0.0 < unit * a <= unit * t <= s * (unit * a)
  {
    Cancel(a, 1.0, s);
    StrictlyScaled(unit, 0.0, a);
    GrowsReal(unit, a, t);
    GrowsReal(unit, t, s * a);
    assert unit * (s * a) == s * (unit * a);
  }

  lemma SpreadCoversReads(m: ModelSpec, q: Quant, n: int, touched: real)
    requires m.activeB > 0.0 && m.activeB <= touched <= Least(m.paramsB, n as real * m.activeB)
    ensures Spread(m, n) >= 1.0
    ensures 0.0 < m.ActiveBytes(q) <= WeightRead(touched, q) <= Spread(m, n) * m.ActiveBytes(q)
  {
    WeightReadIsLinear(m.activeB, q);
    WeightReadIsLinear(touched, q);
    ScaledCover(Unit(q), m.activeB, touched, Spread(m, n));
    assert m.ActiveBytes(q) == WeightRead(m.activeB, q);
  }

  /** However the router spreads a batch over the experts, the true rate is within the spread of the figure. */
  lemma TrueRateBand(m: ModelSpec, q: Quant, hw: Hardware, context: int, n: int, touched: real)
    requires Streams(m, hw) && context >= 1 && n >= 1
    requires m.activeB <= touched <= Least(m.paramsB, n as real * m.activeB)
    ensures Within(Rate(n as real, Bandwidth(hw), WeightRead(touched, q), KvRead(m, context)),
                   AggregateAt(m, q, hw, context, n), Spread(m, n))
  {
    BandPremisesHold(m, q, hw, context, n, touched);
    RateBandHere(n as real, Bandwidth(hw), m.ActiveBytes(q), WeightRead(touched, q), KvRead(m, context), Spread(m, n),
                 AggregateAt(m, q, hw, context, n));
  }

  predicate BandPremises(b: real, bw: real, w: real, w': real, kv: real, spread: real, quoted: real) {
    && b > 0.0 && bw > 0.0 && 0.0 < w <= w' <= spread * w && kv >= 0.0 && spread >= 1.0
    && quoted == Rate(b, bw, w, kv)
  }

  lemma RateBandHere(b: real, bw: real, w: real, w': real, kv: real, spread: real, quoted: real)
    requires BandPremises(b, bw, w, w', kv, spread, quoted)
    ensures Within(Rate(b, bw, w', kv), quoted, spread)
  {
    RateBand(b, bw, w, w', kv, spread);
  }

  lemma BandPremisesHold(m: ModelSpec, q: Quant, hw: Hardware, context: int, n: int, touched: real)
    requires Streams(m, hw) && context >= 1 && n >= 1
    requires m.activeB <= touched <= Least(m.paramsB, n as real * m.activeB)
    ensures BandPremises(n as real, Bandwidth(hw), m.ActiveBytes(q), WeightRead(touched, q), KvRead(m, context),
                         Spread(m, n), AggregateAt(m, q, hw, context, n))
  {
    AggregateIsTheRate(m, q, hw, context, n);
    SpreadCoversReads(m, q, n, touched);
  }

  lemma AboveOne(active: real, most: real, s: real)
    requires active > 0.0 && s * active == most && most > active
    ensures s > 1.0
  {
    if s <= 1.0 { GrowsReal(active, s, 1.0); }
  }

  lemma AtMost(active: real, most: real, s: real, f: real)
    requires active > 0.0 && s * active == most && f * most <= active
    ensures f * s <= 1.0
  {
    assert (f * s) * active == f * (s * active);
    Cancel(active, f * s, 1.0);
  }

  /** Spread `s`: above one for a batch of a sparse model, else at most a nineteenth above one. */
  lemma SpreadSize(total: real, active: real, n: real, most: real, s: real)
    requires 0.0 < active && n >= 1.0 && s * active == most
    requires most <= total && most <= n * active && (most == total || most == n * active)
    ensures n >= 2.0 && active < total ==> s > 1.0
    ensures n == 1.0 || active >= total ==> s <= 1.0
    ensures active >= 0.95 * total || n == 1.0 ==> 0.95 * s <= 1.0
  {
    if n >= 2.0 && active < total {
      GrowsReal(active, 2.0, n);
      AboveOne(active, most, s);
    }
    if active >= 0.95 * total {
      AtMost(active, most, s, 0.95);
    }
    if n == 1.0 || active >= total {
      AtMost(active, most, s, 1.0);
    }
  }

  /** What is disclosed is the spread itself; when nothing is, the figure is at most a nineteenth too high. */
  lemma DisclosureIsTheSpread(f: Fit)
    requires f.model.Valid() && f.concurrency >= 1
    ensures f.MoeBatchOptimism().Some? ==> f.MoeBatchOptimism().value == Spread(f.model, f.concurrency) > 1.0
    ensures f.MoeBatchOptimism().None? ==> 0.95 * Spread(f.model, f.concurrency) <= 1.0
  {
    SpreadOf(f.model, f.concurrency);
  }

  lemma SpreadOf(m: ModelSpec, n: int)
    requires m.activeB > 0.0 && n >= 1
    ensures n >= 2 && m.activeB < m.paramsB ==> Spread(m, n) > 1.0
    ensures n == 1 || m.activeB >= m.paramsB ==> Spread(m, n) <= 1.0
    ensures m.activeB >= 0.95 * m.paramsB || n == 1 ==> 0.95 * Spread(m, n) <= 1.0
  {
    SpreadSize(m.paramsB, m.activeB, n as real, Least(m.paramsB, n as real * m.activeB), Spread(m, n));
  }

  /** A spread goes undisclosed exactly for a batch of a model with at least 95 but not all of a hundred
      parameters active. */
  lemma SpreadIsHiddenExactly(f: Fit)
    requires f.model.Valid() && f.concurrency >= 1
    ensures f.MoeBatchOptimism().None? && Spread(f.model, f.concurrency) > 1.0 <==>
            f.concurrency >= 2 && 0.95 * f.model.paramsB <= f.model.activeB < f.model.paramsB
  {
    SpreadOf(f.model, f.concurrency);
  }

  /** A model of 100 billion parameters, 96 of them active, served to two: the read may be 100/96 of what
      the figure assumes, and nothing says so. */
  lemma HiddenSpread(hw: Hardware)
    ensures var m := ModelSpec("m", 100.0, 96.0, 1, 1, 1, Gqa, 4096, [Q8], None);
            var f := Solve(m, Q8, hw, 1, 2);
            m.Valid() && f.Sized? && f.fit.MoeBatchOptimism().None? && Spread(m, 2) == 100.0 / 96.0 > 1.0
  {
  }

  /** Below one, a batch or a context counts as one. */
  lemma LimitsClamp(m: ModelSpec, q: Quant, hw: Hardware, n: int)
    requires m.Valid() && n < 1
    ensures MaxContext(m, q, hw, n) == MaxContext(m, q, hw, 1)
    ensures MaxConcurrency(m, q, hw, n) == MaxConcurrency(m, q, hw, 1)
  {
  }

  /** Sizing refuses a batch below one, and then a context below one, naming the value; nothing else. */
  lemma SizingRefusesExactly(m: ModelSpec, q: Quant, hw: Hardware, context: int, concurrency: int, v: int)
    ensures Solve(m, q, hw, context, concurrency) == BadConcurrency(v) <==> concurrency == v < 1
    ensures Solve(m, q, hw, context, concurrency) == BadContext(v) <==> concurrency >= 1 && context == v < 1
    ensures Solve(m, q, hw, context, concurrency).Sized? <==> concurrency >= 1 && context >= 1
  {
  }

  /** A stream reads, each second, 72 percent of what the machine's peak bandwidth allows. */
  lemma StreamUsesItsBandwidth(m: ModelSpec, q: Quant, hw: Hardware, context: int, concurrency: int)
    requires Streams(m, hw) && context >= 1 && concurrency >= 1
    ensures var f := Solve(m, q, hw, context, concurrency).fit;
      && f.tokensPerSec.Some?
      && f.tokensPerSec.value * (WeightRead(m.activeB, q) + KvRead(m, context))
         == 0.72 * (hw.bandwidthGbps.value * 1000000000.0)
  {
    ReadsArePositive(m, q, context);
    var bw, read := Bandwidth(hw), m.ActiveBytes(q) + KvRead(m, context);
    Undivided(bw, read);
  }

  lemma Undivided(a: real, b: real)
    requires b > 0.0
    ensures (a / b) * b == a
  {
  }
}
