/** Choosing a quantisation, ranking the catalogue on one machine, and finding machines for one model. */
module Placement {
  import opened Wrappers
  import opened Sorting
  import opened Catalog
  import opened FitSolver

  predicate MoreBits(p: Quant, q: Quant) {
    Bits(p) >= Bits(q)
  }

  /** The quants at or below 8 bits. */
  function AtMost8(quants: seq<Quant>): seq<Quant> {
    if quants == [] then []
    else (if Bits(quants[0]) <= 8.0 then [quants[0]] else []) + AtMost8(quants[1..])
  }

  /** Those at or below 8 bits if there are any, otherwise all of them. */
  function Pool(quants: seq<Quant>): seq<Quant> {
    if AtMost8(quants) == [] then quants else AtMost8(quants)
  }

  function QuantPreference(quants: seq<Quant>): seq<Quant> {
    Sort(Pool(quants), MoreBits)
  }

  datatype Choice = Chosen(fit: Option<Fit>) | Refused(why: Solved)

  predicate Bad(context: int, concurrency: int) {
    context < 1 || concurrency < 1
  }

  /** `c` is the first of `order` that fits, or nothing if none does. */
  ghost predicate FirstThatFits(order: seq<Quant>, m: ModelSpec, hw: Hardware, context: int, concurrency: int,
                                c: Option<Fit>)
  {
    if c.None? then forall q :: q in order ==> !Fits(m, q, hw, context, concurrency)
    else exists k :: 0 <= k < |order| && FitAt(order, m, hw, context, concurrency, c.value, k)
  }

  ghost predicate FitAt(order: seq<Quant>, m: ModelSpec, hw: Hardware, context: int, concurrency: int, f: Fit, k: nat)
    requires k < |order|
  {
    && Sized(f) == Solve(m, order[k], hw, context, concurrency) && f.Feasible()
    && forall j :: 0 <= j < k ==> !Fits(m, order[j], hw, context, concurrency)
  }

  method BestQuant(m: ModelSpec, hw: Hardware, context: int, concurrency: int) returns (r: Choice)
    ensures r.Refused? <==> Bad(context, concurrency) && m.quants != []
    ensures r.Refused? ==> r.why == Solve(m, Q8, hw, context, concurrency)
    ensures r.Chosen? ==> FirstThatFits(QuantPreference(m.quants), m, hw, context, concurrency, r.fit)
  {
    var order := QuantPreference(m.quants);
    SortPermutes(Pool(m.quants), MoreBits);
    for k := 0 to |order|
      invariant k > 0 ==> !Bad(context, concurrency)
      invariant forall j :: 0 <= j < k ==> !Fits(m, order[j], hw, context, concurrency)
    {
      var s := Solve(m, order[k], hw, context, concurrency);
      if !s.Sized? {
        return Refused(s);
      }
      if s.fit.Feasible() {
        assert FitAt(order, m, hw, context, concurrency, s.fit, k);
        return Chosen(Some(s.fit));
      }
    }
    return Chosen(None);
  }

  /** The first quant of fewest bits. */
  function Smallest(quants: seq<Quant>): Quant
    requires quants != []
  {
    if |quants| == 1 then quants[0]
    else
      var r := Smallest(quants[1..]);
      if Bits(quants[0]) <= Bits(r) then quants[0] else r
  }

  lemma {:induction false} SmallestIsLeast(quants: seq<Quant>)
    requires quants != []
    ensures Smallest(quants) in quants
    ensures forall q :: q in quants ==> Bits(Smallest(quants)) <= Bits(q)
  {
    assert quants == [quants[0]] + quants[1..];
    if |quants| > 1 {
      SmallestIsLeast(quants[1..]);
    }
  }

  lemma {:induction false} AtMost8Members(quants: seq<Quant>)
    ensures forall q :: q in AtMost8(quants) <==> q in quants && Bits(q) <= 8.0
  {
    if quants != [] {
      AtMost8Members(quants[1..]);
      assert quants == [quants[0]] + quants[1..];
    }
  }

  lemma PreferenceMembers(quants: seq<Quant>)
    ensures forall q :: q in QuantPreference(quants) <==> q in quants && (Bits(q) <= 8.0 || AtMost8(quants) == [])
    ensures Ordered(QuantPreference(quants), MoreBits)
    ensures quants != [] ==> Smallest(quants) in QuantPreference(quants)
  {
    AtMost8Members(quants);
    SortPermutes(Pool(quants), MoreBits);
    SortOrders(Pool(quants), MoreBits);
    if quants != [] {
      SmallestIsLeast(quants);
      if AtMost8(quants) != [] {
        assert AtMost8(quants)[0] in AtMost8(quants);
      }
    }
  }

  /** The quant chosen is offered, fits, is within the 8-bit pool, and nothing with more bits in that pool fits. */
  lemma HighestThatFits(m: ModelSpec, hw: Hardware, context: int, concurrency: int, f: Fit)
    requires FirstThatFits(QuantPreference(m.quants), m, hw, context, concurrency, Some(f))
    ensures f.model == m && f.quant in m.quants && Fits(m, f.quant, hw, context, concurrency)
    ensures f.context == context && f.concurrency == concurrency
    ensures Bits(f.quant) <= 8.0 || forall q :: q in m.quants ==> Bits(q) > 8.0
    ensures forall q :: q in m.quants && 8.0 >= Bits(q) > Bits(f.quant) ==> !Fits(m, q, hw, context, concurrency)
    ensures forall q :: q in m.quants && Bits(q) > Bits(f.quant) > 8.0 ==> !Fits(m, q, hw, context, concurrency)
  {
    PreferenceMembers(m.quants);
    AtMost8Members(m.quants);
    var order := QuantPreference(m.quants);
    var k :| 0 <= k < |order| && FitAt(order, m, hw, context, concurrency, f, k);
    assert order[k] in order;
    if AtMost8(m.quants) != [] {
      assert AtMost8(m.quants)[0] in AtMost8(m.quants);
    }
    forall q | q in order && Bits(q) > Bits(f.quant) ensures !Fits(m, q, hw, context, concurrency) {
      HigherWasTried(order, q, k);
    }
  }

  lemma HigherWasTried(order: seq<Quant>, q: Quant, k: nat)
    requires Ordered(order, MoreBits) && k < |order| && q in order && Bits(q) > Bits(order[k])
    ensures exists j :: 0 <= j < k && order[j] == q
  {
    var j :| 0 <= j < |order| && order[j] == q;
    assert k < j ==> MoreBits(order[k], order[j]);
  }

  /** Nothing is chosen exactly when not even the smallest quant fits. */
  lemma NoneExactly(m: ModelSpec, hw: Hardware, context: int, concurrency: int, c: Option<Fit>)
    requires m.Valid() && !Bad(context, concurrency)
    requires FirstThatFits(QuantPreference(m.quants), m, hw, context, concurrency, c)
    ensures c.None? <==> !Fits(m, Smallest(m.quants), hw, context, concurrency)
  {
    PreferenceMembers(m.quants);
    SmallestIsLeast(m.quants);
    if c.Some? {
      HighestThatFits(m, hw, context, concurrency, c.value);
      FittingIsDownward(m, Smallest(m.quants), c.value.quant, hw, context, concurrency, context, concurrency);
    }
  }

  // ------------------------------------------------------------------ why not

  /** Why a model was turned away, with the shortfall in bytes. */
  datatype Reason = WeightsAlone(quant: Quant, short: int) | CacheToo(quant: Quant, short: int)

  function WhyNot(f: Fit): Reason {
    if f.weightBytes > f.usableBytes then WeightsAlone(f.quant, f.weightBytes - f.usableBytes)
    else CacheToo(f.quant, f.TotalBytes() - f.usableBytes)
  }

  /** A rejection always rests on a positive shortfall at the smallest quant. */
  ghost predicate RealShortfall(m: ModelSpec, hw: Hardware, context: int, concurrency: int, why: Reason) {
    && m.quants != [] && why.quant == Smallest(m.quants) && why.short > 0
    && !Fits(m, why.quant, hw, context, concurrency)
    && (if m.WeightBytes(why.quant) > hw.usableBytes
        then why == WeightsAlone(why.quant, m.WeightBytes(why.quant) - hw.usableBytes)
        else why == CacheToo(why.quant, m.WeightBytes(why.quant) + Overhead(m.WeightBytes(why.quant))
                             + m.KvBytesPerToken() * context * concurrency - hw.usableBytes))
  }

  lemma ShortfallIsReal(m: ModelSpec, hw: Hardware, context: int, concurrency: int)
    requires m.Valid() && !Bad(context, concurrency)
    requires !Fits(m, Smallest(m.quants), hw, context, concurrency)
    ensures var probe := Solve(m, Smallest(m.quants), hw, context, concurrency);
            RealShortfall(m, hw, context, concurrency, WhyNot(probe.fit))
  {
    var q := Smallest(m.quants);
    KvIsPositive(m);
    Positive(m.KvBytesPerToken(), context);
    Positive(m.KvBytesPerToken() * context, concurrency);
    WeightsGrowWithBits(m, q, q);
    OverheadGrows(m.WeightBytes(q), m.WeightBytes(q));
  }

  /** Whether the model can be served at its smallest quant. */
  predicate CanServe(m: ModelSpec, hw: Hardware, context: int, concurrency: int) {
    m.quants != [] && Fits(m, Smallest(m.quants), hw, context, concurrency)
  }

  datatype Verdict = Served(fit: Fit) | Rejected(why: Reason) | NotSized(refusal: Solved)

  /** The best fit, or the shortfall at the smallest quant. */
  method Judge(m: ModelSpec, hw: Hardware, context: int, concurrency: int) returns (v: Verdict)
    requires m.Valid()
    ensures v.NotSized? <==> Bad(context, concurrency)
    ensures v.Served? ==>
      v.fit.model == m && IsBest(v.fit, hw, context, concurrency) && CanServe(m, hw, context, concurrency)
    ensures v.Rejected? ==>
      RealShortfall(m, hw, context, concurrency, v.why) && !CanServe(m, hw, context, concurrency)
  {
    var c := BestQuant(m, hw, context, concurrency);
    if c.Refused? {
      return NotSized(c.why);
    }
    NoneExactly(m, hw, context, concurrency, c.fit);
    if c.fit.Some? {
      HighestThatFits(m, hw, context, concurrency, c.fit.value);
      return Served(c.fit.value);
    }
    var probe := Solve(m, Smallest(m.quants), hw, context, concurrency);
    ShortfallIsReal(m, hw, context, concurrency);
    return Rejected(WhyNot(probe.fit));
  }

  // ------------------------------------------------------------------ ranking a catalogue

  ghost predicate AllValid(models: seq<ModelSpec>) {
    forall m :: m in models ==> m.Valid()
  }

  function FitModels(fits: seq<Fit>): seq<ModelSpec> {
    seq(|fits|, i requires 0 <= i < |fits| => fits[i].model)
  }

  function RejectedModels(rejected: seq<(ModelSpec, Reason)>): seq<ModelSpec> {
    seq(|rejected|, i requires 0 <= i < |rejected| => rejected[i].0)
  }

  predicate Larger(a: Fit, b: Fit) {
    a.model.paramsB >= b.model.paramsB
  }

  ghost predicate IsBest(f: Fit, hw: Hardware, context: int, concurrency: int) {
    FirstThatFits(QuantPreference(f.model.quants), f.model, hw, context, concurrency, Some(f))
  }

  /** Every model is in exactly one list, with its best fit or a real shortfall. */
  ghost predicate Ranking(models: seq<ModelSpec>, hw: Hardware, context: int, concurrency: int,
                          fits: seq<Fit>, rejected: seq<(ModelSpec, Reason)>)
  {
    && multiset(models) == multiset(FitModels(fits)) + multiset(RejectedModels(rejected))
    && (forall f :: f in fits ==> IsBest(f, hw, context, concurrency))
    && (forall r :: r in rejected ==> RealShortfall(r.0, hw, context, concurrency, r.1))
  }

  datatype Ranked = Ranked(fits: seq<Fit>, rejected: seq<(ModelSpec, Reason)>) | RankRefused(why: Solved)

  lemma RankingWithFit(models: seq<ModelSpec>, hw: Hardware, context: int, concurrency: int,
                       fits: seq<Fit>, rejected: seq<(ModelSpec, Reason)>, f: Fit)
    requires Ranking(models, hw, context, concurrency, fits, rejected) && IsBest(f, hw, context, concurrency)
    ensures Ranking(models + [f.model], hw, context, concurrency, fits + [f], rejected)
  {
    FitModelsSnoc(fits, f);
  }

  lemma RankingWithRejection(models: seq<ModelSpec>, hw: Hardware, context: int, concurrency: int,
                             fits: seq<Fit>, rejected: seq<(ModelSpec, Reason)>, m: ModelSpec, why: Reason)
    requires Ranking(models, hw, context, concurrency, fits, rejected)
    requires RealShortfall(m, hw, context, concurrency, why)
    ensures Ranking(models + [m], hw, context, concurrency, fits, rejected + [(m, why)])
  {
    RejectedModelsSnoc(rejected, m, why);
  }

  lemma {:induction false} SameFitsSameModels(a: seq<Fit>, b: seq<Fit>)
    requires multiset(a) == multiset(b)
    ensures multiset(FitModels(a)) == multiset(FitModels(b))
  {
    SameContents(a, b);
    if a != [] {
      assert a[0] in b;
      var left, right := TakeOut(b, a[0]);
      RemoveFirst(a[0], a, left + right);
      SameFitsSameModels(a[1..], left + right);
      var x, l, r := a[0].model, FitModels(left), FitModels(right);
      assert FitModels(a) == [x] + FitModels(a[1..]);
      assert FitModels(left + right) == l + r;
      assert FitModels(b) == l + ([x] + r);
      MoveFirst(x, l, r);
    }
  }

  lemma MoveFirst(x: ModelSpec, l: seq<ModelSpec>, r: seq<ModelSpec>)
    ensures multiset(l + ([x] + r)) == multiset{x} + multiset(l + r)
  {
  }

  /** The models that can be served at their smallest quant, or those that cannot, in catalogue order. */
  function Only(models: seq<ModelSpec>, hw: Hardware, context: int, concurrency: int, served: bool): seq<ModelSpec>
  {
    if models == [] then []
    else
      var n := |models| - 1;
      Only(models[..n], hw, context, concurrency, served)
        + (if CanServe(models[n], hw, context, concurrency) == served then [models[n]] else [])
  }

  /** Both lists follow the catalogue. */
  ghost predicate InCatalogueOrder(models: seq<ModelSpec>, hw: Hardware, context: int, concurrency: int,
                                   fits: seq<Fit>, rejected: seq<(ModelSpec, Reason)>)
  {
    && FitModels(fits) == Only(models, hw, context, concurrency, true)
    && RejectedModels(rejected) == Only(models, hw, context, concurrency, false)
  }

  lemma OnlySnoc(models: seq<ModelSpec>, hw: Hardware, context: int, concurrency: int, m: ModelSpec, served: bool)
    ensures Only(models + [m], hw, context, concurrency, served) ==
            Only(models, hw, context, concurrency, served)
              + (if CanServe(m, hw, context, concurrency) == served then [m] else [])
  {
    assert (models + [m])[..|models|] == models;
  }

  lemma FitModelsSnoc(fits: seq<Fit>, f: Fit)
    ensures FitModels(fits + [f]) == FitModels(fits) + [f.model]
  {
  }

  lemma RejectedModelsSnoc(rejected: seq<(ModelSpec, Reason)>, m: ModelSpec, why: Reason)
    ensures RejectedModels(rejected + [(m, why)]) == RejectedModels(rejected) + [m]
  {
  }

  lemma OneMoreServed(models: seq<ModelSpec>, hw: Hardware, context: int, concurrency: int,
                      fits: seq<Fit>, rejected: seq<(ModelSpec, Reason)>, f: Fit)
    requires InCatalogueOrder(models, hw, context, concurrency, fits, rejected)
    requires CanServe(f.model, hw, context, concurrency)
    ensures InCatalogueOrder(models + [f.model], hw, context, concurrency, fits + [f], rejected)
  {
    OnlySnoc(models, hw, context, concurrency, f.model, true);
    OnlySnoc(models, hw, context, concurrency, f.model, false);
    FitModelsSnoc(fits, f);
  }

  lemma OneMoreRejected(models: seq<ModelSpec>, hw: Hardware, context: int, concurrency: int,
                        fits: seq<Fit>, rejected: seq<(ModelSpec, Reason)>, m: ModelSpec, why: Reason)
    requires InCatalogueOrder(models, hw, context, concurrency, fits, rejected)
    requires !CanServe(m, hw, context, concurrency)
    ensures InCatalogueOrder(models + [m], hw, context, concurrency, fits, rejected + [(m, why)])
  {
    OnlySnoc(models, hw, context, concurrency, m, true);
    OnlySnoc(models, hw, context, concurrency, m, false);
    RejectedModelsSnoc(rejected, m, why);
  }

  method Rank(models: seq<ModelSpec>, hw: Hardware, context: int, concurrency: int)
    returns (r: Ranked, ghost unsorted: seq<Fit>)
    requires AllValid(models)
    ensures r.RankRefused? <==> models != [] && Bad(context, concurrency)
    ensures r.Ranked? ==> Ranking(models, hw, context, concurrency, r.fits, r.rejected)
    ensures r.Ranked? ==> InCatalogueOrder(models, hw, context, concurrency, unsorted, r.rejected)
    ensures r.Ranked? ==> r.fits == Sort(unsorted, Larger)
    ensures r.Ranked? ==>
      forall i, j :: 0 <= i < j < |r.fits| ==> r.fits[i].model.paramsB >= r.fits[j].model.paramsB
  {
    var fits: seq<Fit>, rejected: seq<(ModelSpec, Reason)> := [], [];
    unsorted := [];
    for i := 0 to |models|
      invariant i > 0 ==> !Bad(context, concurrency)
      invariant Ranking(models[..i], hw, context, concurrency, fits, rejected)
      invariant InCatalogueOrder(models[..i], hw, context, concurrency, fits, rejected)
    {
      var m := models[i];
      assert models[..i + 1] == models[..i] + [m];
      var v := Judge(m, hw, context, concurrency);
      if v.NotSized? {
        return RankRefused(v.refusal), [];
      }
      if v.Served? {
        RankingWithFit(models[..i], hw, context, concurrency, fits, rejected, v.fit);
        OneMoreServed(models[..i], hw, context, concurrency, fits, rejected, v.fit);
        fits := fits + [v.fit];
      } else {
        RankingWithRejection(models[..i], hw, context, concurrency, fits, rejected, m, v.why);
        OneMoreRejected(models[..i], hw, context, concurrency, fits, rejected, m, v.why);
        rejected := rejected + [(m, v.why)];
      }
    }
    assert models[..|models|] == models;
    SortPermutes(fits, Larger);
    SortOrders(fits, Larger);
    SameFitsSameModels(Sort(fits, Larger), fits);
    return Ranked(Sort(fits, Larger), rejected), fits;
  }

  /** A ranked list and a rejected one never hold the same model. */
  lemma NoModelInBoth(models: seq<ModelSpec>, hw: Hardware, context: int, concurrency: int,
                      fits: seq<Fit>, rejected: seq<(ModelSpec, Reason)>, f: Fit, r: (ModelSpec, Reason))
    requires Ranking(models, hw, context, concurrency, fits, rejected) && AllValid(models)
    requires f in fits && r in rejected && !Bad(context, concurrency)
    ensures f.model != r.0
  {
    var i :| 0 <= i < |fits| && fits[i] == f;
    assert FitModels(fits)[i] == f.model;
    assert f.model in multiset(FitModels(fits));
    assert f.model in multiset(models);
    NoneExactly(f.model, hw, context, concurrency, Some(f));
  }

  // ------------------------------------------------------------------ where to run one model

  datatype Profile = Profile(id: string, hardware: Hardware, hourlyUsd: Option<real>)
  datatype Spot = Spot(profile: Profile, fit: Option<Fit>, why: Option<Reason>)

  /** Feasible first, then cheaper (unknown price last), then faster. */
  predicate Sooner(a: Spot, b: Spot) {
    if a.fit.Some? != b.fit.Some? then a.fit.Some?
    else if !SamePrice(a.profile.hourlyUsd, b.profile.hourlyUsd) then Cheaper(a.profile.hourlyUsd, b.profile.hourlyUsd)
    else Speed(a) >= Speed(b)
  }

  predicate SamePrice(a: Option<real>, b: Option<real>) {
    a == b
  }

  predicate Cheaper(a: Option<real>, b: Option<real>) {
    a.Some? && (b.None? || a.value < b.value)
  }

  function Speed(s: Spot): real {
    if s.fit.Some? && s.fit.value.tokensPerSec.Some? then s.fit.value.tokensPerSec.value else 0.0
  }

  ghost predicate Placed(m: ModelSpec, context: int, concurrency: int, s: Spot) {
    if s.fit.Some? then
      && s.why.None? && s.fit.value.model == m
      && IsBest(s.fit.value, s.profile.hardware, context, concurrency)
    else s.why.Some? && RealShortfall(m, s.profile.hardware, context, concurrency, s.why.value)
  }

  function Profiles(spots: seq<Spot>): seq<Profile> {
    seq(|spots|, i requires 0 <= i < |spots| => spots[i].profile)
  }

  datatype Search = Found(spots: seq<Spot>) | SearchRefused(why: Solved)

  method Where(m: ModelSpec, profiles: seq<Profile>, context: int, concurrency: int)
    returns (r: Search, ghost unsorted: seq<Spot>)
    requires m.Valid()
    ensures r.SearchRefused? <==> profiles != [] && Bad(context, concurrency)
    ensures r.Found? ==>
      && Profiles(unsorted) == profiles
      && r.spots == Sort(unsorted, Sooner)
      && forall s :: s in r.spots ==> Placed(m, context, concurrency, s)
    ensures r.Found? ==> Ordered(r.spots, Sooner)
  {
    unsorted := [];
    var out: seq<Spot> := [];
    for i := 0 to |profiles|
      invariant i > 0 ==> !Bad(context, concurrency)
      invariant out == unsorted && Profiles(unsorted) == profiles[..i]
      invariant forall s :: s in out ==> Placed(m, context, concurrency, s)
    {
      var p := profiles[i];
      var v := Judge(m, p.hardware, context, concurrency);
      if v.NotSized? {
        return SearchRefused(v.refusal), unsorted;
      }
      var spot := if v.Served? then Spot(p, Some(v.fit), None) else Spot(p, None, Some(v.why));
      assert Placed(m, context, concurrency, spot);
      assert Profiles(out + [spot]) == Profiles(out) + [p];
      out := out + [spot];
      unsorted := out;
    }
    SortPermutes(out, Sooner);
    SortOrders(out, Sooner);
    return Found(Sort(out, Sooner)), unsorted;
  }

  /** In the answer no machine that cannot serve precedes one that can, and among those that can prices ascend. */
  lemma CapableAndCheapestFirst(spots: seq<Spot>, i: nat, j: nat)
    requires Ordered(spots, Sooner) && i < j < |spots|
    ensures spots[j].fit.Some? ==> spots[i].fit.Some?
    ensures spots[i].fit.Some? == spots[j].fit.Some? && spots[j].profile.hourlyUsd.Some? ==>
      spots[i].profile.hourlyUsd.Some? && spots[i].profile.hourlyUsd.value <= spots[j].profile.hourlyUsd.value
    ensures spots[i].fit.Some? == spots[j].fit.Some? && spots[i].profile.hourlyUsd == spots[j].profile.hourlyUsd ==>
      Speed(spots[i]) >= Speed(spots[j])
  {
    assert Sooner(spots[i], spots[j]);
  }
}
