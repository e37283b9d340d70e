/** The guard: what has moved since a receipt was issued, and whether it still describes production. */
module Guard {
  import opened Wrappers
  import opened TrafficMix
  import opened Sorting

  const TRAFFIC_DRIFT_LIMIT: real := 0.20
  const UNCOVERED_SHARE_LIMIT: real := 0.10
  const MAX_RECEIPT_AGE_DAYS: int := 90

  datatype Receipt = Receipt(
    scores: seq<(string, real)>, fingerprints: map<string, string>, candidate: string, incumbent: string)

  datatype Finding =
    | Uncheckable(supplied: nat)
    | ModelChanged(name: string)
    | TrafficUncovered(share: real)
    | TrafficMoved(distance: real)
    | Aged(days: int)
    | NewCandidate(model: string)
  {
    predicate Invalidates() {
      ModelChanged? || TrafficUncovered? || TrafficMoved?
    }

    /** The place of its kind in a proposal. */
    function Place(): nat {
      match this
      case Uncheckable(_) => 0
      case ModelChanged(_) => 1
      case TrafficUncovered(_) => 2
      case TrafficMoved(_) => 3
      case Aged(_) => 4
      case NewCandidate(_) => 5
    }
  }

  /** What the receipt scored: proven, regretted and unproven clusters in turn, a later entry replacing an earlier. */
  function Scored(scores: seq<(string, real)>): Mix {
    if scores == [] then map[]
    else
      var n := |scores| - 1;
      Scored(scores[..n])[scores[n].0 := scores[n].1]
  }

  /** Share of the traffic in clusters without a score. */
  ghost function Uncovered(scored: Mix, traffic: Mix): real {
    Sum(traffic.Keys - scored.Keys, PerTotal(traffic))
  }

  /** Volume over the total, or over one when the total is zero. */
  ghost function PerTotal(m: Mix): string -> real {
    k => Get(m, k) / TotalOrOne(m)
  }

  ghost function TotalOrOne(m: Mix): (t: real)
    ensures t != 0.0
  {
    if Mass(m) == 0.0 then 1.0 else Mass(m)
  }

  /** Exactly the findings that are due. */
  ghost predicate Due(f: Finding, r: Receipt, fingerprints: map<string, string>, traffic: Mix,
                      age: Option<int>, available: set<string>)
  {
    match f
    case Uncheckable(n) => n == |fingerprints| && n > 0 && r.fingerprints == map[]
    case ModelChanged(name) =>
      name in r.fingerprints && name in fingerprints && fingerprints[name] != r.fingerprints[name]
    case TrafficUncovered(s) =>
      traffic != map[] && s == Uncovered(Scored(r.scores), traffic) && s > 0.10
    case TrafficMoved(d) =>
      traffic != map[] && d == Distance(Scored(r.scores), traffic) && d > 0.20
    case Aged(days) => age == Some(days) && days > 90
    case NewCandidate(m) => m in available && m != r.candidate && m != r.incumbent
  }

  /** Strings by code point, as names are sorted. */
  predicate NotAfter(a: string, b: string) {
    a == "" || (b != "" && (a[0] < b[0] || (a[0] == b[0] && NotAfter(a[1..], b[1..]))))
  }

  lemma {:induction false} NamesCompare(a: string, b: string)
    ensures NotAfter(a, b) || NotAfter(b, a)
  {
    if a != "" && b != "" && a[0] == b[0] {
      NamesCompare(a[1..], b[1..]);
    }
  }

  lemma {:induction false} NamesChain(a: string, b: string, c: string)
    requires NotAfter(a, b) && NotAfter(b, c)
    ensures NotAfter(a, c)
  {
    if a != "" && a[0] == b[0] == c[0] {
      NamesChain(a[1..], b[1..], c[1..]);
    }
  }

  lemma NamesAreOrdered()
    ensures TotalPreorder(NotAfter)
  {
    forall a, b ensures NotAfter(a, b) || NotAfter(b, a) {
      NamesCompare(a, b);
    }
    forall a, b, c | NotAfter(a, b) && NotAfter(b, c) ensures NotAfter(a, c) {
      NamesChain(a, b, c);
    }
  }

  /** At the first difference the lesser code point goes first, and a name goes before what it begins. */
  lemma {:induction false} NamesByCodePoint(p: string, c: char, x: string, d: char, y: string)
    requires c < d
    ensures NotAfter(p + [c] + x, p + [d] + y) && !NotAfter(p + [d] + y, p + [c] + x)
    ensures NotAfter(p, p + [c] + x) && !NotAfter(p + [c] + x, p)
  {
    var a, b := p + [c] + x, p + [d] + y;
    if p != "" {
      assert a[1..] == p[1..] + [c] + x && b[1..] == p[1..] + [d] + y;
      assert a[0] == b[0] == p[0];
      NamesByCodePoint(p[1..], c, x, d, y);
    } else {
      assert a[0] == c && b[0] == d;
    }
  }

  /** `f` may stand ahead of `g`: an earlier kind, or another of its kind, candidates by name. */
  predicate Ahead(f: Finding, g: Finding) {
    || f.Place() < g.Place()
    || (f.Place() == g.Place() && f != g && (f.NewCandidate? ==> NotAfter(f.model, g.model)))
  }

  /** No finding twice, kinds in their order. */
  ghost predicate Listed(found: seq<Finding>) {
    forall i, j :: 0 <= i < j < |found| ==> Ahead(found[i], found[j])
  }

  lemma ListedTogether(a: seq<Finding>, b: seq<Finding>)
    requires Listed(a) && Listed(b)
    requires forall f, g :: f in a && g in b ==> f.Place() < g.Place()
    ensures Listed(a + b)
  {
    forall i, j | 0 <= i < j < |a + b| ensures Ahead((a + b)[i], (a + b)[j]) {
      if i < |a| <= j {
        assert a[i] in a && b[j - |a|] in b;
      }
    }
  }

  lemma ListedSnoc(a: seq<Finding>, g: Finding)
    requires Listed(a) && forall f :: f in a ==> Ahead(f, g)
    ensures Listed(a + [g])
  {
  }

  method CheckModels(r: Receipt, fingerprints: map<string, string>) returns (found: seq<Finding>)
    ensures Listed(found)
    ensures forall f :: f in found <==> (f.Uncheckable? || f.ModelChanged?) && Due(f, r, fingerprints, map[], None, {})
  {
    found := [];
    if fingerprints != map[] && r.fingerprints == map[] {
      found := [Uncheckable(|fingerprints|)];
    }
    ghost var first := found;
    var rest := r.fingerprints.Keys;
    while rest != {}
      invariant rest <= r.fingerprints.Keys
      invariant Listed(found)
      invariant forall f :: f in found <==>
        (f in first || (f.ModelChanged? && f.name !in rest && Due(f, r, fingerprints, map[], None, {})))
      decreases |rest|
    {
      var name :| name in rest;
      if name in fingerprints && fingerprints[name] != r.fingerprints[name] {
        ListedSnoc(found, ModelChanged(name));
        found := found + [ModelChanged(name)];
      }
      rest := rest - {name};
    }
  }

  lemma PerTotalOf(m: Mix, k: string)
    requires k in m
    ensures PerTotal(m)(k) == m[k] / TotalOrOne(m)
  {
  }

  method UncoveredShare(scored: Mix, traffic: Mix) returns (share: real)
    ensures share == Uncovered(scored, traffic)
  {
    var sum := SumValues(traffic);
    var total := if sum == 0.0 then 1.0 else sum;
    assert total == TotalOrOne(traffic);
    var rest := traffic.Keys - scored.Keys;
    share := 0.0;
    while rest != {}
      invariant rest <= traffic.Keys - scored.Keys
      invariant share + Sum(rest, PerTotal(traffic)) == Uncovered(scored, traffic)
      decreases |rest|
    {
      var k :| k in rest;
      SumTake(rest, PerTotal(traffic), k);
      PerTotalOf(traffic, k);
      share := share + traffic[k] / total;
      rest := rest - {k};
    }
  }

  /** The two traffic findings, by their figures. */
  method TrafficFindings(share: real, moved: real) returns (found: seq<Finding>)
    ensures Listed(found)
    ensures forall f :: f in found <==>
      || (f == TrafficUncovered(share) && share > UNCOVERED_SHARE_LIMIT)
      || (f == TrafficMoved(moved) && moved > TRAFFIC_DRIFT_LIMIT)
  {
    found := [];
    if share > UNCOVERED_SHARE_LIMIT {
      found := found + [TrafficUncovered(share)];
    }
    if moved > TRAFFIC_DRIFT_LIMIT {
      found := found + [TrafficMoved(moved)];
    }
  }

  method CheckTraffic(r: Receipt, traffic: Mix) returns (found: seq<Finding>)
    ensures Listed(found)
    ensures forall f :: f in found <==>
      (f.TrafficUncovered? || f.TrafficMoved?) && Due(f, r, map[], traffic, None, {})
  {
    if traffic == map[] {
      return [];
    }
    var scored := Scored(r.scores);
    var share := UncoveredShare(scored, traffic);
    var moved := TrafficDistance(scored, traffic);
    found := TrafficFindings(share, moved);
  }

  /** The names in order. */
  method Sorted(names: set<string>) returns (out: seq<string>)
    ensures forall n :: n in out <==> n in names
    ensures forall i, j :: 0 <= i < j < |out| ==> out[i] != out[j] && NotAfter(out[i], out[j])
  {
    var rest, listed: seq<string> := names, [];
    while rest != {}
      invariant rest <= names
      invariant forall n :: n in listed <==> n in names - rest
      invariant |listed| + |rest| == |names|
      decreases |rest|
    {
      var n :| n in rest;
      listed := listed + [n];
      rest := rest - {n};
    }
    NamesAreOrdered();
    out := Sort(listed, NotAfter);
    SortPermutes(listed, NotAfter);
    SortOrders(listed, NotAfter);
    NoneTwice(out, names);
  }

  /** A list with as many entries as it has members has no entry twice. */
  lemma {:induction false} NoneTwice(s: seq<string>, members: set<string>)
    requires (forall n :: n in s <==> n in members) && |s| == |members|
    ensures forall i, j :: 0 <= i < j < |s| ==> s[i] != s[j]
  {
    if s != [] {
      var n := |s| - 1;
      var init := s[..n];
      assert s == init + [s[n]];
      if s[n] in init {
        FewMembers(init, members);
        assert false;
      }
      NoneTwice(init, members - {s[n]});
    }
  }

  lemma {:induction false} FewMembers(s: seq<string>, members: set<string>)
    requires forall n :: n in members ==> n in s
    ensures |members| <= |s|
  {
    if s != [] {
      FewMembers(s[1..], members - {s[0]});
    } else {
      assert members == {};
    }
  }

  method CheckRest(r: Receipt, age: Option<int>, available: set<string>) returns (found: seq<Finding>)
    ensures Listed(found)
    ensures forall f :: f in found <==> (f.Aged? || f.NewCandidate?) && Due(f, r, map[], map[], age, available)
  {
    found := [];
    if age.Some? && age.value > MAX_RECEIPT_AGE_DAYS {
      found := [Aged(age.value)];
    }
    ghost var first := found;
    var names := Sorted(available - {r.candidate, r.incumbent});
    for i := 0 to |names|
      invariant Listed(found)
      invariant forall f :: f in found <==> f in first || (f.NewCandidate? && f.model in names[..i])
    {
      assert names[..i + 1] == names[..i] + [names[i]];
      ListedSnoc(found, NewCandidate(names[i]));
      found := found + [NewCandidate(names[i])];
    }
    assert names[..|names|] == names;
  }

  /** Every finding that is due, once, and no other; kinds in their order, candidates by name. */
  method Check(r: Receipt, fingerprints: map<string, string>, traffic: Mix, age: Option<int>, available: set<string>)
    returns (found: seq<Finding>)
    ensures forall f :: f in found <==> Due(f, r, fingerprints, traffic, age, available)
    ensures Listed(found)
  {
    var a := CheckModels(r, fingerprints);
    var b := CheckTraffic(r, traffic);
    var c := CheckRest(r, age, available);
    ListedTogether(a, b);
    ListedTogether(a + b, c);
    found := a + b + c;
  }

  predicate StillHolds(found: seq<Finding>) {
    forall f :: f in found ==> !f.Invalidates()
  }

  // ------------------------------------------------------------------ what the verdict means

  predicate ModelsUnchanged(r: Receipt, fingerprints: map<string, string>) {
    forall n :: n in r.fingerprints && n in fingerprints ==> fingerprints[n] == r.fingerprints[n]
  }

  ghost predicate TrafficWithinLimits(r: Receipt, traffic: Mix) {
    traffic != map[] ==>
      && Uncovered(Scored(r.scores), traffic) <= 0.10
      && Distance(Scored(r.scores), traffic) <= 0.20
  }

  lemma ModelFindingDue(r: Receipt, fingerprints: map<string, string>, traffic: Mix, age: Option<int>,
                        available: set<string>)
    ensures ModelsUnchanged(r, fingerprints) <==>
            forall f: Finding :: f.ModelChanged? ==> !Due(f, r, fingerprints, traffic, age, available)
  {
    if !ModelsUnchanged(r, fingerprints) {
      var n :| n in r.fingerprints && n in fingerprints && fingerprints[n] != r.fingerprints[n];
      assert Due(ModelChanged(n), r, fingerprints, traffic, age, available);
    }
  }

  lemma TrafficFindingDue(r: Receipt, fingerprints: map<string, string>, traffic: Mix, age: Option<int>,
                          available: set<string>)
    ensures TrafficWithinLimits(r, traffic) <==>
            forall f: Finding :: f.TrafficUncovered? || f.TrafficMoved? ==>
              !Due(f, r, fingerprints, traffic, age, available)
  {
    var u, d := Uncovered(Scored(r.scores), traffic), Distance(Scored(r.scores), traffic);
    assert Due(TrafficUncovered(u), r, fingerprints, traffic, age, available) <==>
           traffic != map[] && u > 0.10;
    assert Due(TrafficMoved(d), r, fingerprints, traffic, age, available) <==>
           traffic != map[] && d > 0.20;
  }

  /** The receipt holds exactly when no compared model changed and traffic is within both limits. */
  lemma HoldsExactly(found: seq<Finding>, r: Receipt, fingerprints: map<string, string>, traffic: Mix,
                     age: Option<int>, available: set<string>)
    requires forall f :: f in found <==> Due(f, r, fingerprints, traffic, age, available)
    ensures StillHolds(found) <==> ModelsUnchanged(r, fingerprints) && TrafficWithinLimits(r, traffic)
  {
    ModelFindingDue(r, fingerprints, traffic, age, available);
    TrafficFindingDue(r, fingerprints, traffic, age, available);
  }

  /** On proper mixes the distance is at least the uncovered share. */
  lemma UncoveredIsMoved(scored: Mix, traffic: Mix)
    requires Proper(scored) && Proper(traffic)
    ensures 0.0 <= Uncovered(scored, traffic) <= Distance(scored, traffic)
  {
    var unseen := traffic.Keys - scored.Keys;
    SharesSumToOne(traffic, traffic.Keys);
    NoGroupGainedMore(scored, traffic, unseen);
    forall k | k in unseen ensures Shares(scored)(k) == 0.0 {
      NoShareOutside(scored, k);
    }
    SumZero(unseen, Shares(scored));
    SumSame(unseen, Shares(traffic), PerTotal(traffic));
    SumZero(unseen, Neither());
    SumAtMost(unseen, Neither(), Shares(traffic));
  }

  ghost predicate NonNegative(m: Mix) {
    forall k :: k in m ==> m[k] >= 0.0
  }

  /** An uncovered share above the drift limit means there is traffic to speak of. */
  lemma UncoveredNeedsTraffic(scored: Mix, traffic: Mix)
    requires NonNegative(traffic) && Uncovered(scored, traffic) > 0.0
    ensures Proper(traffic)
  {
    SumZero(traffic.Keys, Neither());
    SumAtMost(traffic.Keys, Neither(), Volume(traffic));
    if Mass(traffic) == 0.0 {
      ZeroSum(traffic.Keys, Volume(traffic));
      forall k | k in traffic.Keys - scored.Keys ensures PerTotal(traffic)(k) == 0.0 {
        assert Volume(traffic)(k) == 0.0;
      }
      SumZero(traffic.Keys - scored.Keys, PerTotal(traffic));
    }
  }

  /**
    When more than the drift limit is uncovered, both findings are due exactly when the receipt scored any
    volume at all. Scored against nothing, the distance reads as zero and the move goes unreported.
   */
  lemma BothFindingsExactly(r: Receipt, traffic: Mix, fingerprints: map<string, string>, age: Option<int>,
                            available: set<string>)
    requires NonNegative(Scored(r.scores)) && NonNegative(traffic)
    requires Uncovered(Scored(r.scores), traffic) > 0.20
    ensures Due(TrafficUncovered(Uncovered(Scored(r.scores), traffic)), r, fingerprints, traffic, age, available)
    ensures (exists d :: Due(TrafficMoved(d), r, fingerprints, traffic, age, available)) <==>
            Mass(Scored(r.scores)) > 0.0
  {
    var scored := Scored(r.scores);
    UncoveredNeedsTraffic(scored, traffic);
    assert traffic == map[] ==> traffic.Keys - scored.Keys == {};
    if Mass(scored) > 0.0 {
      UncoveredIsMoved(scored, traffic);
      assert Due(TrafficMoved(Distance(scored, traffic)), r, fingerprints, traffic, age, available);
    }
  }

  /** A receipt that scored its clusters at no volume is never contradicted by traffic in those clusters. */
  lemma ScoredAtNothingNeverMoves(r: Receipt, traffic: Mix, fingerprints: map<string, string>, age: Option<int>,
                                  available: set<string>, f: Finding)
    requires Mass(Scored(r.scores)) <= 0.0 && traffic.Keys <= Scored(r.scores).Keys
    requires Due(f, r, fingerprints, traffic, age, available)
    ensures !f.TrafficMoved? && !f.TrafficUncovered?
  {
    assert traffic.Keys - Scored(r.scores).Keys == {};
  }

  /** What was scored for a cluster is its last entry. */
  lemma {:induction false} ScoredIsTheLastEntry(scores: seq<(string, real)>, k: string)
    ensures k in Scored(scores) <==> exists i :: 0 <= i < |scores| && scores[i].0 == k
    ensures k in Scored(scores) ==> exists i :: IsLastEntry(scores, k, i) && Scored(scores)[k] == scores[i].1
  {
    if scores != [] {
      var n := |scores| - 1;
      ScoredIsTheLastEntry(scores[..n], k);
      if scores[n].0 == k {
        assert IsLastEntry(scores, k, n);
      } else if k in Scored(scores[..n]) {
        var i :| IsLastEntry(scores[..n], k, i) && Scored(scores[..n])[k] == scores[..n][i].1;
        assert IsLastEntry(scores, k, i);
      }
    }
  }

  predicate IsLastEntry(scores: seq<(string, real)>, k: string, i: int) {
    && 0 <= i < |scores| && scores[i].0 == k
    && forall j :: i < j < |scores| ==> scores[j].0 != k
  }

  /** What is uncovered is what the scored clusters leave of the whole. */
  lemma UncoveredIsTheRest(scored: Mix, traffic: Mix)
    requires Proper(traffic)
    ensures Uncovered(scored, traffic) == 1.0 - Sum(traffic.Keys * scored.Keys, Shares(traffic))
  {
    var covered, rest := traffic.Keys * scored.Keys, traffic.Keys - scored.Keys;
    SharesSumToOne(traffic, traffic.Keys);
    SumSplit(covered, rest, Shares(traffic));
    assert covered + rest == traffic.Keys;
    SumSame(rest, Shares(traffic), PerTotal(traffic));
  }
}
