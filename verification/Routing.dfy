/** The routing table, the decision it gives for one request, and the ways a phase is changed. */
module Routing {
  import opened Wrappers
  import opened Framing
  import opened Arithmetic

  type u8 = n: int | 0 <= n < 256

  datatype Backend = Backend(name: string, baseUrl: string, model: Option<string>)

  datatype Phase = Off | Shadow | Canary(percent: u8) | Cut | Split(toCandidate: bool) {
    /** How many of a hundred requests go to the candidate. */
    function CandidatePercent(): u8 {
      match this
      case Off => 0
      case Shadow => 0
      case Canary(p) => if p < 100 then p else 100
      case Cut => 100
      case Split(toCandidate) => if toCandidate then 100 else 0
    }
  }

  datatype Route = Route(incumbent: Backend, candidate: Backend, phase: Phase, failover: bool)

  datatype Decision = Decision(serve: Backend, mirror: Option<Backend>, fallback: Option<Backend>)

  /** The routing table: a default and per-cluster overrides. */
  datatype Table = Table(defaultRoute: Route, byCluster: map<string, Route>)

  /** The route in force for a cluster: its override, or the default it inherits. */
  function RouteFor(t: Table, cluster: Option<string>): Route {
    if cluster.Some? && cluster.value in t.byCluster then t.byCluster[cluster.value] else t.defaultRoute
  }

  function Share(t: Table, cluster: Option<string>): u8 {
    RouteFor(t, cluster).phase.CandidatePercent()
  }

  /** Whether a change aimed at `target` reaches `cluster`. */
  predicate Reaches(t: Table, target: Option<string>, cluster: Option<string>) {
    cluster == target || (target.None? && cluster.Some? && cluster.value !in t.byCluster)
  }

  function WithPhase(t: Table, target: Option<string>, phase: Phase): (t': Table)
    ensures forall c :: RouteFor(t', c) ==
                        if Reaches(t, target, c) then RouteFor(t, c).(phase := phase) else RouteFor(t, c)
  {
    match target
    case None => t.(defaultRoute := t.defaultRoute.(phase := phase))
    case Some(c) => t.(byCluster := t.byCluster[c := RouteFor(t, target).(phase := phase)])
  }

  class Router {
    var defaultRoute: Route
    var byCluster: map<string, Route>

    ghost function State(): Table
      reads this
    {
      Table(defaultRoute, byCluster)
    }

    constructor (defaultRoute: Route)
      ensures State() == Table(defaultRoute, map[])
    {
      this.defaultRoute, byCluster := defaultRoute, map[];
    }

    /** Gives a cluster an override. */
    method WithCluster(cluster: string, route: Route)
      modifies this
      ensures forall c :: RouteFor(State(), c) == if c == Some(cluster) then route else RouteFor(old(State()), c)
      ensures State() == old(State()).(byCluster := old(byCluster)[cluster := route])
    {
      byCluster := byCluster[cluster := route];
    }

    /** Sets the phase a target has from now on; a cluster without an override gets one. */
    method SetPhase(target: Option<string>, phase: Phase) returns (was: Phase)
      modifies this
      ensures State() == WithPhase(old(State()), target, phase)
      ensures was == RouteFor(old(State()), target).phase
    {
      match target
      case None =>
        was := defaultRoute.phase;
        defaultRoute := defaultRoute.(phase := phase);
      case Some(c) =>
        var route := if c in byCluster then byCluster[c] else defaultRoute;
        was := route.phase;
        byCluster := byCluster[c := route.(phase := phase)];
    }

    method RouteOf(cluster: Option<string>) returns (route: Route)
      ensures route == RouteFor(State(), cluster)
    {
      route := if cluster.Some? && cluster.value in byCluster then byCluster[cluster.value] else defaultRoute;
    }
  }

  // ---------------------------------------------------------------- buckets

  const TWO64: nat := 0x1_0000_0000_0000_0000
  const TWO32: nat := 0x1_0000_0000
  const FNV_OFFSET: nat := 0xcbf2_9ce4_8422_2325
  const FNV_PRIME: nat := 0x0000_0100_0000_01b3

  /** Bitwise exclusive or. */
  function Xor(a: nat, b: nat): nat {
    if a == 0 && b == 0 then 0 else 2 * Xor(a / 2, b / 2) + (a % 2 + b % 2) % 2
  }

  /** Exclusive or fits in as many bits as its arguments. */
  lemma {:induction false} XorFits(a: nat, b: nat, bits: nat)
    requires a < Pow2(bits) && b < Pow2(bits)
    ensures Xor(a, b) < Pow2(bits)
  {
    if bits > 0 && (a != 0 || b != 0) {
      XorFits(a / 2, b / 2, bits - 1);
    }
  }

  /** FNV-1a with 64-bit wrapping multiplication. */
  function Fnv(key: bytes): nat {
    if key == [] then FNV_OFFSET
    else Xor(Fnv(key[..|key| - 1]), key[|key| - 1]) * FNV_PRIME % TWO64
  }

  function BucketOf(h: nat): nat {
    Xor(h / TWO32, h % TWO32) % 100
  }

  function Bucket(key: bytes): (b: nat)
    ensures b < 100
  {
    BucketOf(Fnv(key))
  }

  method ComputeBucket(key: bytes) returns (b: nat)
    ensures b == Bucket(key) && b < 100
  {
    var h := FNV_OFFSET;
    for i := 0 to |key|
      invariant h == Fnv(key[..i])
    {
      assert key[..i + 1][..i] == key[..i];
      h := Xor(h, key[i]);
      h := h * FNV_PRIME % TWO64;
    }
    assert key[..|key|] == key;
    b := BucketOf(h);
  }

  lemma {:induction false} XorCommutes(a: nat, b: nat)
    ensures Xor(a, b) == Xor(b, a)
  {
    if a != 0 || b != 0 {
      XorCommutes(a / 2, b / 2);
    }
  }

  lemma {:induction false} XorOfNothing(a: nat)
    ensures Xor(a, 0) == a
  {
    if a != 0 {
      XorOfNothing(a / 2);
    }
  }

  lemma XorUnfold(a: nat, b: nat)
    ensures Xor(a, b) == 2 * Xor(a / 2, b / 2) + (a % 2 + b % 2) % 2
  {
  }

  lemma Halved(x: nat, bit: nat)
    requires bit < 2
    ensures (2 * x + bit) / 2 == x && (2 * x + bit) % 2 == bit
  {
  }

  lemma XorOfParts(c: nat, x: nat, bit: nat, b: nat)
    requires c == 2 * x + bit && bit < 2
    ensures Xor(c, b) == 2 * Xor(x, b / 2) + (bit + b % 2) % 2
  {
    Halved(x, bit);
    XorUnfold(c, b);
  }

  lemma BitTwice(a: nat, b: nat)
    ensures ((a % 2 + b % 2) % 2 + b % 2) % 2 == a % 2
  {
  }

  lemma XorTwice(a: nat, b: nat, c: nat, x: nat)
    requires c == 2 * x + (a % 2 + b % 2) % 2
    ensures Xor(c, b) == 2 * Xor(x, b / 2) + a % 2
  {
    XorOfParts(c, x, (a % 2 + b % 2) % 2, b);
    BitTwice(a, b);
  }

  /** Exclusive or undoes itself. */
  lemma {:induction false} XorUndoes(a: nat, b: nat)
    ensures Xor(Xor(a, b), b) == a
    decreases a + b
  {
    if a != 0 || b != 0 {
      XorUndoes(a / 2, b / 2);
      XorUnfold(a, b);
      XorTwice(a, b, Xor(a, b), Xor(a / 2, b / 2));
    }
  }

  /** Both halves of the hash count alike: exchanging them changes nothing, either one alone decides by its
      remainder, and equal halves cancel. */
  lemma HalvesCountAlike(high: nat, low: nat)
    requires high < TWO32 && low < TWO32
    ensures BucketOf(high * TWO32 + low) == BucketOf(low * TWO32 + high)
    ensures BucketOf(high * TWO32) == high % 100 && BucketOf(low) == low % 100
    ensures BucketOf(low * TWO32 + low) == 0
  {
    Halves(high, low);
    Halves(low, high);
    Halves(high, 0);
    Halves(0, low);
    Halves(low, low);
    XorCommutes(high, low);
    XorCommutes(0, low);
    XorOfNothing(high);
    XorOfNothing(low);
    XorUndoes(0, low);
    XorCommutes(0, low);
  }

  lemma Halves(high: nat, low: nat)
    requires low < TWO32
    ensures (high * TWO32 + low) / TWO32 == high && (high * TWO32 + low) % TWO32 == low
  {
  }

  lemma LowByteOfOffset()
    ensures FNV_OFFSET % 256 == 0x25
  {
  }

  lemma FirstStep(b: byte)
    ensures Fnv([b]) == Xor(FNV_OFFSET, b) * FNV_PRIME % TWO64
  {
    assert [b][..0] == [];
  }

  lemma FnvOfOne(b: byte, x: nat)
    requires x == Xor(0x25, b)
    ensures Fnv([b]) == (FNV_OFFSET - 0x25 + x) * FNV_PRIME % TWO64
  {
    FirstStep(b);
    LowByteOfOffset();
    XorLowByte(FNV_OFFSET, b);
  }

  /** The published values for no input, for "a" and for "b". */
  lemma KnownHashes(key: bytes)
    ensures key == [] ==> Fnv(key) == 0xcbf2_9ce4_8422_2325
    ensures key == [97] ==> Fnv(key) == 0xaf63_dc4c_8601_ec8c
    ensures key == [98] ==> Fnv(key) == 0xaf63_df4c_8601_f1a5
  {
    if |key| == 1 {
      assert key == [key[0]];
      FnvOfOne(key[0], Xor(0x25, key[0]));
      XorByHand();
      Products();
    }
  }

  lemma Products()
    ensures (FNV_OFFSET - 0x25 + 0x44) * FNV_PRIME % TWO64 == 0xaf63_dc4c_8601_ec8c
    ensures (FNV_OFFSET - 0x25 + 0x47) * FNV_PRIME % TWO64 == 0xaf63_df4c_8601_f1a5
  {
  }

  lemma XorByHand()
    ensures Xor(0x25, 97) == 0x44 && Xor(0x25, 98) == 0x47
  {
    assert Xor(0, 1) == 1 && Xor(1, 3) == 2 && Xor(2, 6) == 4 && Xor(4, 12) == 8;
    assert Xor(9, 24) == 17 && Xor(18, 48) == 34 && Xor(0x25, 97) == 68;
    assert Xor(18, 49) == 35 && Xor(0x25, 98) == 71;
  }

  /** A byte changes only the low byte. */
  lemma XorLowByte(a: nat, b: nat)
    requires b < 256
    ensures Xor(a, b) == a - a % 256 + Xor(a % 256, b)
  {
    XorLowBits(a, b, 8);
    assert Pow2(8) == 256;
  }

  lemma {:induction false} XorLowBits(a: nat, b: nat, bits: nat)
    requires b < Pow2(bits)
    ensures Xor(a, b) == a - a % Pow2(bits) + Xor(a % Pow2(bits), b)
  {
    if bits == 0 {
      XorOfNothing(a);
    } else {
      var p, bit := Pow2(bits - 1), (a % 2 + b % 2) % 2;
      var low := a / 2 % p;
      XorLowBits(a / 2, b / 2, bits - 1);
      LowBits(a, p);
      Halved(low, a % 2);
      XorUnfold(a, b);
      XorUnfold(a % (2 * p), b);
      assert Xor(a, b) == 2 * (a / 2 - low + Xor(low, b / 2)) + bit;
    }
  }

  /** The remainder by twice `p`, by way of the half. */
  lemma LowBits(a: nat, p: nat)
    requires p > 0
    ensures a % (2 * p) == 2 * (a / 2 % p) + a % 2
  {
    var h := a / 2;
    var q, r := h / p, h % p;
    assert h == p * q + r;
    assert a == 2 * h + a % 2;
    TwiceAsMany(p, q);
    Remainder(a, 2 * p, q, 2 * r + a % 2);
  }

  lemma TwiceAsMany(p: nat, q: nat)
    ensures 2 * (p * q) == (2 * p) * q
  {
  }

  lemma Remainder(a: nat, m: nat, q: nat, r: nat)
    requires m > 0 && r < m && a == m * q + r
    ensures a % m == r
  {
    var q' := a / m;
    assert a == m * q' + a % m;
    if q < q' {
      AtLeastOnce(m, q, q');
    } else if q' < q {
      AtLeastOnce(m, q', q);
    }
  }

  lemma AtLeastOnce(m: nat, q: nat, q': nat)
    requires q < q'
    ensures m * q + m <= m * q'
  {
    var k := q' - q;
    assert m * q' == m * q + m * k;
    AtLeastItself(m, k);
  }

  lemma AtLeastItself(m: nat, k: nat)
    requires k > 0
    ensures m * k >= m
  {
    assert m * k == m * (k - 1) + m;
  }

  /** The hash is a 64-bit word before and after every multiplication. */
  lemma {:induction false} FnvIsAWord(key: bytes)
    ensures Fnv(key) < TWO64
    ensures key != [] ==> Xor(Fnv(key[..|key| - 1]), key[|key| - 1]) < TWO64
  {
    if key != [] {
      FnvIsAWord(key[..|key| - 1]);
      Pow2Is64();
      XorFits(Fnv(key[..|key| - 1]), key[|key| - 1], 64);
    }
  }

  lemma Pow2Is64()
    ensures Pow2(64) == TWO64
  {
    Pow2Adds(8, 8);
    Pow2Adds(16, 16);
    Pow2Adds(32, 32);
    assert Pow2(8) == 256;
    assert 256 * 256 == 65536;
    assert 65536 * 65536 == TWO32;
    assert TWO32 * TWO32 == TWO64;
  }

  lemma {:induction false} Pow2Adds(a: nat, b: nat)
    ensures Pow2(a + b) == Pow2(a) * Pow2(b)
  {
    if a > 0 {
      Pow2Adds(a - 1, b);
      assert Pow2(a + b) == 2 * Pow2(a - 1 + b);
    }
  }

  // ---------------------------------------------------------------- decisions

  function Decide(t: Table, cluster: Option<string>, key: bytes): Decision {
    var route := RouteFor(t, cluster);
    var (serve, mirror) :=
      match route.phase
      case Off => (route.incumbent, None)
      case Shadow => (route.incumbent, Some(route.candidate))
      case Cut => (route.candidate, None)
      case Split(toCandidate) => (if toCandidate then route.candidate else route.incumbent, None)
      case Canary(percent) =>
        if Bucket(key) < (if percent < 100 then percent else 100) then (route.candidate, None)
        else (route.incumbent, Some(route.candidate));
    var fallback := if route.failover && serve.name == route.candidate.name then Some(route.incumbent) else None;
    Decision(serve, mirror, fallback)
  }

  /** Whether the candidate's slot of the route serves the request. */
  predicate CandidateServes(t: Table, cluster: Option<string>, key: bytes) {
    Bucket(key) < Share(t, cluster)
  }

  /** Routing is one threshold rule, for every phase. */
  lemma RoutingIsOneThreshold(t: Table, cluster: Option<string>, key: bytes)
    ensures var route, d := RouteFor(t, cluster), Decide(t, cluster, key);
            && d.serve == (if CandidateServes(t, cluster, key) then route.candidate else route.incumbent)
            && (d.mirror.Some? ==> d.mirror == Some(route.candidate) && !CandidateServes(t, cluster, key))
            && (d.mirror.Some? <==> route.phase.Shadow? || (route.phase.Canary? && !CandidateServes(t, cluster, key)))
            && (d.fallback.Some? ==> route.failover && d.fallback == Some(route.incumbent))
  {
  }

  /** What each phase does with every request: all to the incumbent, all to the candidate, or by the bucket; a
      split sends a cluster whole to the side it names. */
  lemma PhasesServe(route: Route, key: bytes)
    ensures var at := (p: Phase) => Decide(Table(route.(phase := p), map[]), None, key);
      && at(Off).serve == route.incumbent && at(Off).mirror.None?
      && at(Shadow).serve == route.incumbent && at(Shadow).mirror == Some(route.candidate)
      && at(Cut).serve == route.candidate && at(Cut).mirror.None?
      && at(Split(true)).serve == route.candidate && at(Split(true)).mirror.None?
      && at(Split(false)).serve == route.incumbent && at(Split(false)).mirror.None?
      && at(Canary(0)).serve == route.incumbent && at(Canary(100)).serve == route.candidate
  {
  }

  /** Every request that is not served by the candidate during a rollout is still compared with it. */
  lemma RolloutLosesNoComparison(t: Table, cluster: Option<string>, key: bytes)
    requires var p := RouteFor(t, cluster).phase; p.Shadow? || p.Canary?
    ensures CandidateServes(t, cluster, key) <==> Decide(t, cluster, key).mirror.None?
  {
  }

  /** Raising the share never takes a key off the candidate. */
  lemma RaisingKeepsKeys(t: Table, t': Table, cluster: Option<string>, key: bytes)
    requires Share(t, cluster) <= Share(t', cluster)
    ensures CandidateServes(t, cluster, key) ==> CandidateServes(t', cluster, key)
  {
  }

  /** A request the incumbent serves has no fallback, exactly unless failover is on and both backends
      go by the same name: the code compares names, not slots. */
  lemma IncumbentHasNoFallbackExactly(t: Table, cluster: Option<string>, key: bytes)
    requires !CandidateServes(t, cluster, key)
    ensures var route := RouteFor(t, cluster);
            Decide(t, cluster, key).fallback.None? <==>
            !(route.failover && route.incumbent.name == route.candidate.name)
  {
  }

  lemma SameNameFallsBackToItself()
    ensures var b := Backend("m", "https://a/v1", None);
            var t := Table(Route(b, b.(baseUrl := "https://b/v1"), Off, true), map[]);
            Decide(t, None, []).serve == b && Decide(t, None, []).fallback == Some(b)
  {
  }
}
