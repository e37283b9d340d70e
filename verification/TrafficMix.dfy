/**
  Traffic mixes and the distance between them: half the summed differences of the normalised shares,
  which is the largest change in share of any group of task shapes.
 */
module TrafficMix {
  /** Volume or share by task shape. */
  type Mix = map<string, real>

  // ------------------------------------------------------------------ sums over finite sets

  ghost function Sum(keys: set<string>, f: string -> real): real {
    if keys == {} then 0.0 else
    var k :| k in keys;
    f(k) + Sum(keys - {k}, f)
  }

  lemma {:induction false} SumTake(keys: set<string>, f: string -> real, x: string)
    requires x in keys
    ensures Sum(keys, f) == f(x) + Sum(keys - {x}, f)
  {
    var k :| k in keys && Sum(keys, f) == f(k) + Sum(keys - {k}, f);
    if k != x {
      SumTake(keys - {k}, f, x);
      SumTake(keys - {x}, f, k);
      assert keys - {k} - {x} == keys - {x} - {k};
    }
  }

  lemma {:induction false} SumAdd(keys: set<string>, f: string -> real, g: string -> real, h: string -> real)
    requires forall k :: k in keys ==> h(k) == f(k) + g(k)
    ensures Sum(keys, h) == Sum(keys, f) + Sum(keys, g)
  {
    if keys != {} {
      var x :| x in keys;
      SumTake(keys, f, x);
      SumTake(keys, g, x);
      SumTake(keys, h, x);
      SumAdd(keys - {x}, f, g, h);
    }
  }

  lemma {:induction false} SumScale(keys: set<string>, f: string -> real, c: real, h: string -> real)
    requires forall k :: k in keys ==> h(k) == c * f(k)
    ensures Sum(keys, h) == c * Sum(keys, f)
  {
    if keys != {} {
      var x :| x in keys;
      SumTake(keys, f, x);
      SumTake(keys, h, x);
      SumScale(keys - {x}, f, c, h);
    }
  }

  lemma {:induction false} SumAtMost(keys: set<string>, f: string -> real, g: string -> real)
    requires forall k :: k in keys ==> f(k) <= g(k)
    ensures Sum(keys, f) <= Sum(keys, g)
  {
    if keys != {} {
      var x :| x in keys;
      SumTake(keys, f, x);
      SumTake(keys, g, x);
      SumAtMost(keys - {x}, f, g);
    }
  }

  lemma SumSame(keys: set<string>, f: string -> real, g: string -> real)
    requires forall k :: k in keys ==> f(k) == g(k)
    ensures Sum(keys, f) == Sum(keys, g)
  {
    SumAtMost(keys, f, g);
    SumAtMost(keys, g, f);
  }

  lemma {:induction false} SumSplit(a: set<string>, b: set<string>, f: string -> real)
    requires a !! b
    ensures Sum(a + b, f) == Sum(a, f) + Sum(b, f)
  {
    if a == {} {
      assert a + b == b;
    } else {
      var x :| x in a;
      SumTake(a, f, x);
      SumTake(a + b, f, x);
      assert a + b - {x} == (a - {x}) + b;
      SumSplit(a - {x}, b, f);
    }
  }

  lemma {:induction false} SumZero(keys: set<string>, f: string -> real)
    requires forall k :: k in keys ==> f(k) == 0.0
    ensures Sum(keys, f) == 0.0
  {
    if keys != {} {
      var x :| x in keys;
      SumTake(keys, f, x);
      SumZero(keys - {x}, f);
    }
  }

  /** Keys where nothing is counted do not matter. */
  lemma SumWidens(a: set<string>, wide: set<string>, f: string -> real)
    requires a <= wide && forall k :: k in wide - a ==> f(k) == 0.0
    ensures Sum(a, f) == Sum(wide, f)
  {
    SumSplit(a, wide - a, f);
    SumZero(wide - a, f);
    assert a + (wide - a) == wide;
  }

  // ------------------------------------------------------------------ mixes

  function Get(m: Mix, k: string): real {
    if k in m then m[k] else 0.0
  }

  function Volume(m: Mix): string -> real {
    k => Get(m, k)
  }

  ghost function Mass(m: Mix): real {
    Sum(m.Keys, Volume(m))
  }

  ghost function Shares(m: Mix): string -> real {
    k => if Mass(m) == 0.0 then 0.0 else Get(m, k) / Mass(m)
  }

  function Abs(x: real): real { if x < 0.0 then -x else x }

  function Gap(p: string -> real, q: string -> real): string -> real {
    k => Abs(p(k) - q(k))
  }

  ghost function Distance(before: Mix, now: Mix): real {
    if Mass(before) <= 0.0 || Mass(now) <= 0.0 then 0.0
    else 0.5 * Sum(before.Keys + now.Keys, Gap(Shares(before), Shares(now)))
  }

  method SumValues(m: Mix) returns (s: real)
    ensures s == Mass(m)
  {
    s := 0.0;
    var rest := m.Keys;
    while rest != {}
      invariant rest <= m.Keys
      invariant s + Sum(rest, Volume(m)) == Mass(m)
      decreases |rest|
    {
      var k :| k in rest;
      SumTake(rest, Volume(m), k);
      s := s + m[k];
      rest := rest - {k};
    }
  }

  method TrafficDistance(before: Mix, now: Mix) returns (d: real)
    ensures d == Distance(before, now)
  {
    var a := SumValues(before);
    var b := SumValues(now);
    if a <= 0.0 || b <= 0.0 {
      return 0.0;
    }
    var sum := SumGaps(before, now, a, b);
    return 0.5 * sum;
  }

  method SumGaps(before: Mix, now: Mix, a: real, b: real) returns (sum: real)
    requires a == Mass(before) > 0.0 && b == Mass(now) > 0.0
    ensures sum == Sum(before.Keys + now.Keys, Gap(Shares(before), Shares(now)))
  {
    ghost var keys, gap := before.Keys + now.Keys, Gap(Shares(before), Shares(now));
    var rest := before.Keys + now.Keys;
    sum := 0.0;
    while rest != {}
      invariant sum + Sum(rest, gap) == Sum(keys, gap)
      decreases |rest|
    {
      var k :| k in rest;
      SumTake(rest, gap, k);
      var difference := GapAt(before, now, a, b, k);
      sum := sum + difference;
      rest := rest - {k};
    }
  }

  method GapAt(before: Mix, now: Mix, a: real, b: real, k: string) returns (difference: real)
    requires a == Mass(before) > 0.0 && b == Mass(now) > 0.0
    ensures difference == Gap(Shares(before), Shares(now))(k)
  {
    assert Shares(before)(k) == Get(before, k) / a;
    assert Shares(now)(k) == Get(now, k) / b;
    difference := Abs(Get(before, k) / a - Get(now, k) / b);
  }

  // ------------------------------------------------------------------ what the distance means

  /** A mix that can be normalised: no negative volume, and some volume. */
  ghost predicate Proper(m: Mix) {
    (forall k :: k in m ==> m[k] >= 0.0) && Mass(m) > 0.0
  }

  lemma Divided(x: real, z: real, y: real)
    requires y > 0.0
    ensures x / y + z / y == (x + z) / y && y / y == 1.0 && 0.0 / y == 0.0
    ensures x >= 0.0 ==> x / y >= 0.0
  {
  }

  lemma {:induction false} SumDivide(keys: set<string>, f: string -> real, y: real, h: string -> real)
    requires y > 0.0 && forall k :: k in keys ==> h(k) == f(k) / y
    ensures Sum(keys, h) == Sum(keys, f) / y
  {
    Divided(0.0, 0.0, y);
    if keys != {} {
      var x :| x in keys;
      SumTake(keys, f, x);
      SumTake(keys, h, x);
      SumDivide(keys - {x}, f, y, h);
      Divided(f(x), Sum(keys - {x}, f), y);
    }
  }

  lemma SharesSumToOne(m: Mix, keys: set<string>)
    requires Proper(m) && m.Keys <= keys
    ensures Sum(keys, Shares(m)) == 1.0
    ensures forall k :: Shares(m)(k) >= 0.0
  {
    SumWidens(m.Keys, keys, Volume(m));
    SumDivide(keys, Volume(m), Mass(m), Shares(m));
    Divided(1.0, 1.0, Mass(m));
    forall k ensures Shares(m)(k) >= 0.0 {
      Divided(Get(m, k), 0.0, Mass(m));
    }
  }

  /** A task shape in neither mix has no share of either. */
  lemma NoGapOutside(a: Mix, b: Mix, k: string)
    requires Proper(a) && Proper(b) && k !in a && k !in b
    ensures Gap(Shares(a), Shares(b))(k) == 0.0
  {
    NoShareOutside(a, k);
    NoShareOutside(b, k);
    GapIsZero(Shares(a), Shares(b), k);
  }

  /** The distance over any set of task shapes that covers both mixes. */
  lemma DistanceOver(a: Mix, b: Mix, keys: set<string>)
    requires Proper(a) && Proper(b) && a.Keys + b.Keys <= keys
    ensures Distance(a, b) == 0.5 * Sum(keys, Gap(Shares(a), Shares(b)))
  {
    var both, gap := a.Keys + b.Keys, Gap(Shares(a), Shares(b));
    forall k | k in keys - both
      ensures gap(k) == 0.0
    {
      NoGapOutside(a, b, k);
    }
    SumWidens(both, keys, gap);
  }

  lemma DistanceIsSymmetric(a: Mix, b: Mix)
    ensures Distance(a, b) == Distance(b, a)
  {
    if Mass(a) > 0.0 && Mass(b) > 0.0 {
      assert a.Keys + b.Keys == b.Keys + a.Keys;
      SumSame(a.Keys + b.Keys, Gap(Shares(a), Shares(b)), Gap(Shares(b), Shares(a)));
    }
  }

  function Neither(): string -> real { k => 0.0 }

  lemma GapWithin(keys: set<string>, p: string -> real, q: string -> real)
    requires forall k :: k in keys ==> p(k) >= 0.0 && q(k) >= 0.0
    ensures 0.0 <= Sum(keys, Gap(p, q)) <= Sum(keys, p) + Sum(keys, q)
  {
    var both := k => p(k) + q(k);
    SumAdd(keys, p, q, both);
    SumAtMost(keys, Gap(p, q), both);
    SumZero(keys, Neither());
    SumAtMost(keys, Neither(), Gap(p, q));
  }

  lemma DistanceIsAShare(a: Mix, b: Mix)
    requires Proper(a) && Proper(b)
    ensures 0.0 <= Distance(a, b) <= 1.0
  {
    SharesSumToOne(a, a.Keys + b.Keys);
    SharesSumToOne(b, a.Keys + b.Keys);
    GapWithin(a.Keys + b.Keys, Shares(a), Shares(b));
  }

  lemma GapByWayOf(keys: set<string>, p: string -> real, q: string -> real, r: string -> real)
    ensures Sum(keys, Gap(p, r)) <= Sum(keys, Gap(p, q)) + Sum(keys, Gap(q, r))
  {
    var detour := k => Gap(p, q)(k) + Gap(q, r)(k);
    SumAdd(keys, Gap(p, q), Gap(q, r), detour);
    SumAtMost(keys, Gap(p, r), detour);
  }

  lemma TriangleInequality(a: Mix, b: Mix, c: Mix)
    requires Proper(a) && Proper(b) && Proper(c)
    ensures Distance(a, c) <= Distance(a, b) + Distance(b, c)
  {
    var keys := a.Keys + b.Keys + c.Keys;
    DistanceOver(a, b, keys);
    DistanceOver(b, c, keys);
    DistanceOver(a, c, keys);
    GapByWayOf(keys, Shares(a), Shares(b), Shares(c));
  }

  lemma ZeroSum(keys: set<string>, f: string -> real)
    requires forall k :: k in keys ==> f(k) >= 0.0
    ensures Sum(keys, f) == 0.0 <==> forall k :: k in keys ==> f(k) == 0.0
  {
    if Sum(keys, f) == 0.0 {
      forall k | k in keys ensures f(k) == 0.0 {
        SumTake(keys, f, k);
        SumZero(keys - {k}, Neither());
        SumAtMost(keys - {k}, Neither(), f);
      }
    }
    if forall k :: k in keys ==> f(k) == 0.0 {
      SumZero(keys, f);
    }
  }

  lemma NoShareOutside(m: Mix, k: string)
    requires Proper(m) && k !in m
    ensures Shares(m)(k) == 0.0
  {
    Divided(0.0, 0.0, Mass(m));
  }

  lemma GapIsZero(p: string -> real, q: string -> real, k: string)
    ensures Gap(p, q)(k) >= 0.0 && (Gap(p, q)(k) == 0.0 <==> p(k) == q(k))
  {
    var d := p(k) - q(k);
    assert Gap(p, q)(k) == Abs(d);
  }

  ghost predicate SameShares(a: Mix, b: Mix) {
    forall k :: Shares(a)(k) == Shares(b)(k)
  }

  /** Zero exactly when every task shape has the same share in both. */
  lemma ZeroExactly(a: Mix, b: Mix)
    requires Proper(a) && Proper(b)
    ensures Distance(a, b) == 0.0 <==> SameShares(a, b)
  {
    var keys, gap := a.Keys + b.Keys, Gap(Shares(a), Shares(b));
    forall k
      ensures gap(k) >= 0.0 && (gap(k) == 0.0 <==> Shares(a)(k) == Shares(b)(k))
      ensures k !in keys ==> gap(k) == 0.0
    {
      GapIsZero(Shares(a), Shares(b), k);
      if k !in keys {
        NoGapOutside(a, b, k);
      }
    }
    ZeroSum(keys, gap);
  }

  function Scaled(m: Mix, c: real): Mix {
    map k | k in m :: c * m[k]
  }

  lemma ScalingKeepsShares(m: Mix, c: real)
    requires Proper(m) && c > 0.0
    ensures Proper(Scaled(m, c)) && Scaled(m, c).Keys == m.Keys
    ensures forall k :: Shares(Scaled(m, c))(k) == Shares(m)(k)
  {
    var s := Scaled(m, c);
    assert s.Keys == m.Keys;
    SumScale(m.Keys, Volume(m), c, Volume(s));
    Ratio(c, 0.0, Mass(m));
    forall k ensures Shares(s)(k) == Shares(m)(k) {
      Ratio(c, Get(m, k), Mass(m));
      assert Get(s, k) == c * Get(m, k);
    }
    forall k | k in s ensures s[k] >= 0.0 {
      assert m[k] >= 0.0;
    }
  }

  lemma Ratio(c: real, x: real, y: real)
    requires c > 0.0 && y > 0.0
    ensures c * y > 0.0 && (c * x) / (c * y) == x / y
  {
    var r, z := x / y, (c * x) / (c * y);
    assert r * y == x;
    assert r * (c * y) == c * (r * y);
    assert z * (c * y) == c * x;
    SameFactor(c * y, r, z);
  }

  lemma PositiveProduct(x: real, y: real)
    requires x > 0.0 && y > 0.0
    ensures x * y > 0.0
  {
  }

  lemma SameFactor(a: real, u: real, v: real)
    requires a > 0.0 && u * a == v * a
    ensures u == v
  {
    if u < v { PositiveProduct(v - u, a); }
    if v < u { PositiveProduct(u - v, a); }
  }

  /** Only the mixes matter, not the sizes of the samples. */
  lemma ScaleInvariant(a: Mix, b: Mix, c: real, d: real)
    requires Proper(a) && Proper(b) && c > 0.0 && d > 0.0
    ensures Distance(Scaled(a, c), Scaled(b, d)) == Distance(a, b)
  {
    ScalingKeepsShares(a, c);
    ScalingKeepsShares(b, d);
    SumSame(a.Keys + b.Keys, Gap(Shares(a), Shares(b)), Gap(Shares(Scaled(a, c)), Shares(Scaled(b, d))));
  }

  // ------------------------------------------------------------------ groups of task shapes

  function Excess(p: string -> real, q: string -> real): string -> real {
    k => q(k) - p(k)
  }

  lemma SumOfExcess(keys: set<string>, p: string -> real, q: string -> real)
    ensures Sum(keys, Excess(p, q)) == Sum(keys, q) - Sum(keys, p)
  {
    SumAdd(keys, p, Excess(p, q), q);
  }

  /** What a group gained is half of what it and the others changed by. */
  lemma GroupGain(group: set<string>, others: set<string>, p: string -> real, q: string -> real)
    requires group !! others && Sum(group + others, p) == Sum(group + others, q)
    ensures Sum(group, q) - Sum(group, p) == 0.5 * (Sum(group, Excess(p, q)) + Sum(others, Excess(q, p)))
    ensures Sum(group + others, Gap(p, q)) == Sum(group, Gap(p, q)) + Sum(others, Gap(p, q))
  {
    SumSplit(group, others, p);
    SumSplit(group, others, q);
    SumSplit(group, others, Gap(p, q));
    SumOfExcess(group, p, q);
    SumOfExcess(others, q, p);
  }

  /** No group of task shapes gained more of the volume than the distance. */
  lemma NoGroupGainedMore(a: Mix, b: Mix, group: set<string>)
    requires Proper(a) && Proper(b)
    ensures Sum(group, Shares(b)) - Sum(group, Shares(a)) <= Distance(a, b)
  {
    var others := a.Keys + b.Keys - group;
    DistanceOver(a, b, group + others);
    SharesSumToOne(a, group + others);
    SharesSumToOne(b, group + others);
    GainAtMostHalfTheGap(group, others, Shares(a), Shares(b));
  }

  lemma GainAtMostHalfTheGap(group: set<string>, others: set<string>, p: string -> real, q: string -> real)
    requires group !! others && Sum(group + others, p) == Sum(group + others, q)
    ensures Sum(group, q) - Sum(group, p) <= 0.5 * Sum(group + others, Gap(p, q))
  {
    GroupGain(group, others, p, q);
    SumAtMost(group, Excess(p, q), Gap(p, q));
    SumAtMost(others, Excess(q, p), Gap(p, q));
  }

  lemma GainersGainHalfTheGap(keys: set<string>, p: string -> real, q: string -> real) returns (group: set<string>)
    requires Sum(keys, p) == Sum(keys, q)
    ensures group <= keys && Sum(group, q) - Sum(group, p) == 0.5 * Sum(keys, Gap(p, q))
  {
    group := set k | k in keys && q(k) > p(k);
    var others := keys - group;
    assert group + others == keys;
    GroupGain(group, others, p, q);
    SumSame(group, Excess(p, q), Gap(p, q));
    SumSame(others, Excess(q, p), Gap(p, q));
  }

  /** And one group gained exactly that: the distance is the largest such gain. */
  lemma SomeGroupGainedIt(a: Mix, b: Mix) returns (group: set<string>)
    requires Proper(a) && Proper(b)
    ensures Sum(group, Shares(b)) - Sum(group, Shares(a)) == Distance(a, b)
  {
    SharesSumToOne(a, a.Keys + b.Keys);
    SharesSumToOne(b, a.Keys + b.Keys);
    group := GainersGainHalfTheGap(a.Keys + b.Keys, Shares(a), Shares(b));
  }
}
