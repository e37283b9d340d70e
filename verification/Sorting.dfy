/** A stable sort: the one every `sorted` and `list.sort` of the system relies on. */
module Sorting {
  ghost predicate TotalPreorder<T(!new)>(leq: (T, T) -> bool) {
    && (forall a, b :: leq(a, b) || leq(b, a))
    && (forall a, b, c :: leq(a, b) && leq(b, c) ==> leq(a, c))
  }

  ghost predicate Ordered<T>(s: seq<T>, leq: (T, T) -> bool) {
    forall i, j :: 0 <= i < j < |s| ==> leq(s[i], s[j])
  }

  /** Put `x` ahead of the first element it does not exceed. */
  function Insert<T>(x: T, s: seq<T>, leq: (T, T) -> bool): seq<T> {
    if s == [] || leq(x, s[0]) then [x] + s else [s[0]] + Insert(x, s[1..], leq)
  }

  function Sort<T>(s: seq<T>, leq: (T, T) -> bool): seq<T> {
    if s == [] then [] else Insert(s[0], Sort(s[1..], leq), leq)
  }

  function Peer<T>(x: T, y: T, leq: (T, T) -> bool): seq<T> {
    if leq(y, x) && leq(x, y) then [x] else []
  }

  /** The elements that rank with `x`, in their order in `s`. */
  function Peers<T>(s: seq<T>, x: T, leq: (T, T) -> bool): seq<T> {
    if s == [] then []
    else Peer(s[0], x, leq) + Peers(s[1..], x, leq)
  }

  lemma {:induction false} InsertAdds<T>(x: T, s: seq<T>, leq: (T, T) -> bool)
    ensures multiset(Insert(x, s, leq)) == multiset(s) + multiset{x}
  {
    if s != [] && !leq(x, s[0]) {
      InsertAdds(x, s[1..], leq);
      assert s == [s[0]] + s[1..];
    }
  }

  lemma {:induction false} SortPermutes<T>(s: seq<T>, leq: (T, T) -> bool)
    ensures multiset(Sort(s, leq)) == multiset(s)
    ensures |Sort(s, leq)| == |s|
    ensures forall x :: x in Sort(s, leq) <==> x in s
  {
    if s != [] {
      SortPermutes(s[1..], leq);
      InsertAdds(s[0], Sort(s[1..], leq), leq);
      assert s == [s[0]] + s[1..];
    }
    SameContents(Sort(s, leq), s);
  }

  lemma SameContents<T>(s: seq<T>, t: seq<T>)
    requires multiset(s) == multiset(t)
    ensures |s| == |t|
    ensures forall x :: x in s <==> x in t
  {
    assert |multiset(s)| == |s| && |multiset(t)| == |t|;
    forall x ensures x in s <==> x in t {
      assert x in s <==> x in multiset(s);
      assert x in t <==> x in multiset(t);
    }
  }

  lemma {:induction false} InsertKeepsOrder<T(!new)>(x: T, s: seq<T>, leq: (T, T) -> bool)
    requires TotalPreorder(leq) && Ordered(s, leq)
    ensures Ordered(Insert(x, s, leq), leq)
  {
    if s != [] && !leq(x, s[0]) {
      InsertKeepsOrder(x, s[1..], leq);
      InsertAdds(x, s[1..], leq);
      var rest := Insert(x, s[1..], leq);
      forall j | 0 <= j < |rest| ensures leq(s[0], rest[j]) {
        assert rest[j] in multiset(rest);
        assert rest[j] in multiset(s[1..]) || rest[j] == x;
      }
    }
  }

  lemma {:induction false} SortOrders<T(!new)>(s: seq<T>, leq: (T, T) -> bool)
    requires TotalPreorder(leq)
    ensures Ordered(Sort(s, leq), leq)
  {
    if s != [] {
      SortOrders(s[1..], leq);
      InsertKeepsOrder(s[0], Sort(s[1..], leq), leq);
    }
  }

  lemma PeersCons<T>(x: T, s: seq<T>, y: T, leq: (T, T) -> bool)
    ensures Peers([x] + s, y, leq) == Peer(x, y, leq) + Peers(s, y, leq)
  {
    assert ([x] + s)[1..] == s;
  }

  lemma PassedOverIsNoPeer<T(!new)>(x: T, z: T, y: T, leq: (T, T) -> bool)
    requires TotalPreorder(leq) && !leq(x, z)
    ensures Peer(x, y, leq) == [] || Peer(z, y, leq) == []
  {
  }

  lemma {:induction false} InsertLeadsItsPeers<T(!new)>(x: T, s: seq<T>, leq: (T, T) -> bool, y: T)
    requires TotalPreorder(leq)
    ensures Peers(Insert(x, s, leq), y, leq) == Peer(x, y, leq) + Peers(s, y, leq)
  {
    PeersCons(x, s, y, leq);
    if s != [] && !leq(x, s[0]) {
      InsertLeadsItsPeers(x, s[1..], leq, y);
      PeersCons(s[0], Insert(x, s[1..], leq), y, leq);
      PassedOverIsNoPeer(x, s[0], y, leq);
    }
  }

  /** Elements of equal rank keep their order. */
  lemma {:induction false} SortIsStable<T(!new)>(s: seq<T>, leq: (T, T) -> bool, y: T)
    requires TotalPreorder(leq)
    ensures Peers(Sort(s, leq), y, leq) == Peers(s, y, leq)
  {
    if s != [] {
      SortIsStable(s[1..], leq, y);
      InsertLeadsItsPeers(s[0], Sort(s[1..], leq), leq, y);
    }
  }

  ghost predicate SamePeers<T(!new)>(s: seq<T>, t: seq<T>, leq: (T, T) -> bool) {
    forall x :: Peers(s, x, leq) == Peers(t, x, leq)
  }

  lemma {:induction false} PeersAreMembers<T>(s: seq<T>, x: T, leq: (T, T) -> bool)
    ensures forall y :: y in Peers(s, x, leq) ==> y in s
  {
    if s != [] {
      PeersAreMembers(s[1..], x, leq);
    }
  }

  lemma PeersNeedMembers<T(!new)>(s: seq<T>, t: seq<T>, leq: (T, T) -> bool)
    requires TotalPreorder(leq) && s != [] && SamePeers(t, s, leq)
    ensures t != []
  {
    assert Peers(t, s[0], leq) == Peers(s, s[0], leq);
  }

  lemma HeadIsLeast<T(!new)>(s: seq<T>, x: T, leq: (T, T) -> bool)
    requires TotalPreorder(leq) && Ordered(s, leq) && x in s
    ensures leq(s[0], x)
  {
    var k :| 0 <= k < |s| && s[k] == x;
    assert leq(x, x) || leq(x, x);
  }

  lemma {:induction false} OrderedSamePeers<T(!new)>(s: seq<T>, t: seq<T>, leq: (T, T) -> bool)
    requires TotalPreorder(leq) && Ordered(s, leq) && Ordered(t, leq) && SamePeers(s, t, leq)
    ensures s == t
  {
    if s == [] {
      if t != [] {
        PeersNeedMembers(t, s, leq);
      }
    } else {
      var x := s[0];
      assert Peers(s, x, leq)[0] == x && Peers(s, x, leq) == Peers(t, x, leq);
      PeersAreMembers(t, x, leq);
      assert x in t;
      HeadIsLeast(t, x, leq);
      assert Peers(t, t[0], leq)[0] == t[0] && Peers(s, t[0], leq) == Peers(t, t[0], leq);
      PeersAreMembers(s, t[0], leq);
      HeadIsLeast(s, t[0], leq);
      assert Peers(t, x, leq)[0] == t[0];
      forall y ensures Peers(s[1..], y, leq) == Peers(t[1..], y, leq) {
        var head := Peer(x, y, leq);
        assert Peers(s, y, leq) == head + Peers(s[1..], y, leq);
        assert Peers(t, y, leq) == head + Peers(t[1..], y, leq);
        assert Peers(s[1..], y, leq) == Peers(s, y, leq)[|head|..];
      }
      OrderedSamePeers(s[1..], t[1..], leq);
      assert s == [x] + s[1..] && t == [x] + t[1..];
    }
  }

  /** Being ordered and stable leaves no choice: any such arrangement of `s` is Sort(s). */
  lemma StableOrderIsUnique<T(!new)>(s: seq<T>, t: seq<T>, leq: (T, T) -> bool)
    requires TotalPreorder(leq)
    ensures Ordered(t, leq) && SamePeers(s, t, leq) <==> t == Sort(s, leq)
  {
    SortOrders(s, leq);
    forall y ensures Peers(Sort(s, leq), y, leq) == Peers(s, y, leq) {
      SortIsStable(s, leq, y);
    }
    if Ordered(t, leq) && SamePeers(s, t, leq) {
      OrderedSamePeers(t, Sort(s, leq), leq);
    }
  }

  /** One occurrence of `x` taken out of a sequence. */
  lemma TakeOut<T>(t: seq<T>, x: T) returns (a: seq<T>, b: seq<T>)
    requires x in t
    ensures t == a + ([x] + b) && multiset(t) == multiset{x} + multiset(a + b)
  {
    var k :| 0 <= k < |t| && t[k] == x;
    a, b := t[..k], t[k + 1..];
    assert t == a + ([x] + b);
  }

  lemma RemoveFirst<T>(x: T, s: seq<T>, t: seq<T>)
    requires multiset(s) == multiset{x} + multiset(t) && s != [] && s[0] == x
    ensures multiset(s[1..]) == multiset(t)
  {
    assert s == [x] + s[1..];
    assert multiset(s) - multiset{x} == multiset(s[1..]);
    assert multiset{x} + multiset(t) - multiset{x} == multiset(t);
  }
}
