/**
  The cache-eviction plan, and the guarded deletion that carries it out.
  Case folding of repository names is a parameter, as is what the file system
  answers to each attempt to remove a directory tree.
 */
module Eviction {
  import opened Wrappers
  import opened Sorting

  type Path = seq<string>

  datatype Entry = Entry(repo: string, path: Path, bytes: nat, lastUsed: real)
  datatype Plan = Plan(evict: seq<Entry>, keptPins: seq<Entry>, budget: nat, before: nat)
  datatype Result<T> = Ok(value: T) | NegativeBudget(budget: int)

  type Fold = string -> string

  function Sum(s: seq<Entry>): nat {
    if s == [] then 0 else s[0].bytes + Sum(s[1..])
  }

  predicate Pinned(e: Entry, pins: set<string>, fold: Fold) {
    fold(e.repo) in pins
  }

  function Folded(pinned: seq<string>, fold: Fold): set<string> {
    set p | p in pinned :: fold(p)
  }

  function Picked(e: Entry, take: bool): seq<Entry> {
    if take then [e] else []
  }

  /** The entries whose pinned-ness is `wanted`, in order. */
  function Select(s: seq<Entry>, pins: set<string>, fold: Fold, wanted: bool): seq<Entry> {
    if s == [] then []
    else Picked(s[0], Pinned(s[0], pins, fold) == wanted) + Select(s[1..], pins, fold, wanted)
  }

  /** An entry is pinned exactly when its name is one of the pins, up to folding. */
  lemma PinnedExactly(e: Entry, pinned: seq<string>, fold: Fold)
    ensures Pinned(e, Folded(pinned, fold), fold) <==> exists p :: p in pinned && fold(p) == fold(e.repo)
  {
    if Pinned(e, Folded(pinned, fold), fold) {
      var p :| p in pinned && fold(p) == fold(e.repo);
    }
  }

  predicate NotUsedAfter(a: Entry, b: Entry) {
    a.lastUsed <= b.lastUsed
  }

  /** The candidates for eviction, least recently used first, ties as listed. */
  function Queue(items: seq<Entry>, pins: set<string>, fold: Fold): seq<Entry> {
    Sort(Select(items, pins, fold, false), NotUsedAfter)
  }

  function FreedBytes(p: Plan): nat { Sum(p.evict) }
  function AfterBytes(p: Plan): int { p.before - FreedBytes(p) }
  function ShortBy(p: Plan): nat {
    if AfterBytes(p) > p.budget then AfterBytes(p) - p.budget else 0
  }

  /** `n` is the least number of victims that reaches the budget, or all of them if none does. */
  ghost predicate Shortest(queue: seq<Entry>, before: nat, budget: nat, n: nat) {
    && n <= |queue|
    && (n < |queue| ==> before - Sum(queue[..n]) <= budget)
    && forall k :: 0 <= k < n ==> before - Sum(queue[..k]) > budget
  }

  ghost predicate IsPlan(p: Plan, items: seq<Entry>, budget: int, pins: set<string>, fold: Fold) {
    && p.budget == budget && p.before == Sum(items)
    && p.keptPins == Select(items, pins, fold, true)
    && |p.evict| <= |Queue(items, pins, fold)|
    && p.evict == Queue(items, pins, fold)[..|p.evict|]
    && Shortest(Queue(items, pins, fold), Sum(items), budget, |p.evict|)
  }

  method PlanEviction(items: seq<Entry>, budget: int, pinned: seq<string>, fold: Fold) returns (r: Result<Plan>)
    ensures r.NegativeBudget? <==> budget < 0
    ensures r.NegativeBudget? ==> r.budget == budget
    ensures r.Ok? ==> IsPlan(r.value, items, budget, Folded(pinned, fold), fold)
    ensures r.Ok? ==> forall k :: 0 <= k < |r.value.evict| ==> Sum(items) - Sum(r.value.evict[..k]) > budget
  {
    if budget < 0 {
      return NegativeBudget(budget);
    }
    var pins := Folded(pinned, fold);
    var kept := Select(items, pins, fold, true);
    var before := Sum(items);
    var remaining: int := before;
    var victims: seq<Entry> := [];
    var queue := Queue(items, pins, fold);
    var i := 0;
    while i < |queue|
      invariant i <= |queue| && victims == queue[..i]
      invariant remaining == before - Sum(queue[..i])
      invariant forall k :: 0 <= k < i ==> before - Sum(queue[..k]) > budget
    {
      if remaining <= budget { break; }
      victims := victims + [queue[i]];
      remaining := remaining - queue[i].bytes;
      SumSnoc(queue, i);
      i := i + 1;
    }
    assert forall k :: 0 <= k < i ==> queue[..i][..k] == queue[..k];
    return Ok(Plan(victims, kept, budget, before));
  }

  // ------------------------------------------------------------------ sums

  lemma {:induction false} SumAppend(s: seq<Entry>, t: seq<Entry>)
    ensures Sum(s + t) == Sum(s) + Sum(t)
  {
    if s == [] {
      assert s + t == t;
    } else {
      SumAppend(s[1..], t);
      assert (s + t)[1..] == s[1..] + t;
    }
  }

  lemma SumSnoc(s: seq<Entry>, i: nat)
    requires i < |s|
    ensures Sum(s[..i + 1]) == Sum(s[..i]) + s[i].bytes
  {
    assert s[..i + 1] == s[..i] + [s[i]];
    SumAppend(s[..i], [s[i]]);
    assert Sum([s[i]]) == s[i].bytes;
  }

  lemma MultisetCons(x: Entry, s: seq<Entry>)
    ensures multiset([x] + s) == multiset{x} + multiset(s)
  {
  }

  /** Sums do not depend on the order of the entries. */
  lemma {:induction false} SumOfContents(s: seq<Entry>, t: seq<Entry>)
    requires multiset(s) == multiset(t)
    ensures Sum(s) == Sum(t)
  {
    SameContents(s, t);
    if s != [] {
      assert s[0] in t;
      var a, b := TakeOut(t, s[0]);
      RemoveFirst(s[0], s, a + b);
      SumOfContents(s[1..], a + b);
      SumAppend(a, [s[0]] + b);
      SumAppend(a, b);
      assert ([s[0]] + b)[1..] == b;
    }
  }

  // ------------------------------------------------------------------ selections

  lemma {:induction false} Selected(s: seq<Entry>, pins: set<string>, fold: Fold, wanted: bool)
    ensures forall e :: e in Select(s, pins, fold, wanted) <==> e in s && Pinned(e, pins, fold) == wanted
  {
    if s != [] {
      Selected(s[1..], pins, fold, wanted);
      assert s == [s[0]] + s[1..];
    }
  }

  lemma {:induction false} SelectionsSplit(s: seq<Entry>, pins: set<string>, fold: Fold)
    ensures multiset(s) == multiset(Select(s, pins, fold, true)) + multiset(Select(s, pins, fold, false))
  {
    if s != [] {
      SelectionsSplit(s[1..], pins, fold);
      OneMoreFirst(s, Select(s[1..], pins, fold, true), Select(s[1..], pins, fold, false),
                   Select(s, pins, fold, true), Select(s, pins, fold, false));
    }
  }

  /** The first of `all` goes to one part or the other. */
  lemma OneMoreFirst(all: seq<Entry>, a: seq<Entry>, b: seq<Entry>, a': seq<Entry>, b': seq<Entry>)
    requires all != [] && multiset(all[1..]) == multiset(a) + multiset(b)
    requires (a' == [all[0]] + a && b' == b) || (a' == a && b' == [all[0]] + b)
    ensures multiset(all) == multiset(a') + multiset(b')
  {
    assert all == [all[0]] + all[1..];
    MultisetCons(all[0], all[1..]);
    MultisetCons(all[0], a);
    MultisetCons(all[0], b);
    Regroup(multiset{all[0]}, multiset(a), multiset(b));
  }

  lemma Regroup(x: multiset<Entry>, a: multiset<Entry>, b: multiset<Entry>)
    ensures x + (a + b) == (x + a) + b == a + (x + b)
  {
  }

  lemma MultisetSum(s: seq<Entry>, a: seq<Entry>, b: seq<Entry>)
    requires multiset(s) == multiset(a) + multiset(b)
    ensures Sum(s) == Sum(a) + Sum(b)
    ensures forall e :: e in s <==> e in a || e in b
  {
    assert multiset(a + b) == multiset(a) + multiset(b);
    SumOfContents(s, a + b);
    SameContents(s, a + b);
    SumAppend(a, b);
  }

  lemma QueueContents(items: seq<Entry>, pins: set<string>, fold: Fold)
    ensures forall e :: e in Queue(items, pins, fold) <==> e in items && !Pinned(e, pins, fold)
    ensures Sum(items) == Sum(Select(items, pins, fold, true)) + Sum(Queue(items, pins, fold))
    ensures multiset(items) == multiset(Select(items, pins, fold, true)) + multiset(Queue(items, pins, fold))
    ensures Ordered(Queue(items, pins, fold), NotUsedAfter)
  {
    var free := Select(items, pins, fold, false);
    Selected(items, pins, fold, false);
    SelectionsSplit(items, pins, fold);
    SortPermutes(free, NotUsedAfter);
    SortOrders(free, NotUsedAfter);
    MultisetSum(items, Select(items, pins, fold, true), Queue(items, pins, fold));
  }

  // ------------------------------------------------------------------ what a plan promises

  /** What is left when the victims are gone: the pins, and the rest of the queue. */
  lemma Leftovers(p: Plan, items: seq<Entry>, budget: int, pins: set<string>, fold: Fold)
    requires IsPlan(p, items, budget, pins, fold)
    ensures var rest := Queue(items, pins, fold)[|p.evict|..];
      && multiset(items) - multiset(p.evict) == multiset(p.keptPins) + multiset(rest)
      && Queue(items, pins, fold) == p.evict + rest
      && Sum(items) == Sum(p.evict) + Sum(p.keptPins) + Sum(rest)
  {
    var q, n := Queue(items, pins, fold), |p.evict|;
    QueueContents(items, pins, fold);
    CutBytes(q, n);
    TakeAway(multiset(items), multiset(p.keptPins), multiset(q[..n]), multiset(q[n..]));
  }

  lemma CutBytes(q: seq<Entry>, n: nat)
    requires n <= |q|
    ensures q == q[..n] + q[n..] && Sum(q) == Sum(q[..n]) + Sum(q[n..])
    ensures multiset(q) == multiset(q[..n]) + multiset(q[n..])
  {
    assert q == q[..n] + q[n..];
    SumAppend(q[..n], q[n..]);
  }

  lemma TakeAway(all: multiset<Entry>, pins: multiset<Entry>, a: multiset<Entry>, b: multiset<Entry>)
    requires all == pins + (a + b)
    ensures all - a == pins + b
  {
  }

  /** No victim is pinned; whatever unpinned entry survives was used no earlier than any victim. */
  lemma VictimsAreOldestUnpinned(p: Plan, items: seq<Entry>, budget: int, pins: set<string>, fold: Fold,
                                 survivors: seq<Entry>)
    requires IsPlan(p, items, budget, pins, fold)
    requires multiset(survivors) == multiset(items) - multiset(p.evict)
    ensures forall v :: v in p.evict ==> v in items && !Pinned(v, pins, fold)
    ensures forall e, v :: e in survivors && !Pinned(e, pins, fold) && v in p.evict ==> v.lastUsed <= e.lastUsed
  {
    var q, n := Queue(items, pins, fold), |p.evict|;
    QueueContents(items, pins, fold);
    Leftovers(p, items, budget, pins, fold);
    Selected(items, pins, fold, true);
    MultisetSum(survivors, p.keptPins, q[n..]);
    forall e, v | e in survivors && !Pinned(e, pins, fold) && v in p.evict ensures v.lastUsed <= e.lastUsed {
      assert e in q[n..];
      var i :| 0 <= i < n && p.evict[i] == v;
      var j :| 0 <= j < |q| - n && q[n..][j] == e;
      assert NotUsedAfter(q[i], q[n + j]);
    }
  }

  /** Bytes are conserved: what is left is the pins and the candidates not taken. */
  lemma BytesConserved(p: Plan, items: seq<Entry>, budget: int, pins: set<string>, fold: Fold)
    requires IsPlan(p, items, budget, pins, fold)
    ensures AfterBytes(p) == Sum(p.keptPins) + Sum(Queue(items, pins, fold)[|p.evict|..])
    ensures FreedBytes(p) + AfterBytes(p) == Sum(items) && AfterBytes(p) >= Sum(p.keptPins)
  {
    Leftovers(p, items, budget, pins, fold);
  }

  /**
    The plan comes up short exactly when the pinned bytes are more than the budget, then by exactly that excess,
    and then everything unpinned goes.
   */
  lemma ShortExactly(p: Plan, items: seq<Entry>, budget: int, pins: set<string>, fold: Fold)
    requires IsPlan(p, items, budget, pins, fold)
    ensures ShortBy(p) > 0 <==> Sum(p.keptPins) > budget
    ensures ShortBy(p) > 0 ==> ShortBy(p) == Sum(p.keptPins) - budget && p.evict == Queue(items, pins, fold)
  {
    var q, n := Queue(items, pins, fold), |p.evict|;
    BytesConserved(p, items, budget, pins, fold);
    if Sum(p.keptPins) > budget || ShortBy(p) > 0 {
      assert n == |q|;
      assert q[n..] == [] && q[..n] == q;
    }
  }

  /** A smaller budget only ever extends the list of victims. */
  lemma SmallerBudgetExtends(p: Plan, q: Plan, items: seq<Entry>, pins: set<string>, fold: Fold)
    requires IsPlan(p, items, p.budget, pins, fold) && IsPlan(q, items, q.budget, pins, fold)
    requires p.budget <= q.budget
    ensures q.evict <= p.evict
  {
    var s := Queue(items, pins, fold);
    assert |q.evict| <= |p.evict|;
    assert s[..|p.evict|][..|q.evict|] == s[..|q.evict|];
  }

  /** Planning again over what survived, in whatever order it is listed, evicts nothing. */
  lemma ReplanningIsIdle(p: Plan, items: seq<Entry>, budget: int, pins: set<string>, fold: Fold,
                         survivors: seq<Entry>, p': Plan)
    requires IsPlan(p, items, budget, pins, fold)
    requires multiset(survivors) == multiset(items) - multiset(p.evict)
    requires IsPlan(p', survivors, budget, pins, fold)
    ensures p'.evict == []
    ensures ShortBy(p') == ShortBy(p) && AfterBytes(p') == AfterBytes(p)
  {
    var rest := Queue(items, pins, fold)[|p.evict|..];
    Leftovers(p, items, budget, pins, fold);
    MultisetSum(survivors, p.keptPins, rest);
    QueueContents(survivors, pins, fold);
    if Sum(survivors) > budget {
      assert rest == [];
      Selected(items, pins, fold, true);
      AllPinned(survivors, pins, fold);
    } else {
      assert Queue(survivors, pins, fold)[..0] == [];
    }
  }

  lemma {:induction false} AllPinned(s: seq<Entry>, pins: set<string>, fold: Fold)
    requires forall e :: e in s ==> Pinned(e, pins, fold)
    ensures Queue(s, pins, fold) == []
  {
    if s != [] {
      AllPinned(s[1..], pins, fold);
      SortPermutes(Select(s[1..], pins, fold, false), NotUsedAfter);
    }
  }

  // ------------------------------------------------------------------ the guard

  const KINDS: set<string> := {"models", "datasets", "spaces"}

  /** What comes before the first "--", or everything if there is none. */
  function KindPrefix(name: string): string {
    if |name| < 2 then name
    else if name[..2] == "--" then ""
    else [name[0]] + KindPrefix(name[1..])
  }

  predicate IsRepoName(name: string) {
    KindPrefix(name) in KINDS
  }

  function Parent(p: Path): Path {
    if p == [] then [] else p[..|p| - 1]
  }

  function Name(p: Path): string {
    if p == [] then "" else p[|p| - 1]
  }

  /** Where paths lead once links are resolved, and which are links themselves. */
  datatype Layout = Layout(resolve: Path -> Path, isLink: Path -> bool)

  /** A directory of a known kind directly under the root, once links are resolved. */
  predicate Guarded(path: Path, root: Path, fs: Layout) {
    && Parent(fs.resolve(path)) == fs.resolve(root)
    && IsRepoName(Name(fs.resolve(path)))
  }

  lemma {:induction false} DashFreePrefix(k: string, name: string)
    requires '-' !in k && k <= name
    requires name == k || k + "--" <= name
    ensures KindPrefix(name) == k
  {
    if k != [] {
      var rest := name[1..];
      assert k == [k[0]] + k[1..] && name == [k[0]] + rest;
      if name != k {
        assert rest[..|k| + 1] == k[1..] + "--";
        assert k[1..] + "--" <= rest;
      }
      DashFreePrefix(k[1..], rest);
      assert name[0] == k[0] && k[0] in k;
      if |name| >= 2 { assert name[..2][0] == name[0]; }
    } else if name != k {
      assert name[..2] == "--";
    }
  }

  lemma {:induction false} PrefixIsThere(name: string)
    ensures name == KindPrefix(name) || KindPrefix(name) + "--" <= name
  {
    if |name| >= 2 && name[..2] != "--" {
      PrefixIsThere(name[1..]);
      assert name == [name[0]] + name[1..];
    } else if |name| >= 2 {
      assert "" + "--" <= name;
    }
  }

  /**
    A name passes exactly when it is a kind followed by "--" and anything, or a bare kind:
    a directory called just "models" passes too.
   */
  lemma RepoNameExactly(name: string)
    ensures IsRepoName(name) <==>
      exists k :: k in {"models", "datasets", "spaces"} && (k + "--" <= name || name == k)
  {
    PrefixIsThere(name);
    forall k | k in KINDS && (k + "--" <= name || name == k) ensures KindPrefix(name) == k {
      KindsHaveNoDash(k);
      assert k <= k + "--";
      DashFreePrefix(k, name);
    }
  }

  /** A target passes exactly when it leads to a place one step below where the root leads, of a passing name. */
  lemma GuardedExactly(path: Path, root: Path, fs: Layout)
    ensures Guarded(path, root, fs) <==>
      exists name :: fs.resolve(path) == fs.resolve(root) + [name] && IsRepoName(name)
  {
    var p, r := fs.resolve(path), fs.resolve(root);
    assert KindPrefix("") == "" && "" !in KINDS;
    if Guarded(path, root, fs) {
      assert p != [];
      assert p == r + [p[|p| - 1]];
    }
    if name :| p == r + [name] && IsRepoName(name) {
      assert p[..|p| - 1] == r && p[|p| - 1] == name;
    }
  }

  /** The documented rule asks for a kind and "--"; the bare kind shows the guard accepts more. */
  lemma BareKindPasses()
    ensures IsRepoName("models") && forall k :: k in KINDS ==> !(k + "--" <= "models")
  {
    RepoNameExactly("models");
    forall k | k in KINDS ensures !(k + "--" <= "models") {
      assert |k + "--"| > |"models"|;
    }
  }

  lemma KindsHaveNoDash(k: string)
    requires k in KINDS
    ensures '-' !in k
  {
  }

  // ------------------------------------------------------------------ deletion

  /** What the file system makes of one attempt: the tree gone, or an error with some of it left. */
  datatype Outcome = Gone | Stuck(why: string, left: nat)

  datatype Removal = Removal(removed: seq<string>, freed: nat, confirmed: bool, failed: seq<(string, string)>)
  datatype Applied = Done(removal: Removal) | OutsideCache(path: Path) | NotARepo(path: Path)

  /** Nothing outside `these` changed; inside, each tree is gone or no larger than it was. */
  ghost predicate Shrunk(before: map<Path, nat>, after: map<Path, nat>, these: set<Path>) {
    && (forall p :: p in after ==> p in before && after[p] <= before[p])
    && (forall p :: p in before && p !in these ==> p in after && after[p] == before[p])
  }

  lemma ShrunkAgain(a: map<Path, nat>, b: map<Path, nat>, c: map<Path, nat>, these: set<Path>, some: set<Path>)
    requires Shrunk(a, b, these) && Shrunk(b, c, some) && some <= these
    ensures Shrunk(a, c, these)
  {
  }

  /** The trees on the disk, by resolved path, with the bytes each still holds. */
  class Disk {
    var trees: map<Path, nat>

    /** Removes the tree a path leads to; a path that is itself a link is refused. */
    method RemoveTree(path: Path, fs: Layout, outcome: Outcome) returns (error: Option<string>)
      modifies this
      ensures error.None? <==> !fs.isLink(path) && fs.resolve(path) in old(trees) && outcome.Gone?
      ensures trees.Keys == old(trees).Keys - (if error.None? then {fs.resolve(path)} else {})
      ensures Shrunk(old(trees), trees, if fs.isLink(path) then {} else {fs.resolve(path)})
    {
      if fs.isLink(path) {
        return Some("a symbolic link");
      }
      var at := fs.resolve(path);
      if at !in trees {
        return Some("no such directory");
      }
      match outcome
      case Gone =>
        trees := trees - {at};
        return None;
      case Stuck(why, left) =>
        trees := trees[at := if left < trees[at] then left else trees[at]];
        return Some(why);
    }
  }

  /** The entries of `evict` whose flag in `gone` is `which`. */
  function Split(evict: seq<Entry>, gone: seq<bool>, which: bool): seq<Entry>
    requires |gone| == |evict|
  {
    if evict == [] then []
    else
      var n := |evict| - 1;
      Split(evict[..n], gone[..n], which) + Picked(evict[n], gone[n] == which)
  }

  lemma SplitSnoc(evict: seq<Entry>, gone: seq<bool>, which: bool, i: nat, g: bool)
    requires i < |evict| && |gone| == i
    ensures Split(evict[..i + 1], gone + [g], which) == Split(evict[..i], gone, which) + Picked(evict[i], g == which)
  {
    assert evict[..i + 1][..i] == evict[..i] && (gone + [g])[..i] == gone;
  }

  lemma SumPicked(s: seq<Entry>, e: Entry)
    ensures Sum(s + [e]) == Sum(s) + e.bytes
  {
    SumAppend(s, [e]);
    assert Sum([e]) == e.bytes;
  }

  function Repos(s: seq<Entry>): seq<string> {
    seq(|s|, i requires 0 <= i < |s| => s[i].repo)
  }

  /** Entry `k` is the first to fail the guard, and `bad` says how. */
  ghost predicate FirstRefused(evict: seq<Entry>, root: Path, fs: Layout, k: nat, bad: Applied)
    requires k < |evict|
  {
    && (forall j :: 0 <= j < k ==> Guarded(evict[j].path, root, fs))
    && !Guarded(evict[k].path, root, fs)
    && bad == (if Parent(fs.resolve(evict[k].path)) != fs.resolve(root)
               then OutsideCache(evict[k].path) else NotARepo(evict[k].path))
  }

  method CheckAll(evict: seq<Entry>, root: Path, fs: Layout) returns (bad: Option<Applied>)
    ensures bad.None? <==> forall e :: e in evict ==> Guarded(e.path, root, fs)
    ensures bad.Some? ==> exists k :: 0 <= k < |evict| && FirstRefused(evict, root, fs, k, bad.value)
  {
    for i := 0 to |evict|
      invariant forall j :: 0 <= j < i ==> Guarded(evict[j].path, root, fs)
    {
      if Parent(fs.resolve(evict[i].path)) != fs.resolve(root) {
        bad := Some(OutsideCache(evict[i].path));
        assert FirstRefused(evict, root, fs, i, bad.value);
        return;
      }
      if !IsRepoName(Name(fs.resolve(evict[i].path))) {
        bad := Some(NotARepo(evict[i].path));
        assert FirstRefused(evict, root, fs, i, bad.value);
        return;
      }
    }
    return None;
  }

  /** The trees that may be touched: links are not followed. */
  ghost function Targets(evict: seq<Entry>, fs: Layout): set<Path> {
    set e | e in evict && !fs.isLink(e.path) :: fs.resolve(e.path)
  }

  /** The report accounts for every victim: removed or failed, each in plan order, and the bytes of the removed. */
  ghost predicate Accounts(evict: seq<Entry>, gone: seq<bool>, r: Removal)
    requires |gone| == |evict|
  {
    && r.removed == Repos(Split(evict, gone, true))
    && r.freed == Sum(Split(evict, gone, true))
    && FailedRepos(r.failed) == Repos(Split(evict, gone, false))
  }

  function FailedRepos(failed: seq<(string, string)>): seq<string> {
    seq(|failed|, i requires 0 <= i < |failed| => failed[i].0)
  }

  lemma AccountsOneMore(evict: seq<Entry>, gone: seq<bool>, i: nat, r: Removal, error: Option<string>)
    requires i < |evict| && |gone| == i && Accounts(evict[..i], gone, r)
    ensures Accounts(evict[..i + 1], gone + [error.None?], Reported(r, evict[i], error))
  {
    SplitSnoc(evict, gone, true, i, error.None?);
    SplitSnoc(evict, gone, false, i, error.None?);
    var s := Split(evict[..i], gone, error.None?);
    assert s + [] == s && Split(evict[..i], gone, error.Some?) + [] == Split(evict[..i], gone, error.Some?);
    SumPicked(s, evict[i]);
    assert Repos(s + [evict[i]]) == Repos(s) + [evict[i].repo];
    if error.Some? {
      assert FailedRepos(r.failed + [(evict[i].repo, error.value)]) == FailedRepos(r.failed) + [evict[i].repo];
    }
  }

  /** The first `n` victims whose tree went include one at `p`. */
  ghost predicate RemovedBy(evict: seq<Entry>, gone: seq<bool>, fs: Layout, p: Path, n: nat)
    requires n <= |gone| <= |evict|
  {
    exists i :: 0 <= i < n && gone[i] && fs.resolve(evict[i].path) == p
  }

  /** Exactly the trees of the removed are not there any more. */
  ghost predicate Left(before: map<Path, nat>, after: map<Path, nat>, evict: seq<Entry>, gone: seq<bool>, fs: Layout)
    requires |gone| <= |evict|
  {
    forall p :: p in after <==> p in before && !RemovedBy(evict, gone, fs, p, |gone|)
  }

  /** A victim goes if it is no link, its tree was there and not removed before it, and the file system agrees. */
  ghost predicate Goes(before: map<Path, nat>, evict: seq<Entry>, gone: seq<bool>, fs: Layout, outcomes: nat -> Outcome,
                       i: nat)
    requires i < |gone| <= |evict|
  {
    var e := evict[i];
    && !fs.isLink(e.path) && fs.resolve(e.path) in before && outcomes(i).Gone?
    && !RemovedBy(evict, gone, fs, fs.resolve(e.path), i)
  }

  lemma RemovedOneMore(evict: seq<Entry>, gone: seq<bool>, g: bool, fs: Layout)
    requires |gone| < |evict|
    ensures forall p :: RemovedBy(evict, gone + [g], fs, p, |gone| + 1) <==>
              RemovedBy(evict, gone, fs, p, |gone|) || (g && fs.resolve(evict[|gone|].path) == p)
    ensures forall p, n: nat :: n <= |gone| ==>
              (RemovedBy(evict, gone + [g], fs, p, n) <==> RemovedBy(evict, gone, fs, p, n))
  {
    var more := gone + [g];
    forall p, n: nat | n <= |gone|
      ensures RemovedBy(evict, more, fs, p, n) <==> RemovedBy(evict, gone, fs, p, n)
    {
      assert forall i :: 0 <= i < n ==> more[i] == gone[i];
    }
    forall p
      ensures RemovedBy(evict, more, fs, p, |gone| + 1) <==>
              RemovedBy(evict, gone, fs, p, |gone|) || (g && fs.resolve(evict[|gone|].path) == p)
    {
      assert forall i :: 0 <= i < |gone| ==> more[i] == gone[i];
      assert more[|gone|] == g;
    }
  }

  lemma LeftOneMore(before: map<Path, nat>, was: map<Path, nat>, now: map<Path, nat>, evict: seq<Entry>,
                    gone: seq<bool>, g: bool, fs: Layout)
    requires |gone| < |evict| && Left(before, was, evict, gone, fs)
    requires now.Keys == was.Keys - (if g then {fs.resolve(evict[|gone|].path)} else {})
    ensures Left(before, now, evict, gone + [g], fs)
  {
    RemovedOneMore(evict, gone, g, fs);
  }

  /** Which victims went. */
  ghost predicate Decided(before: map<Path, nat>, evict: seq<Entry>, gone: seq<bool>, fs: Layout,
                          outcomes: nat -> Outcome)
    requires |gone| <= |evict|
  {
    forall i: nat :: i < |gone| ==> (gone[i] <==> Goes(before, evict, gone, fs, outcomes, i))
  }

  lemma DecidedOneMore(before: map<Path, nat>, was: map<Path, nat>, evict: seq<Entry>, gone: seq<bool>, g: bool,
                       fs: Layout, outcomes: nat -> Outcome)
    requires |gone| < |evict| && Left(before, was, evict, gone, fs) && Decided(before, evict, gone, fs, outcomes)
    requires var e := evict[|gone|];
             g <==> !fs.isLink(e.path) && fs.resolve(e.path) in was && outcomes(|gone|).Gone?
    ensures Decided(before, evict, gone + [g], fs, outcomes)
  {
    RemovedOneMore(evict, gone, g, fs);
    var more := gone + [g];
    forall i: nat | i < |more|
      ensures more[i] <==> Goes(before, evict, more, fs, outcomes, i)
    {
      if i < |gone| {
        assert gone[i] <==> Goes(before, evict, gone, fs, outcomes, i);
      }
    }
  }

  /** How far the removal has come, and what it has to show for it. */
  ghost predicate Progress(before: map<Path, nat>, now: map<Path, nat>, evict: seq<Entry>, gone: seq<bool>, fs: Layout,
                           outcomes: nat -> Outcome, r: Removal)
    requires |gone| <= |evict|
  {
    && Accounts(evict[..|gone|], gone, r) && r.confirmed
    && Decided(before, evict, gone, fs, outcomes)
    && Left(before, now, evict, gone, fs)
    && Shrunk(before, now, Targets(evict, fs))
  }

  function Reported(r: Removal, e: Entry, error: Option<string>): Removal {
    if error.None? then r.(removed := r.removed + [e.repo], freed := r.freed + e.bytes)
    else r.(failed := r.failed + [(e.repo, error.value)])
  }

  /** One more tree, removed or not as `RemoveTree` promises. */
  lemma ProgressStep(before: map<Path, nat>, was: map<Path, nat>, now: map<Path, nat>, evict: seq<Entry>,
                     gone: seq<bool>, fs: Layout, outcomes: nat -> Outcome, r: Removal, error: Option<string>)
    requires |gone| < |evict| && Progress(before, was, evict, gone, fs, outcomes, r)
    requires var path := evict[|gone|].path;
             && (error.None? <==> !fs.isLink(path) && fs.resolve(path) in was && outcomes(|gone|).Gone?)
             && now.Keys == was.Keys - (if error.None? then {fs.resolve(path)} else {})
             && Shrunk(was, now, if fs.isLink(path) then {} else {fs.resolve(path)})
    ensures Progress(before, now, evict, gone + [error.None?], fs, outcomes, Reported(r, evict[|gone|], error))
  {
    var path := evict[|gone|].path;
    assert evict[|gone|] in evict;
    ShrunkAgain(before, was, now, Targets(evict, fs), if fs.isLink(path) then {} else {fs.resolve(path)});
    DecidedOneMore(before, was, evict, gone, error.None?, fs, outcomes);
    LeftOneMore(before, was, now, evict, gone, error.None?, fs);
    AccountsOneMore(evict, gone, |gone|, r, error);
  }

  method RemoveAll(disk: Disk, evict: seq<Entry>, fs: Layout, outcomes: nat -> Outcome)
    returns (r: Removal, ghost gone: seq<bool>)
    modifies disk
    ensures |gone| == |evict| && Accounts(evict, gone, r) && r.confirmed
    ensures Decided(old(disk.trees), evict, gone, fs, outcomes)
    ensures Left(old(disk.trees), disk.trees, evict, gone, fs)
    ensures Shrunk(old(disk.trees), disk.trees, Targets(evict, fs))
  {
    gone := [];
    r := Removal([], 0, true, []);
    for i := 0 to |evict|
      invariant |gone| == i && Progress(old(disk.trees), disk.trees, evict, gone, fs, outcomes, r)
    {
      ghost var was := disk.trees;
      var error := disk.RemoveTree(evict[i].path, fs, outcomes(i));
      ProgressStep(old(disk.trees), was, disk.trees, evict, gone, fs, outcomes, r, error);
      gone := gone + [error.None?];
      if error.Some? {
        r := r.(failed := r.failed + [(evict[i].repo, error.value)]);
      } else {
        r := r.(removed := r.removed + [evict[i].repo], freed := r.freed + evict[i].bytes);
      }
    }
    assert evict[..|evict|] == evict;
  }

  /** Nothing is deleted unless deletion was confirmed and every single target passed the guard. */
  method ApplyEviction(disk: Disk, plan: Plan, confirm: bool, root: Path, fs: Layout, outcomes: nat -> Outcome)
    returns (r: Applied, ghost gone: seq<bool>)
    modifies disk
    ensures !confirm ==> r == Done(Removal([], 0, false, []))
    ensures confirm ==> (r.Done? <==> forall e :: e in plan.evict ==> Guarded(e.path, root, fs))
    ensures !r.Done? ==> exists k :: 0 <= k < |plan.evict| && FirstRefused(plan.evict, root, fs, k, r)
    ensures !confirm || !r.Done? ==> disk.trees == old(disk.trees)
    ensures confirm && r.Done? ==>
      |gone| == |plan.evict| && Accounts(plan.evict, gone, r.removal) && r.removal.confirmed
      && Decided(old(disk.trees), plan.evict, gone, fs, outcomes)
      && Left(old(disk.trees), disk.trees, plan.evict, gone, fs)
    ensures Shrunk(old(disk.trees), disk.trees, Targets(plan.evict, fs))
  {
    gone := [];
    if !confirm {
      return Done(Removal([], 0, false, [])), gone;
    }
    var bad := CheckAll(plan.evict, root, fs);
    if bad.Some? {
      return bad.value, gone;
    }
    var removal;
    removal, gone := RemoveAll(disk, plan.evict, fs, outcomes);
    r := Done(removal);
  }

  /** Every victim is reported once, removed or failed, and only the removed count as freed. */
  lemma {:induction false} SplitsAccountForAll(evict: seq<Entry>, gone: seq<bool>)
    requires |gone| == |evict|
    ensures multiset(evict) == multiset(Split(evict, gone, true)) + multiset(Split(evict, gone, false))
  {
    if evict != [] {
      var n := |evict| - 1;
      SplitsAccountForAll(evict[..n], gone[..n]);
      OneMoreLast(evict, Split(evict[..n], gone[..n], true), Split(evict[..n], gone[..n], false),
                  Split(evict, gone, true), Split(evict, gone, false));
    }
  }

  /** The last of `all` goes to one part or the other. */
  lemma OneMoreLast(all: seq<Entry>, a: seq<Entry>, b: seq<Entry>, a': seq<Entry>, b': seq<Entry>)
    requires all != [] && multiset(all[..|all| - 1]) == multiset(a) + multiset(b)
    requires var x := all[|all| - 1]; (a' == a + [x] && b' == b) || (a' == a && b' == b + [x])
    ensures multiset(all) == multiset(a') + multiset(b')
  {
    var x := all[|all| - 1];
    assert all == all[..|all| - 1] + [x];
    MultisetSnoc(all[..|all| - 1], x);
    MultisetSnoc(a, x);
    MultisetSnoc(b, x);
    Regroup(multiset{x}, multiset(a), multiset(b));
  }

  lemma MultisetSnoc(s: seq<Entry>, x: Entry)
    ensures multiset(s + [x]) == multiset{x} + multiset(s)
  {
  }

  /** The bytes planned are the bytes freed plus the bytes of what could not be removed. */
  lemma FreedPlusFailed(evict: seq<Entry>, gone: seq<bool>, r: Removal)
    requires |gone| == |evict| && Accounts(evict, gone, r)
    ensures Sum(evict) == r.freed + Sum(Split(evict, gone, false))
    ensures |evict| == |r.removed| + |r.failed|
  {
    SplitsAccountForAll(evict, gone);
    MultisetSum(evict, Split(evict, gone, true), Split(evict, gone, false));
    SameContents(evict, Split(evict, gone, true) + Split(evict, gone, false));
    assert |FailedRepos(r.failed)| == |r.failed|;
  }

  /** Only repository directories directly under the root are ever touched. */
  lemma OnlyRepositoriesTouched(evict: seq<Entry>, root: Path, fs: Layout,
                                before: map<Path, nat>, after: map<Path, nat>)
    requires Shrunk(before, after, Targets(evict, fs))
    requires forall e :: e in evict ==> Guarded(e.path, root, fs)
    ensures forall p :: p in before && (p !in after || after[p] != before[p]) ==>
      Parent(p) == fs.resolve(root) && exists k :: k in KINDS && (k + "--" <= Name(p) || Name(p) == k)
  {
    forall p | p in before && (p !in after || after[p] != before[p])
      ensures Parent(p) == fs.resolve(root) && exists k :: k in KINDS && (k + "--" <= Name(p) || Name(p) == k)
    {
      RepoNameExactly(Name(p));
    }
  }

  lemma VictimsAreUnpinnedItems(p: Plan, items: seq<Entry>, pins: set<string>, fold: Fold, v: Entry)
    requires IsPlan(p, items, p.budget, pins, fold) && v in p.evict
    ensures v in items && !Pinned(v, pins, fold)
  {
    QueueContents(items, pins, fold);
    assert v in Queue(items, pins, fold);
  }

  /** A pinned repository is never touched, if no two entries are the same directory. */
  lemma PinnedIsNeverTouched(p: Plan, items: seq<Entry>, pins: set<string>, fold: Fold, fs: Layout,
                             before: map<Path, nat>, after: map<Path, nat>, e: Entry)
    requires IsPlan(p, items, p.budget, pins, fold)
    requires forall a, b :: a in items && b in items && fs.resolve(a.path) == fs.resolve(b.path) ==> a == b
    requires Shrunk(before, after, Targets(p.evict, fs))
    requires e in items && Pinned(e, pins, fold) && fs.resolve(e.path) in before
    ensures fs.resolve(e.path) in after && after[fs.resolve(e.path)] == before[fs.resolve(e.path)]
  {
    forall v | v in p.evict
      ensures fs.resolve(v.path) != fs.resolve(e.path)
    {
      VictimsAreUnpinnedItems(p, items, pins, fold, v);
    }
    assert fs.resolve(e.path) !in Targets(p.evict, fs);
  }
}
