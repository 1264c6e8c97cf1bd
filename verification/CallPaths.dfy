/** `buildCallPathsSection`: short call chains found by a depth-first search with a work
    budget, and the selection of at most three of them. */
module CallPaths {
  import opened Collections
  import opened StableSort

  const MAX_HOPS: nat := 6
  const BUDGET: int := 2000
  const MAX_STARTS: nat := 5
  const MAX_KEPT: nat := 3

  type Chain = seq<string>
  type Adjacency = map<string, seq<string>>

  function Targets(adj: Adjacency, id: string): seq<string> {
    if id in adj then adj[id] else []
  }

  /** The successors that are not on the path yet. */
  function Fresh(adj: Adjacency, path: Chain): seq<string>
    requires path != []
  {
    Filter(Targets(adj, path[|path| - 1]), t => t !in path)
  }

  // ------------------------------------------ the enumeration without a budget

  function Chains(adj: Adjacency, path: Chain): seq<Chain>
    requires 0 < |path| <= MAX_HOPS
    decreases MAX_HOPS - |path|, 1, 0
  {
    if Fresh(adj, path) == [] || |path| >= MAX_HOPS then
      (if |path| >= 3 then [path] else [])
    else ChainsVia(adj, path, Fresh(adj, path))
  }

  function ChainsVia(adj: Adjacency, path: Chain, next: seq<string>): seq<Chain>
    requires 0 < |path| < MAX_HOPS
    decreases MAX_HOPS - |path|, 0, |next|
  {
    if next == [] then [] else Chains(adj, path + [next[0]]) + ChainsVia(adj, path, next[1..])
  }

  /** How many calls of the search that takes. */
  function Calls(adj: Adjacency, path: Chain): nat
    requires 0 < |path| <= MAX_HOPS
    decreases MAX_HOPS - |path|, 1, 0
  {
    if Fresh(adj, path) == [] || |path| >= MAX_HOPS then 1
    else 1 + CallsVia(adj, path, Fresh(adj, path))
  }

  function CallsVia(adj: Adjacency, path: Chain, next: seq<string>): nat
    requires 0 < |path| < MAX_HOPS
    decreases MAX_HOPS - |path|, 0, |next|
  {
    if next == [] then 0 else Calls(adj, path + [next[0]]) + CallsVia(adj, path, next[1..])
  }

  // ------------------------------------------------ what the chains really are

  /** A simple path of calls. */
  ghost predicate IsFlow(adj: Adjacency, c: Chain) {
    && c != [] && Distinct(c)
    && forall i :: 0 <= i < |c| - 1 ==> c[i + 1] in Targets(adj, c[i])
  }

  /** It cannot be extended: it is at the hop limit or every successor is on it. */
  ghost predicate IsMaximal(adj: Adjacency, c: Chain)
    requires c != []
  {
    |c| == MAX_HOPS || forall t :: t in Targets(adj, c[|c| - 1]) ==> t in c
  }

  ghost predicate IsResult(adj: Adjacency, path: Chain, c: Chain) {
    path <= c && 3 <= |c| <= MAX_HOPS && IsFlow(adj, c) && IsMaximal(adj, c)
  }

  /** The search enumerates exactly the maximal simple call paths of three to six symbols
      that extend its path. */
  lemma {:induction false} ChainsExact(adj: Adjacency, path: Chain, c: Chain)
    requires 0 < |path| <= MAX_HOPS && IsFlow(adj, path)
    ensures c in Chains(adj, path) <==> IsResult(adj, path, c)
    decreases MAX_HOPS - |path|, 1, 0
  {
    var next := Fresh(adj, path);
    if next == [] || |path| >= MAX_HOPS {
      forall t | t in Targets(adj, path[|path| - 1]) && next == [] ensures t in path {
        assert t !in next;
      }
      if IsResult(adj, path, c) && |c| > |path| {
        StepIsFresh(adj, path, c);
      }
      assert IsMaximal(adj, path);
      assert IsResult(adj, path, c) ==> c == path;
      assert |path| >= 3 ==> IsResult(adj, path, path);
    } else {
      assert next[0] in next;
      ChainsViaExact(adj, path, next, c);
      if IsResult(adj, path, c) {
        assert c != path;
        StepIsFresh(adj, path, c);
      }
    }
  }

  lemma StepIsFresh(adj: Adjacency, path: Chain, c: Chain)
    requires path != [] && path <= c && |c| > |path| && IsFlow(adj, c)
    ensures c[|path|] in Fresh(adj, path)
    ensures path + [c[|path|]] <= c
  {
    var n := |path|;
    assert c[n - 1] == path[n - 1] && c[n - 1 + 1] in Targets(adj, c[n - 1]);
    forall i | 0 <= i < n ensures path[i] != c[n] {
      assert c[i] == path[i];
    }
  }

  lemma {:induction false} ChainsViaExact(adj: Adjacency, path: Chain, next: seq<string>, c: Chain)
    requires 0 < |path| < MAX_HOPS && IsFlow(adj, path)
    requires forall t :: t in next ==> t in Fresh(adj, path)
    ensures c in ChainsVia(adj, path, next) <==>
      |c| > |path| && c[|path|] in next && IsResult(adj, path + [c[|path|]], c)
    decreases MAX_HOPS - |path|, 0, |next|
  {
    if next != [] {
      var t := next[0];
      assert t in next && t in Fresh(adj, path);
      var longer := path + [t];
      assert IsFlow(adj, longer);
      ChainsExact(adj, longer, c);
      ChainsViaExact(adj, path, next[1..], c);
      assert forall x :: x in next <==> x == t || x in next[1..];
      assert longer <= c ==> c[|path|] == t;
    }
  }

  // -------------------------------------------------------------- the search

  /** The outcome of a search with a budget: what it pushes and what is left. */
  datatype Outcome = Outcome(chains: seq<Chain>, budget: int)

  function Dfs(adj: Adjacency, path: Chain, budget: int): Outcome
    requires 0 < |path| <= MAX_HOPS
    decreases MAX_HOPS - |path|, 1, 0
  {
    if budget <= 0 then Outcome([], budget - 1)
    else if Fresh(adj, path) == [] || |path| >= MAX_HOPS then
      Outcome(if |path| >= 3 then [path] else [], budget - 1)
    else DfsVia(adj, path, Fresh(adj, path), budget - 1)
  }

  function DfsVia(adj: Adjacency, path: Chain, next: seq<string>, budget: int): Outcome
    requires 0 < |path| < MAX_HOPS
    decreases MAX_HOPS - |path|, 0, |next|
  {
    if next == [] then Outcome([], budget)
    else
      var first := Dfs(adj, path + [next[0]], budget);
      var rest := DfsVia(adj, path, next[1..], first.budget);
      Outcome(first.chains + rest.chains, rest.budget)
  }

  /** What is found after `found` has been. */
  function After(found: seq<Chain>, o: Outcome): Outcome {
    Outcome(found + o.chains, o.budget)
  }

  lemma DfsViaStep(adj: Adjacency, path: Chain, next: seq<string>, i: nat, found: seq<Chain>, budget: int)
    requires 0 < |path| < MAX_HOPS && i < |next|
    ensures var first := After(found, Dfs(adj, path + [next[i]], budget));
      After(found, DfsVia(adj, path, next[i..], budget)) ==
      After(first.chains, DfsVia(adj, path, next[i + 1..], first.budget))
  {
    assert next[i..][1..] == next[i + 1..];
  }

  /** The object behind the closure: `budget`, `chains` and the shared `seen` set. */
  class Searcher {
    const adj: Adjacency
    var budget: int
    var chains: seq<Chain>
    var seen: set<string>

    constructor (adj: Adjacency)
      ensures this.adj == adj && budget == BUDGET && chains == [] && seen == {}
    {
      this.adj := adj;
      budget, chains, seen := BUDGET, [], {};
    }

    /** One call of `dfs`: it leaves `seen` as it found it. */
    method Visit(id: string, path: Chain)
      requires 0 < |path| <= MAX_HOPS && path[|path| - 1] == id
      requires forall t :: t in seen <==> t in path
      modifies this`budget, this`chains, this`seen
      ensures Outcome(chains, budget) == After(old(chains), Dfs(adj, path, old(budget)))
      ensures seen == old(seen)
      decreases MAX_HOPS - |path|, 2
    {
      var spent := budget <= 0;
      budget := budget - 1;
      if spent {
        return;
      }
      var next := Unseen(Targets(adj, id), path);
      if |next| == 0 || |path| >= MAX_HOPS {
        if |path| >= 3 {
          chains := chains + [path];
        }
        return;
      }
      VisitEach(next, path);
    }

    /** The loop of `dfs`: each successor is on `seen` while it is visited. */
    method VisitEach(next: seq<string>, path: Chain)
      requires 0 < |path| < MAX_HOPS && next == Fresh(adj, path)
      requires forall t :: t in seen <==> t in path
      modifies this`budget, this`chains, this`seen
      ensures Outcome(chains, budget) == After(old(chains), DfsVia(adj, path, next, old(budget)))
      ensures seen == old(seen)
      decreases MAX_HOPS - |path|, 1
    {
      ghost var goal := After(chains, DfsVia(adj, path, next, budget));
      assert next[0..] == next;
      for i := 0 to |next|
        invariant seen == old(seen)
        invariant After(chains, DfsVia(adj, path, next[i..], budget)) == goal
      {
        DfsViaStep(adj, path, next, i, chains, budget);
        assert next[i] in next;
        VisitNext(next[i], path);
      }
    }

    /** One successor. */
    method VisitNext(t: string, path: Chain)
      requires 0 < |path| < MAX_HOPS && t !in path
      requires forall t :: t in seen <==> t in path
      modifies this`budget, this`chains, this`seen
      ensures Outcome(chains, budget) == After(old(chains), Dfs(adj, path + [t], old(budget)))
      ensures seen == old(seen)
      decreases MAX_HOPS - |path|, 0
    {
      seen := seen + {t};
      Visit(t, path + [t]);
      seen := seen - {t};
    }

    /** `filter((t) => !seen.has(t))`; the path lists what is seen. */
    method Unseen(targets: seq<string>, ghost path: Chain) returns (next: seq<string>)
      requires path != [] && targets == Targets(adj, path[|path| - 1])
      requires forall t :: t in seen <==> t in path
      ensures next == Fresh(adj, path)
    {
      var seen := seen;
      next := Filter(targets, t => t !in seen);
      SameFilter(targets, t => t !in seen, t => t !in path);
    }
  }

  lemma {:induction false} SameFilter(ts: seq<string>, p: string -> bool, q: string -> bool)
    requires forall t :: p(t) == q(t)
    ensures Filter(ts, p) == Filter(ts, q)
  {
    if ts != [] {
      SameFilter(ts[1..], p, q);
    }
  }

  /** Running out of budget only cuts the enumeration off: what was found is a prefix of
      it, and all of it unless the budget is used up. */
  lemma {:induction false} BudgetCutsOff(adj: Adjacency, path: Chain, budget: int)
    requires 0 < |path| <= MAX_HOPS
    ensures var r := Dfs(adj, path, budget);
      && r.chains <= Chains(adj, path)
      && r.budget < budget
      && (r.budget >= 0 ==> r.chains == Chains(adj, path))
      && (budget >= Calls(adj, path) ==> r == Outcome(Chains(adj, path), budget - Calls(adj, path)))
    decreases MAX_HOPS - |path|, 1, 0
  {
    if budget > 0 && Fresh(adj, path) != [] && |path| < MAX_HOPS {
      BudgetCutsOffVia(adj, path, Fresh(adj, path), budget - 1);
    }
  }

  lemma {:induction false} BudgetCutsOffVia(adj: Adjacency, path: Chain, next: seq<string>, budget: int)
    requires 0 < |path| < MAX_HOPS
    ensures var r := DfsVia(adj, path, next, budget);
      && r.chains <= ChainsVia(adj, path, next)
      && r.budget <= budget
      && (r.budget >= 0 ==> r.chains == ChainsVia(adj, path, next))
      && (budget < 0 ==> r.chains == [])
      && (budget >= CallsVia(adj, path, next) ==>
            r == Outcome(ChainsVia(adj, path, next), budget - CallsVia(adj, path, next)))
    decreases MAX_HOPS - |path|, 0, |next|
  {
    if next != [] {
      BudgetCutsOff(adj, path + [next[0]], budget);
      var first := Dfs(adj, path + [next[0]], budget);
      BudgetCutsOffVia(adj, path, next[1..], first.budget);
    }
  }

  // ---------------------------------------------------------- all the starts

  /** The searches from several starts share one budget. */
  function DfsAll(adj: Adjacency, starts: seq<string>, budget: int): Outcome
    decreases |starts|
  {
    if starts == [] then Outcome([], budget)
    else
      var first := Dfs(adj, [starts[0]], budget);
      var rest := DfsAll(adj, starts[1..], first.budget);
      Outcome(first.chains + rest.chains, rest.budget)
  }

  function AllChains(adj: Adjacency, starts: seq<string>): seq<Chain> {
    if starts == [] then [] else Chains(adj, [starts[0]]) + AllChains(adj, starts[1..])
  }

  /** Over all starts: a prefix of the full enumeration, and all of it unless the budget
      is used up. */
  lemma {:induction false} SearchIsPrefix(adj: Adjacency, starts: seq<string>, budget: int)
    ensures var r := DfsAll(adj, starts, budget);
      && r.chains <= AllChains(adj, starts)
      && (r.budget >= 0 ==> r.chains == AllChains(adj, starts))
      && (budget < 0 ==> r.chains == [])
      && r.budget <= budget
    decreases |starts|
  {
    if starts != [] {
      BudgetCutsOff(adj, [starts[0]], budget);
      var first := Dfs(adj, [starts[0]], budget);
      SearchIsPrefix(adj, starts[1..], first.budget);
    }
  }

  lemma {:induction false} AllChainsExact(adj: Adjacency, starts: seq<string>, c: Chain)
    ensures c in AllChains(adj, starts) <==> exists s :: s in starts && IsResult(adj, [s], c)
  {
    if starts != [] {
      var rest := starts[1..];
      ChainsExact(adj, [starts[0]], c);
      AllChainsExact(adj, rest, c);
      assert forall s :: s in starts <==> s == starts[0] || s in rest;
      assert c in AllChains(adj, starts) <==> c in Chains(adj, [starts[0]]) || c in AllChains(adj, rest);
    }
  }

  /** Every chain that is shown is a maximal simple call path from one of the starts. */
  lemma SearchIsSound(adj: Adjacency, starts: seq<string>, budget: int, c: Chain)
    requires c in DfsAll(adj, starts, budget).chains
    ensures exists s :: s in starts && IsResult(adj, [s], c)
  {
    SearchIsPrefix(adj, starts, budget);
    var r, all := DfsAll(adj, starts, budget).chains, AllChains(adj, starts);
    var i :| 0 <= i < |r| && r[i] == c;
    assert all[i] == c;
    AllChainsExact(adj, starts, c);
  }

  method FindChains(adj: Adjacency, starts: seq<string>) returns (chains: seq<Chain>)
    ensures chains == DfsAll(adj, starts, BUDGET).chains
  {
    var searcher := new Searcher(adj);
    assert starts[0..] == starts;
    for i := 0 to |starts|
      invariant fresh(searcher) && searcher.adj == adj
      invariant After(searcher.chains, DfsAll(adj, starts[i..], searcher.budget)) == DfsAll(adj, starts, BUDGET)
    {
      DfsAllStep(adj, starts, i, searcher.chains, searcher.budget);
      searcher.seen := {starts[i]};
      searcher.Visit(starts[i], [starts[i]]);
    }
    chains := searcher.chains;
  }

  lemma DfsAllStep(adj: Adjacency, starts: seq<string>, i: nat, found: seq<Chain>, budget: int)
    requires i < |starts|
    ensures var first := After(found, Dfs(adj, [starts[i]], budget));
      After(found, DfsAll(adj, starts[i..], budget)) ==
      After(first.chains, DfsAll(adj, starts[i + 1..], first.budget))
  {
    assert starts[i..][1..] == starts[i + 1..];
  }

  // --------------------------------------------------------------- selection

  function RootCount(roots: set<string>, c: Chain): nat {
    if c == [] then 0 else (if c[0] in roots then 1 else 0) + RootCount(roots, c[1..])
  }

  /** More roots first, then longer chains. */
  predicate Before(roots: set<string>, a: Chain, b: Chain) {
    RootCount(roots, b) < RootCount(roots, a) ||
    (RootCount(roots, b) == RootCount(roots, a) && |b| <= |a|)
  }

  function Join(c: Chain): string {
    if c == [] then "" else if |c| == 1 then c[0] else c[0] + ">" + Join(c[1..])
  }

  predicate Includes(s: string, part: string) {
    exists i :: 0 <= i <= |s| && At(s, i, part)
  }

  predicate At(s: string, i: nat, part: string)
    requires i <= |s|
  {
    part <= s[i..]
  }

  predicate Drops(kept: seq<Chain>, c: Chain) {
    exists i :: 0 <= i < |kept| && Covers(kept[i], c)
  }

  predicate Covers(k: Chain, c: Chain) {
    Includes(Join(k), Join(c))
  }

  /** `c` is a contiguous part of `k`. */
  ghost predicate SubPath(c: Chain, k: Chain) {
    exists i :: 0 <= i && i + |c| <= |k| && PartAt(c, k, i)
  }

  ghost predicate PartAt(c: Chain, k: Chain, i: nat)
    requires i + |c| <= |k|
  {
    k[i..i + |c|] == c
  }

  lemma {:induction false} JoinPrefix(c: Chain, k: Chain)
    requires c != [] && c <= k
    ensures Join(c) <= Join(k)
  {
    if |c| > 1 {
      JoinPrefix(c[1..], k[1..]);
    } else if |k| > 1 {
      assert Join(k) == k[0] + ">" + Join(k[1..]);
    }
  }

  /** A sub-path is found by the textual test. */
  lemma {:induction false} SubPathIncluded(c: Chain, k: Chain, i: nat)
    requires c != [] && i + |c| <= |k| && PartAt(c, k, i)
    ensures Includes(Join(k), Join(c))
    decreases i
  {
    if i == 0 {
      assert c <= k;
      JoinPrefix(c, k);
      assert At(Join(k), 0, Join(c));
    } else {
      assert k[1..][i - 1..i - 1 + |c|] == c;
      SubPathIncluded(c, k[1..], i - 1);
      assert Join(k) == k[0] + ">" + Join(k[1..]);
      IncludedLater(k[0] + ">", Join(k[1..]), Join(c));
    }
  }

  lemma IncludedLater(front: string, s: string, part: string)
    requires Includes(s, part)
    ensures Includes(front + s, part)
  {
    var j :| 0 <= j <= |s| && At(s, j, part);
    assert (front + s)[|front| + j..] == s[j..];
    assert At(front + s, |front| + j, part);
  }

  /** No id is empty or contains the separator. */
  ghost predicate Separable(ids: set<string>) {
    forall a :: a in ids ==> a != "" && '>' !in a
  }

  /** No id begins or ends another. */
  ghost predicate NoneConfused(ids: set<string>) {
    && (forall a, b :: a in ids && b in ids && a <= b ==> a == b)
    && (forall a, b :: a in ids && b in ids && EndsWith(b, a) ==> a == b)
  }

  ghost predicate PlainIds(ids: set<string>) {
    Separable(ids) && NoneConfused(ids)
  }

  predicate EndsWith(s: string, tail: string) {
    |tail| <= |s| && s[|s| - |tail|..] == tail
  }

  ghost predicate Over(ids: set<string>, c: Chain) {
    forall x :: x in c ==> x in ids
  }

  /** Two texts that agree up to the end of a first part agree on that part. */
  lemma FirstPartSame(a: string, x: string, b: string, y: string)
    requires '>' !in a && '>' !in b && a + ">" + x <= b + y && (y == "" || y[0] == '>')
    ensures a == b && ">" + x <= y
  {
    var s, t := b + y, a + ">" + x;
    assert s[|a|] == t[|a|] == '>';
    forall i | 0 <= i < |b| ensures s[i] != '>' {
      assert s[i] == b[i];
    }
    forall i | 0 <= i < |a| ensures s[i] != '>' && s[i] == a[i] {
      assert s[i] == t[i] == a[i];
    }
    assert |a| < |s| && y != "" && s[|b|] == y[0];
    assert |a| == |b|;
    assert s[..|a|] == b && t[..|a|] == a;
    assert s[|a|..] == y && t[|a|..] == ">" + x;
  }

  function JoinTail(c: Chain): string {
    if c == [] then "" else ">" + Join(c)
  }

  lemma JoinSplit(c: Chain)
    requires c != []
    ensures Join(c) == c[0] + JoinTail(c[1..])
  {
  }

  lemma {:induction false} PrefixTextIsPrefix(ids: set<string>, c: Chain, k: Chain)
    requires PlainIds(ids) && Over(ids, c) && Over(ids, k)
    requires c != [] && Join(c) <= Join(k)
    ensures c <= k
  {
    assert c[0] in c;
    assert k != [];
    assert k[0] in k;
    JoinSplit(c);
    JoinSplit(k);
    if |c| == 1 {
      LastPartSame(ids, c[0], k[0], JoinTail(k[1..]));
    } else {
      FirstPartSame(c[0], Join(c[1..]), k[0], JoinTail(k[1..]));
      assert forall x :: x in c[1..] ==> x in c;
      assert forall x :: x in k[1..] ==> x in k;
      assert k[1..] != [];
      TailPrefix(Join(c[1..]), Join(k[1..]));
      PrefixTextIsPrefix(ids, c[1..], k[1..]);
    }
  }

  lemma TailPrefix(a: string, b: string)
    requires ">" + a <= ">" + b
    ensures a <= b
  {
    assert (">" + a)[1..] == a && (">" + b)[1..] == b;
    assert forall i :: 0 <= i < |a| ==> a[i] == (">" + a)[i + 1] == (">" + b)[i + 1] == b[i];
  }

  lemma LastPartSame(ids: set<string>, a: string, b: string, y: string)
    requires PlainIds(ids) && a in ids && b in ids && a <= b + y && (y == "" || y[0] == '>')
    ensures a == b
  {
    forall i | 0 <= i < |a| ensures (b + y)[i] != '>' {
      assert a[i] == (b + y)[i] && a[i] in a;
    }
    assert y != "" ==> (b + y)[|b|] == '>';
    assert |a| <= |b|;
    assert a <= b;
  }

  /** An occurrence does not begin inside the first id, nor at the separator after it. */
  lemma NotInsideFirst(ids: set<string>, c: Chain, k: Chain, j: nat)
    requires PlainIds(ids) && Over(ids, c) && Over(ids, k)
    requires |c| >= 2 && k != [] && 0 < j <= |k[0]| && j <= |Join(k)|
    ensures !At(Join(k), j, Join(c))
  {
    assert c[0] in c && k[0] in k;
    JoinSplit(c);
    JoinSplit(k);
    NoProperEnding(ids, c[0], k[0], j);
    TextNotInside(c[0], Join(c[1..]), k[0], JoinTail(k[1..]), j);
  }

  lemma NoProperEnding(ids: set<string>, a: string, b: string, j: nat)
    requires PlainIds(ids) && a in ids && b in ids && 0 < j <= |b|
    ensures b[j..] != a && '>' !in b[j..] && '>' !in a
  {
    assert b[j..] == a ==> EndsWith(b, a);
  }

  lemma TextNotInside(a: string, x: string, b: string, y: string, j: nat)
    requires j <= |b| && b[j..] != a && '>' !in b[j..] && '>' !in a && (y == "" || y[0] == '>')
    ensures !At(b + y, j, a + ">" + x)
  {
    assert (b + y)[j..] == b[j..] + y;
    if At(b + y, j, a + ">" + x) {
      FirstPartSame(a, x, b[j..], y);
    }
  }

  /** Where the joined text occurs, the chain itself starts there. */
  lemma {:induction false} IncludedIsSubPath(ids: set<string>, c: Chain, k: Chain, j: nat)
    requires PlainIds(ids) && Over(ids, c) && Over(ids, k)
    requires |c| >= 2 && j <= |Join(k)| && At(Join(k), j, Join(c))
    ensures SubPath(c, k)
    decreases k
  {
    if j == 0 {
      PrefixTextIsPrefix(ids, c, k);
      assert PartAt(c, k, 0);
    } else {
      assert k != [];
      var rest, skip := k[1..], |k[0]| + 1;
      assert j >= skip by {
        if j <= |k[0]| {
          NotInsideFirst(ids, c, k, j);
        }
      }
      JoinSplit(k);
      LaterText(k[0], rest, j);
      assert forall x :: x in rest ==> x in k;
      IncludedIsSubPath(ids, c, rest, j - skip);
      SubPathLater(c, k);
    }
  }

  lemma LaterText(first: string, rest: Chain, j: nat)
    requires |first| < j <= |first + JoinTail(rest)|
    ensures rest != [] && j - |first| - 1 <= |Join(rest)|
    ensures (first + JoinTail(rest))[j..] == Join(rest)[j - |first| - 1..]
  {
  }

  lemma SubPathLater(c: Chain, k: Chain)
    requires k != [] && SubPath(c, k[1..])
    ensures SubPath(c, k)
  {
    var i :| 0 <= i && i + |c| <= |k[1..]| && PartAt(c, k[1..], i);
    assert k[i + 1..i + 1 + |c|] == k[1..][i..i + |c|];
    assert PartAt(c, k, i + 1);
  }

  /** Between plain ids the textual test is the sub-path test. */
  lemma TextTestExact(ids: set<string>, c: Chain, k: Chain)
    requires PlainIds(ids) && Over(ids, c) && Over(ids, k) && |c| >= 2
    ensures Covers(k, c) <==> SubPath(c, k)
  {
    if Covers(k, c) {
      var j :| 0 <= j <= |Join(k)| && At(Join(k), j, Join(c));
      IncludedIsSubPath(ids, c, k, j);
    }
    if SubPath(c, k) {
      var i :| 0 <= i && i + |c| <= |k| && PartAt(c, k, i);
      SubPathIncluded(c, k, i);
    }
  }

  // ------------------------------- exactly when the text test is the sub-path test

  lemma JoinTwo(x: string, c: Chain)
    requires c != []
    ensures Join([x] + c) == x + ">" + Join(c)
  {
  }

  /** An id that begins another, at the end of a flow. */
  lemma BeginningMisfires(front: Chain, a: string, b: string)
    requires a <= b && a != b
    ensures Covers(front + [b], front + [a]) && !SubPath(front + [a], front + [b])
  {
    var c, k := front + [a], front + [b];
    BeginningIncluded(front, a, b);
    assert At(Join(k), 0, Join(c));
    forall i | 0 <= i && i + |c| <= |k| ensures !PartAt(c, k, i) {
      assert k[i..i + |c|][|front|] == b && c[|front|] == a;
    }
  }

  lemma {:induction false} BeginningIncluded(front: Chain, a: string, b: string)
    requires a <= b
    ensures Join(front + [a]) <= Join(front + [b])
  {
    if front == [] {
      assert front + [a] == [a] && front + [b] == [b];
    } else {
      assert front + [a] == [front[0]] + (front[1..] + [a]);
      assert front + [b] == [front[0]] + (front[1..] + [b]);
      JoinTwo(front[0], front[1..] + [a]);
      JoinTwo(front[0], front[1..] + [b]);
      BeginningIncluded(front[1..], a, b);
    }
  }

  /** An id that ends another, at the start of a flow. */
  lemma EndingMisfires(rest: Chain, a: string, b: string)
    requires EndsWith(b, a) && a != b && rest != []
    ensures Covers([b] + rest, [a] + rest) && !SubPath([a] + rest, [b] + rest)
  {
    var c, k, j := [a] + rest, [b] + rest, |b| - |a|;
    JoinTwo(a, rest);
    JoinTwo(b, rest);
    assert Join(k)[j..] == b[j..] + (">" + Join(rest));
    assert Join(c) == a + (">" + Join(rest));
    assert At(Join(k), j, Join(c));
    forall i | 0 <= i && i + |c| <= |k| ensures !PartAt(c, k, i) {
      assert k[i..i + |c|][0] == b && c[0] == a;
    }
  }

  ghost predicate TextTestRight(ids: set<string>, c: Chain, k: Chain) {
    Over(ids, c) && Over(ids, k) && |c| >= 2 ==> (Covers(k, c) <==> SubPath(c, k))
  }

  /** Where the two tests agree over all chains of two or more ids, no id begins or ends
      another; and when no id is empty or contains the separator, that is enough. */
  lemma TextTestRightIff(ids: set<string>)
    ensures (forall c, k :: TextTestRight(ids, c, k)) ==> NoneConfused(ids)
    ensures Separable(ids) ==> ((forall c, k :: TextTestRight(ids, c, k)) <==> NoneConfused(ids))
  {
    if PlainIds(ids) {
      forall c, k ensures TextTestRight(ids, c, k) {
        if Over(ids, c) && Over(ids, k) && |c| >= 2 {
          TextTestExact(ids, c, k);
        }
      }
    }
    if !NoneConfused(ids) {
      var a, b := Confusable(ids);
      if a <= b {
        BeginningMisfires([a], a, b);
        assert !TextTestRight(ids, [a] + [a], [a] + [b]);
      } else {
        EndingMisfires([a], a, b);
        assert !TextTestRight(ids, [a] + [a], [b] + [a]);
      }
    }
  }

  lemma Confusable(ids: set<string>) returns (a: string, b: string)
    requires !NoneConfused(ids)
    ensures a in ids && b in ids && a != b && (a <= b || EndsWith(b, a))
  {
    a, b :| a in ids && b in ids && a != b && (a <= b || EndsWith(b, a));
  }

  /** What the search can find: three to six different symbols. */
  ghost predicate FlowOver(ids: set<string>, c: Chain) {
    Over(ids, c) && Distinct(c) && 3 <= |c| <= MAX_HOPS
  }

  ghost predicate FlowTestRight(ids: set<string>, c: Chain, k: Chain) {
    FlowOver(ids, c) && FlowOver(ids, k) ==> (Covers(k, c) <==> SubPath(c, k))
  }

  /** Where the two tests agree over the flows that the search can find, no id begins or ends
      another or there are not even four ids; and when no id is empty or contains the
      separator, that is enough. */
  lemma FlowTestRightIff(ids: set<string>)
    ensures (forall c, k :: FlowTestRight(ids, c, k)) ==> NoneConfused(ids) || |ids| < 4
    ensures Separable(ids) ==> ((forall c, k :: FlowTestRight(ids, c, k)) <==> NoneConfused(ids) || |ids| < 4)
  {
    if Separable(ids) && (NoneConfused(ids) || |ids| < 4) {
      forall c, k ensures FlowTestRight(ids, c, k) {
        if FlowOver(ids, c) && FlowOver(ids, k) {
          if PlainIds(ids) {
            TextTestExact(ids, c, k);
          } else {
            FewIdsExact(ids, c, k);
          }
        }
      }
    }
    if !NoneConfused(ids) && |ids| >= 4 {
      var a, b := Confusable(ids);
      var x, y := TwoMore(ids, a, b);
      if a <= b {
        BeginningMisfires([x, y], a, b);
        assert !FlowTestRight(ids, [x, y] + [a], [x, y] + [b]);
      } else {
        EndingMisfires([x, y], a, b);
        assert !FlowTestRight(ids, [a] + [x, y], [b] + [x, y]);
      }
    }
  }

  lemma TwoMore(ids: set<string>, a: string, b: string) returns (x: string, y: string)
    requires |ids| >= 4
    ensures x in ids && y in ids && x != y && x !in {a, b} && y !in {a, b}
  {
    var rest := ids - {a, b};
    SubsetCard(ids, rest + {a, b});
    assert |rest + {a, b}| <= |rest| + |{a, b}| && |{a, b}| <= 2;
    x :| x in rest;
    assert |rest - {x}| == |rest| - 1;
    y :| y in rest - {x};
  }

  /** Flows over three ids hold all of them, so their texts are equally long. */
  lemma FewIdsExact(ids: set<string>, c: Chain, k: Chain)
    requires Separable(ids) && |ids| < 4 && FlowOver(ids, c) && FlowOver(ids, k)
    ensures Covers(k, c) <==> SubPath(c, k)
  {
    AllThree(ids, c);
    AllThree(ids, k);
    JoinThree(c);
    JoinThree(k);
    assert k[0] in ids && k[1] in ids && k[2] in ids;
    assert |Join(c)| == |Join(k)|;
    if Covers(k, c) {
      var j :| 0 <= j <= |Join(k)| && At(Join(k), j, Join(c));
      assert j == 0;
      SameText(c, k);
      assert PartAt(c, k, 0);
    }
    if SubPath(c, k) {
      var i :| 0 <= i && i + |c| <= |k| && PartAt(c, k, i);
      SubPathIncluded(c, k, i);
    }
  }

  lemma AllThree(ids: set<string>, c: Chain)
    requires |ids| < 4 && FlowOver(ids, c)
    ensures |c| == 3 && ids == {c[0], c[1], c[2]}
  {
    var used := set x | x in c;
    DistinctCard(c);
    SubsetCard(used, ids);
    SubsetSame(used, ids);
    assert |c| == 3;
    assert forall x :: x in c <==> x == c[0] || x == c[1] || x == c[2];
  }

  lemma SubsetSame(a: set<string>, b: set<string>)
    requires a <= b && |a| >= |b|
    ensures a == b
  {
    if x :| x in b && x !in a {
      SubsetCard(a + {x}, b);
    }
  }

  lemma JoinThree(c: Chain)
    requires |c| == 3
    ensures Join(c) == c[0] + ">" + (c[1] + ">" + c[2])
  {
    assert c[1..][1..] == [c[2]];
    JoinSplit(c);
    JoinSplit(c[1..]);
  }

  /** Two flows of three separable ids with the same text are the same. */
  lemma SameText(c: Chain, k: Chain)
    requires |c| == 3 && |k| == 3 && Join(c) == Join(k)
    requires forall i :: 0 <= i < 3 ==> '>' !in c[i] && '>' !in k[i]
    ensures c == k
  {
    JoinThree(c);
    JoinThree(k);
    SameHead(c[0], c[1] + ">" + c[2], k[0], k[1] + ">" + k[2]);
    SameHead(c[1], c[2], k[1], k[2]);
  }

  lemma SameHead(a: string, x: string, b: string, y: string)
    requires '>' !in a && '>' !in b && a + ">" + x == b + ">" + y
    ensures a == b && x == y
  {
    assert b + ">" + y == b + (">" + y);
    FirstPartSame(a, x, b, ">" + y);
    assert (">" + x)[1..] == x && (">" + y)[1..] == y;
    assert |x| == |y|;
    TailPrefix(x, y);
  }

  // ------------------------------------------------------------- real node ids

  datatype NodeKind =
    FileKind | ModuleKind | ClassKind | StructKind | InterfaceKind | TraitKind | ProtocolKind |
    FunctionKind | MethodKind | PropertyKind | FieldKind | VariableKind | ConstantKind | EnumKind |
    EnumMemberKind | TypeAliasKind | NamespaceKind | ParameterKind | ImportKind | ExportKind |
    RouteKind | ComponentKind

  function KindName(kind: NodeKind): string {
    match kind
    case FileKind => "file"
    case ModuleKind => "module"
    case ClassKind => "class"
    case StructKind => "struct"
    case InterfaceKind => "interface"
    case TraitKind => "trait"
    case ProtocolKind => "protocol"
    case FunctionKind => "function"
    case MethodKind => "method"
    case PropertyKind => "property"
    case FieldKind => "field"
    case VariableKind => "variable"
    case ConstantKind => "constant"
    case EnumKind => "enum"
    case EnumMemberKind => "enum_member"
    case TypeAliasKind => "type_alias"
    case NamespaceKind => "namespace"
    case ParameterKind => "parameter"
    case ImportKind => "import"
    case ExportKind => "export"
    case RouteKind => "route"
    case ComponentKind => "component"
  }

  /** `generateNodeId`: the kind, a colon and 32 hexadecimal digits. */
  ghost predicate Hashed(id: string, kind: NodeKind, digits: string) {
    id == KindName(kind) + ":" + digits && |digits| == 32 && ':' !in digits && '>' !in digits
  }

  ghost predicate IsHashed(id: string) {
    exists kind, digits :: Hashed(id, kind, digits)
  }

  ghost predicate AllHashed(ids: set<string>) {
    forall id :: id in ids ==> IsHashed(id)
  }

  /** The kind and the digits of a hashed id can be read off its end. */
  lemma HashedEnding(a: string, b: string, kindA: string, kindB: string, da: string, db: string)
    requires a == kindA + ":" + da && b == kindB + ":" + db && |da| == |db| == 32
    ensures EndsWith(b, a) ==> EndsWith(kindB, kindA) && da == db
  {
    if EndsWith(b, a) {
      var n := |b| - |a|;
      assert b[n..] == kindB[n..] + ":" + db;
      assert kindB[n..] == b[n..][..|kindA|] == a[..|kindA|] == kindA;
      assert db == b[|b| - 32..] == a[|a| - 32..] == da;
    }
  }

  lemma HashedBeginning(a: string, b: string, kindA: string, kindB: string, da: string, db: string)
    requires a == kindA + ":" + da && b == kindB + ":" + db && |da| == |db| == 32
    requires ':' !in kindA && ':' !in kindB
    ensures a <= b ==> a == b
  {
    if a <= b {
      forall i | 0 <= i < |kindB| ensures b[i] != ':' {
        assert b[i] == kindB[i];
      }
      assert b[|kindA|] == a[|kindA|] == ':';
      forall i | 0 <= i < |kindA| ensures b[i] != ':' {
        assert b[i] == a[i] == kindA[i];
      }
      assert b[|kindB|] == ':';
      assert |kindA| == |kindB|;
    }
  }

  /** Tells the kinds apart by three of their last letters, but for `import` and `export`. */
  function KindNumber(l1: char, l2: char, l4: char): int {
    if l1 == 'e' then
      (if l2 == 'l' then (if l4 == 'f' then 0 else if l4 == 'd' then 1 else 11)
       else if l2 == 'c' then (if l4 == 'f' then 4 else 16) else 20)
    else if l1 == 't' then
      (if l2 == 'c' then 3 else if l2 == 'i' then 5 else if l2 == 'r' then 18 else if l4 == 't' then 12 else 21)
    else if l1 == 's' then (if l2 == 's' then 2 else 15)
    else if l1 == 'd' then (if l2 == 'o' then 8 else 10)
    else if l1 == 'r' then (if l4 == 'm' then 14 else 17)
    else if l1 == 'l' then 6 else if l1 == 'n' then 7 else if l1 == 'y' then 9 else if l1 == 'm' then 13 else -1
  }

  function NumberOf(kind: string): int
    requires |kind| >= 4
  {
    KindNumber(kind[|kind| - 1], kind[|kind| - 2], kind[|kind| - 4])
  }

  function Number(kind: NodeKind): int {
    match kind
    case FileKind => 0
    case ModuleKind => 1
    case ClassKind => 2
    case StructKind => 3
    case InterfaceKind => 4
    case TraitKind => 5
    case ProtocolKind => 6
    case FunctionKind => 7
    case MethodKind => 8
    case PropertyKind => 9
    case FieldKind => 10
    case VariableKind => 11
    case ConstantKind => 12
    case EnumKind => 13
    case EnumMemberKind => 14
    case TypeAliasKind => 15
    case NamespaceKind => 16
    case ParameterKind => 17
    case ImportKind => 18
    case ExportKind => 18
    case RouteKind => 20
    case ComponentKind => 21
  }

  lemma KindsNumbered(kind: NodeKind)
    ensures |KindName(kind)| >= 4 && NumberOf(KindName(kind)) == Number(kind)
    ensures kind == ImportKind || kind == ExportKind ==> |KindName(kind)| == 6
  {
  }

  /** No kind ends another. */
  lemma KindsDiffer(a: NodeKind, b: NodeKind)
    requires EndsWith(KindName(b), KindName(a))
    ensures KindName(a) == KindName(b)
  {
    KindsNumbered(a);
    KindsNumbered(b);
    EndingLetters(KindName(a), KindName(b));
    SameNumber(a, b);
  }

  lemma SameNumber(a: NodeKind, b: NodeKind)
    requires Number(a) == Number(b)
    ensures a == b || (a in {ImportKind, ExportKind} && b in {ImportKind, ExportKind})
  {
  }

  lemma KindIsPlain(kind: NodeKind)
    ensures ':' !in KindName(kind) && '>' !in KindName(kind)
  {
  }

  lemma EndingLetters(a: string, b: string)
    requires EndsWith(b, a) && |a| >= 4
    ensures NumberOf(a) == NumberOf(b) && (|a| == |b| ==> a == b)
  {
    var n := |b| - |a|;
    assert forall i :: 0 <= i < |a| ==> a[i] == b[n..][i] == b[n + i];
  }

  lemma TwoHashed(a: string, b: string, kindA: NodeKind, kindB: NodeKind, da: string, db: string)
    requires Hashed(a, kindA, da) && Hashed(b, kindB, db)
    ensures NotConfused(a, b)
  {
    var ka, kb := KindName(kindA), KindName(kindB);
    KindIsPlain(kindA);
    KindIsPlain(kindB);
    HashedBeginning(a, b, ka, kb, da, db);
    HashedEnding(a, b, ka, kb, da, db);
    if EndsWith(kb, ka) {
      KindsDiffer(kindA, kindB);
    }
  }

  predicate NotConfused(a: string, b: string) {
    a != "" && '>' !in a && (a <= b ==> a == b) && (EndsWith(b, a) ==> a == b)
  }

  lemma IdsNotConfused(a: string, b: string)
    requires IsHashed(a) && IsHashed(b)
    ensures NotConfused(a, b)
  {
    var kindA, da :| Hashed(a, kindA, da);
    var kindB, db :| Hashed(b, kindB, db);
    TwoHashed(a, b, kindA, kindB, da, db);
  }

  lemma PairwisePlain(ids: set<string>)
    requires forall a, b :: a in ids && b in ids ==> NotConfused(a, b)
    ensures PlainIds(ids)
  {
    forall a | a in ids ensures a != "" && '>' !in a {
      assert NotConfused(a, a);
    }
    forall a, b | a in ids && b in ids ensures (a <= b ==> a == b) && (EndsWith(b, a) ==> a == b) {
      assert NotConfused(a, b);
    }
  }

  /** Among the ids that extractors hash the text test never errs. */
  lemma HashedIdsArePlain(ids: set<string>)
    requires AllHashed(ids)
    ensures PlainIds(ids)
  {
    forall a, b | a in ids && b in ids ensures NotConfused(a, b) {
      IdsNotConfused(a, b);
    }
    PairwisePlain(ids);
  }

  /** `rn-export:` ids end in a method name, and so one may begin another: a flow into `get`
      is dropped once the same flow into `getAll` is kept. */
  lemma TextTestMisfires(file: string, moduleName: string, front: Chain)
    ensures var id := "rn-export:" + file + ":" + moduleName + ".";
      Covers(front + [id + "getAll"], front + [id + "get"]) && !SubPath(front + [id + "get"], front + [id + "getAll"])
  {
    var id := "rn-export:" + file + ":" + moduleName + ".";
    assert id + "getAll" == (id + "get") + "All";
    BeginningMisfires(front, id + "get", id + "getAll");
  }

  function Across(a: char, b: char): (r: string)
    ensures |r| == 3 && r[0] == a && r[2] == b
  {
    [a, '>', b]
  }

  /** Ids that contain the separator: the text of a flow shows up across the ids of a flow
      that need not share a symbol with it. */
  lemma CoversAcross(a: char, b: char, c: char, d: char, e: char, f: char, g: char, h: char)
    ensures Covers([Across(a, b), Across(c, d), Across(e, f), Across(g, h)], [Across(b, c), Across(d, e), Across(f, g)])
  {
    var rest := [Across(c, d), Across(e, f), Across(g, h)];
    var k, x := [Across(a, b)] + rest, [Across(b, c), Across(d, e), Across(f, g)];
    JoinOfThree(Across(b, c), Across(d, e), Across(f, g));
    JoinOfThree(Across(c, d), Across(e, f), Across(g, h));
    JoinTwo(Across(a, b), rest);
    var text := [b, '>', c, '>', d, '>', e, '>', f, '>', g];
    assert Join(x) == text;
    assert Join(k) == [a, '>'] + (text + ['>', h]);
    assert Join(k)[2..] == text + ['>', h];
    assert At(Join(k), 2, text);
  }

  lemma JoinOfThree(x: string, y: string, z: string)
    ensures Join([x, y, z]) == x + ">" + (y + ">" + z)
  {
    JoinThree([x, y, z]);
  }

  lemma NotSubPath(c: Chain, k: Chain)
    requires c != [] && c[0] !in k
    ensures !SubPath(c, k)
  {
    forall i | 0 <= i && i + |c| <= |k| ensures !PartAt(c, k, i) {
      assert k[i..i + |c|][0] == k[i];
    }
  }

  const SHOWN: Chain := [Across('A', 'B'), Across('C', 'D'), Across('E', 'F'), Across('G', 'H')]
  const HIDDEN: Chain := [Across('B', 'C'), Across('D', 'E'), Across('F', 'G')]

  function CrossedIds(): set<string> {
    (set x | x in SHOWN) + (set x | x in HIDDEN)
  }

  /** Of these ids none begins or ends another, and yet a flow over them is dropped for one
      that shares no symbol with it. */
  lemma SeparatorMisfires()
    ensures NoneConfused(CrossedIds()) && FlowOver(CrossedIds(), HIDDEN) && FlowOver(CrossedIds(), SHOWN)
    ensures Covers(SHOWN, HIDDEN) && !SubPath(HIDDEN, SHOWN)
  {
    ShownIsFlow();
    HiddenIsFlow();
    SameLength(CrossedIds(), 3);
    NotSubPath(HIDDEN, SHOWN);
    CoversAcross('A', 'B', 'C', 'D', 'E', 'F', 'G', 'H');
  }

  lemma ShownIsFlow()
    ensures FlowOver(CrossedIds(), SHOWN) && HIDDEN[0] !in SHOWN
  {
  }

  lemma HiddenIsFlow()
    ensures FlowOver(CrossedIds(), HIDDEN)
  {
  }

  lemma SameLength(ids: set<string>, n: nat)
    requires forall a :: a in ids ==> |a| == n
    ensures NoneConfused(ids)
  {
    forall a, b | a in ids && b in ids && EndsWith(b, a) ensures a == b {
      assert b[0..] == b;
    }
  }

  lemma {:induction false} RootCountAppend(roots: set<string>, a: Chain, b: Chain)
    ensures RootCount(roots, a + b) == RootCount(roots, a) + RootCount(roots, b)
  {
    if a == [] {
      assert a + b == b;
    } else {
      assert (a + b)[1..] == a[1..] + b;
      RootCountAppend(roots, a[1..], b);
    }
  }

  function RootPlaces(roots: set<string>, c: Chain, n: nat): set<int> {
    set i | n <= i < |c| && c[i] in roots
  }

  lemma {:induction false} RootCountFrom(roots: set<string>, c: Chain, n: nat)
    requires n <= |c|
    ensures RootCount(roots, c[n..]) == |RootPlaces(roots, c, n)|
    decreases |c| - n
  {
    if n == |c| {
      assert RootPlaces(roots, c, n) == {};
    } else {
      RootCountFrom(roots, c, n + 1);
      assert c[n..][1..] == c[n + 1..];
      assert RootPlaces(roots, c, n) == RootPlaces(roots, c, n + 1) + (if c[n] in roots then {n as int} else {});
    }
  }

  /** How many places of the chain hold a root. */
  lemma RootCountExact(roots: set<string>, c: Chain)
    ensures RootCount(roots, c) == |set i | 0 <= i < |c| && c[i] in roots|
  {
    RootCountFrom(roots, c, 0);
    assert c[0..] == c;
    assert RootPlaces(roots, c, 0) == set i | 0 <= i < |c| && c[i] in roots;
  }

  /** A chain that comes first is never a proper sub-path of a later one. */
  lemma EarlierIsNoSubPath(roots: set<string>, a: Chain, b: Chain)
    requires Before(roots, a, b) && SubPath(a, b)
    ensures a == b
  {
    var i :| 0 <= i && i + |a| <= |b| && PartAt(a, b, i);
    assert b == b[..i] + a + b[i + |a|..];
    RootCountAppend(roots, b[..i] + a, b[i + |a|..]);
    RootCountAppend(roots, b[..i], a);
  }

  /** At most three relevant chains are kept, best first; none is part of another; and a
      relevant chain is left out only if its text occurs in a kept one or three are kept. */
  method Select(roots: set<string>, chains: seq<Chain>) returns (kept: seq<Chain>)
    requires forall c :: c in chains ==> c != []
    ensures |kept| <= MAX_KEPT
    ensures forall c :: c in kept ==> c in chains && RootCount(roots, c) >= 2
    ensures forall i, j :: 0 <= i < j < |kept| ==> Before(roots, kept[i], kept[j])
    ensures forall i, j :: 0 <= i < |kept| && 0 <= j < |kept| && i != j ==> !SubPath(kept[i], kept[j])
    ensures forall c :: c in chains && RootCount(roots, c) >= 2 ==>
      Drops(kept, c) || |kept| == MAX_KEPT
  {
    var le := (a: Chain, b: Chain) => Before(roots, a, b);
    var relevant := Filter(chains, c => RootCount(roots, c) >= 2);
    var sorted := Sort(relevant, le);
    SortSorted(relevant, le);
    ghost var from;
    kept, from := KeepFirst(sorted);
    forall i, j | 0 <= i < j < |kept| ensures Before(roots, kept[i], kept[j]) {
      assert le(sorted[from[i]], sorted[from[j]]);
    }
    forall c | c in kept ensures c != [] && c in chains && RootCount(roots, c) >= 2 {
      var i :| 0 <= i < |kept| && kept[i] == c;
      assert sorted[from[i]] in sorted;
    }
    NoneIsPart(roots, kept);
  }

  /** The loop over the ranked chains; `from` tells where each kept one stood. */
  method KeepFirst(sorted: seq<Chain>) returns (kept: seq<Chain>, ghost from: seq<nat>)
    ensures |kept| <= MAX_KEPT
    ensures StandAt(sorted, |sorted|, kept, from)
    ensures NoneCovers(kept)
    ensures AllDrop(kept, sorted, |sorted|) || |kept| == MAX_KEPT
  {
    kept, from := [], [];
    for n := 0 to |sorted|
      invariant |kept| < MAX_KEPT
      invariant StandAt(sorted, n, kept, from)
      invariant NoneCovers(kept)
      invariant AllDrop(kept, sorted, n)
    {
      if !Drops(kept, sorted[n]) {
        KeepStep(sorted, n, kept, from);
        kept, from := kept + [sorted[n]], from + [n];
        if |kept| >= MAX_KEPT {
          return;
        }
      }
    }
  }

  /** The kept chains are the ranked ones at increasing places below `n`. */
  ghost predicate StandAt(sorted: seq<Chain>, n: nat, kept: seq<Chain>, from: seq<nat>) {
    && n <= |sorted| && |from| == |kept|
    && (forall i :: 0 <= i < |kept| ==> from[i] < n && kept[i] == sorted[from[i]])
    && (forall i, j :: 0 <= i < j < |kept| ==> from[i] < from[j])
  }

  ghost predicate AllDrop(kept: seq<Chain>, sorted: seq<Chain>, n: nat) {
    n <= |sorted| && forall m {:trigger Drops(kept, sorted[m])} :: 0 <= m < n ==> Drops(kept, sorted[m])
  }

  lemma KeepStep(sorted: seq<Chain>, n: nat, kept: seq<Chain>, from: seq<nat>)
    requires n < |sorted| && StandAt(sorted, n, kept, from) && NoneCovers(kept)
    requires AllDrop(kept, sorted, n) && !Drops(kept, sorted[n])
    ensures StandAt(sorted, n + 1, kept + [sorted[n]], from + [n])
    ensures NoneCovers(kept + [sorted[n]])
    ensures AllDrop(kept + [sorted[n]], sorted, n + 1)
  {
    StillNoneCovers(kept, sorted[n]);
    forall m | 0 <= m <= n ensures Drops(kept + [sorted[n]], sorted[m]) {
      DropsMore(kept, sorted[n], sorted[m]);
    }
  }

  /** No kept chain's text occurs in an earlier one's. */
  ghost predicate NoneCovers(kept: seq<Chain>) {
    forall i, j :: 0 <= i < j < |kept| ==> !Covers(kept[i], kept[j])
  }

  lemma DropsMore(kept: seq<Chain>, c: Chain, x: Chain)
    requires Drops(kept, x) || x == c
    ensures Drops(kept + [c], x)
  {
    var more := kept + [c];
    if x == c {
      assert At(Join(c), 0, Join(c));
      assert Covers(more[|kept|], x);
    } else {
      var i :| 0 <= i < |kept| && Covers(kept[i], x);
      assert Covers(more[i], x);
    }
  }

  lemma StillNoneCovers(kept: seq<Chain>, c: Chain)
    requires NoneCovers(kept) && !Drops(kept, c)
    ensures NoneCovers(kept + [c])
  {
    var more := kept + [c];
    forall i, j | 0 <= i < j < |more| ensures !Covers(more[i], more[j]) {
      assert more[i] == kept[i];
      if j == |kept| {
        assert more[j] == c;
      } else {
        assert more[j] == kept[j];
      }
    }
  }

  lemma NoneIsPart(roots: set<string>, kept: seq<Chain>)
    requires forall c :: c in kept ==> c != []
    requires forall i, j :: 0 <= i < j < |kept| ==> Before(roots, kept[i], kept[j])
    requires NoneCovers(kept)
    ensures forall i, j :: 0 <= i < |kept| && 0 <= j < |kept| && i != j ==> !SubPath(kept[i], kept[j])
  {
    forall i, j | 0 <= i < |kept| && 0 <= j < |kept| && i != j ensures !SubPath(kept[i], kept[j]) {
      assert kept[i] in kept && kept[j] in kept;
      if SubPath(kept[i], kept[j]) {
        if i < j {
          EarlierIsNoSubPath(roots, kept[i], kept[j]);
          assert PartAt(kept[j], kept[i], 0);
          SubPathIncluded(kept[j], kept[i], 0);
        } else {
          var m :| 0 <= m && m + |kept[i]| <= |kept[j]| && PartAt(kept[i], kept[j], m);
          SubPathIncluded(kept[i], kept[j], m);
        }
      }
    }
  }

  // ------------------------------------------------------------- the section

  datatype Edge = Edge(source: string, target: string, kind: string)

  predicate IsCall(nodes: set<string>, e: Edge) {
    e.kind == "calls" && e.source in nodes && e.target in nodes
  }

  function Callees(nodes: set<string>, edges: seq<Edge>, s: string): seq<string> {
    if edges == [] then []
    else
      var init, e := Callees(nodes, edges[..|edges| - 1], s), edges[|edges| - 1];
      if IsCall(nodes, e) && e.source == s then init + [e.target] else init
  }

  lemma {:induction false} CalleesExact(nodes: set<string>, edges: seq<Edge>, s: string, t: string)
    ensures t in Callees(nodes, edges, s) <==> Called(nodes, edges, s, t)
  {
    if edges != [] {
      var init, last := edges[..|edges| - 1], edges[|edges| - 1];
      assert forall e :: e in edges <==> e in init || e == last;
      CalleesExact(nodes, init, s, t);
    }
  }

  /** The adjacency lists, and their keys in the order in which they were set. */
  method BuildAdjacency(nodes: set<string>, edges: seq<Edge>) returns (adj: Adjacency, keys: seq<string>)
    ensures forall s :: Targets(adj, s) == Callees(nodes, edges, s)
    ensures forall s :: s in keys <==> s in adj
  {
    adj, keys := map[], [];
    for i := 0 to |edges|
      invariant forall s :: Targets(adj, s) == Callees(nodes, edges[..i], s)
      invariant forall s :: s in keys <==> s in adj
    {
      var e := edges[i];
      assert edges[..i + 1][..i] == edges[..i];
      if IsCall(nodes, e) {
        if e.source in adj {
          adj := adj[e.source := adj[e.source] + [e.target]];
        } else {
          adj, keys := adj[e.source := [e.target]], keys + [e.source];
        }
      }
    }
    assert edges[..|edges|] == edges;
  }

  /** What a reader of the section may rely on, for each chain. */
  ghost predicate Reliable(nodes: set<string>, edges: seq<Edge>, roots: seq<string>, c: Chain) {
    && 3 <= |c| <= 6 && Distinct(c)
    && (forall i :: 0 <= i < |c| - 1 ==> Called(nodes, edges, c[i], c[i + 1]))
    && (roots != [] ==> c[0] in roots)
    && RootCount((set r | r in roots), c) >= 2
  }

  ghost predicate Called(nodes: set<string>, edges: seq<Edge>, s: string, t: string) {
    exists e :: e in edges && e.kind == "calls" && e.source == s && e.target == t && s in nodes && t in nodes
  }

  function FirstFive(ids: seq<string>): seq<string> {
    if |ids| > MAX_STARTS then ids[..MAX_STARTS] else ids
  }

  /** Every flow from a start that holds two roots is shown, or its text occurs in one that
      is, or three are shown. */
  ghost predicate NoneMissing(adj: Adjacency, starts: seq<string>, roots: set<string>, kept: seq<Chain>) {
    forall s, c :: s in starts && IsResult(adj, [s], c) && RootCount(roots, c) >= 2 ==>
      Drops(kept, c) || |kept| == 3
  }

  lemma NoneMissed(adj: Adjacency, starts: seq<string>, roots: set<string>, chains: seq<Chain>, kept: seq<Chain>)
    requires chains == AllChains(adj, starts)
    requires forall c :: c in chains && RootCount(roots, c) >= 2 ==> Drops(kept, c) || |kept| == MAX_KEPT
    ensures NoneMissing(adj, starts, roots, kept)
  {
    forall s, c | s in starts && IsResult(adj, [s], c) ensures c in chains {
      AllChainsExact(adj, starts, c);
    }
  }

  method BuildCallPaths(nodes: set<string>, edges: seq<Edge>, roots: seq<string>)
      returns (kept: seq<Chain>, ghost adj: Adjacency, ghost starts: seq<string>)
    ensures |kept| <= 3
    ensures forall c :: c in kept ==> Reliable(nodes, edges, roots, c)
    ensures forall i, j :: 0 <= i < |kept| && 0 <= j < |kept| && i != j ==> !SubPath(kept[i], kept[j])
    ensures forall s :: Targets(adj, s) == Callees(nodes, edges, s)
    ensures |starts| <= 5
    ensures roots != [] ==> starts <= Filter(roots, r => r in adj)
    ensures roots != [] ==> |starts| == 5 || starts == Filter(roots, r => r in adj)
    ensures roots == [] ==> (forall s :: s in starts ==> s in adj)
    ensures roots == [] ==> |starts| == 5 || forall s :: s in adj ==> s in starts
    ensures DfsAll(adj, starts, 2000).budget >= 0 ==> NoneMissing(adj, starts, (set r | r in roots), kept)
  {
    var calls, keys := BuildAdjacency(nodes, edges);
    adj := calls;
    var candidates := if |roots| > 0 then Filter(roots, r => r in calls) else keys;
    var from := FirstFive(candidates);
    starts := from;
    var chains := FindChains(calls, from);
    forall c | c in chains ensures exists s :: s in from && IsResult(calls, [s], c) {
      SearchIsSound(calls, from, BUDGET, c);
    }
    var rootSet := set r | r in roots;
    kept := Select(rootSet, chains);
    forall c | c in kept ensures Reliable(nodes, edges, roots, c) {
      var s :| s in from && IsResult(calls, [s], c);
      ChainReliable(nodes, edges, roots, calls, candidates, s, c);
    }
    SearchIsPrefix(calls, from, BUDGET);
    if DfsAll(calls, from, BUDGET).budget >= 0 {
      NoneMissed(calls, from, rootSet, chains, kept);
    }
  }

  lemma ChainReliable(nodes: set<string>, edges: seq<Edge>, roots: seq<string>, adj: Adjacency, candidates: seq<string>,
                      s: string, c: Chain)
    requires forall x :: Targets(adj, x) == Callees(nodes, edges, x)
    requires roots != [] ==> forall x :: x in candidates ==> x in roots
    requires s in candidates && IsResult(adj, [s], c) && RootCount((set r | r in roots), c) >= 2
    ensures Reliable(nodes, edges, roots, c)
  {
    assert c[0] == [s][0];
    forall i | 0 <= i < |c| - 1 ensures Called(nodes, edges, c[i], c[i + 1]) {
      CalleesExact(nodes, edges, c[i], c[i + 1]);
    }
  }
}
