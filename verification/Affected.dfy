/** `codegraph affected`: which test files depend, within a depth, on the changed files. */
module Affected {

  /** `dependents` is `getFileDependents`; `isTest` the pattern test. */
  datatype Graph = Graph(dependents: string -> seq<string>, isTest: string -> bool)

  /** `parseInt` of the option: comparing with NaN is never true. */
  datatype Depth = Bound(n: int) | NotANumber

  predicate Below(d: nat, max: Depth) {
    match max case Bound(n) => d < n case NotANumber => true
  }

  /** `v` is reached from `file` in at most `n` steps, none of which leaves a test file. */
  ghost predicate Within(g: Graph, file: string, v: string, n: nat)
    decreases n
  {
    v == file || (n > 0 && exists u :: Within(g, file, u, n - 1) && StepTo(g, u, v))
  }

  predicate StepTo(g: Graph, u: string, v: string) {
    !g.isTest(u) && v in g.dependents(u)
  }

  /** Paths of this length are allowed: any at all when the option is no number. */
  predicate Allowed(n: nat, max: Depth) {
    match max case Bound(k) => n == 0 || n <= k case NotANumber => true
  }

  /** Reached by a path whose length the option allows. */
  ghost predicate Reached(g: Graph, file: string, v: string, max: Depth) {
    exists n: nat :: Allowed(n, max) && Within(g, file, v, n)
  }

  /** The same said with an explicit path: every vertex but the last is not a test. */
  ghost predicate IsPath(g: Graph, p: seq<string>, file: string, v: string) {
    && p != [] && p[0] == file && p[|p| - 1] == v
    && forall i :: 0 <= i < |p| - 1 ==> !g.isTest(p[i]) && p[i + 1] in g.dependents(p[i])
  }

  /** Reached means that there is a path of allowed length. */
  lemma ReachedIffPath(g: Graph, file: string, v: string, max: Depth)
    ensures Reached(g, file, v, max) <==> exists p :: IsPath(g, p, file, v) && Allowed(|p| - 1, max)
  {
    if Reached(g, file, v, max) {
      var n: nat :| Allowed(n, max) && Within(g, file, v, n);
      WithinIffPath(g, file, v, n);
      var p :| IsPath(g, p, file, v) && |p| - 1 <= n;
      assert Allowed(|p| - 1, max);
    }
    if p :| IsPath(g, p, file, v) && Allowed(|p| - 1, max) {
      WithinIffPath(g, file, v, |p| - 1);
    }
  }

  lemma {:induction false} WithinIffPath(g: Graph, file: string, v: string, n: nat)
    ensures Within(g, file, v, n) <==> exists p :: IsPath(g, p, file, v) && |p| - 1 <= n
    decreases n
  {
    if Within(g, file, v, n) {
      if v == file {
        assert IsPath(g, [file], file, v);
      } else {
        var u :| Within(g, file, u, n - 1) && StepTo(g, u, v);
        WithinIffPath(g, file, u, n - 1);
        var p :| IsPath(g, p, file, u) && |p| - 1 <= n - 1;
        assert IsPath(g, p + [v], file, v);
      }
    }
    if p :| IsPath(g, p, file, v) && |p| - 1 <= n {
      if |p| > 1 {
        var q, u := p[..|p| - 1], p[|p| - 2];
        assert IsPath(g, q, file, u);
        WithinIffPath(g, file, u, n - 1);
        assert !g.isTest(p[|p| - 2]) && p[|p| - 2 + 1] in g.dependents(p[|p| - 2]);
        assert StepTo(g, u, v);
      }
    }
  }

  lemma {:induction false} WithinGrows(g: Graph, file: string, v: string, m: nat, n: nat)
    requires m <= n && Within(g, file, v, m)
    ensures Within(g, file, v, n)
    decreases m
  {
    if v != file {
      var u :| Within(g, file, u, m - 1) && StepTo(g, u, v);
      WithinGrows(g, file, u, m - 1, n - 1);
    }
  }

  ghost predicate IsDistance(g: Graph, file: string, v: string, n: nat) {
    Within(g, file, v, n) && (n > 0 ==> !Within(g, file, v, n - 1))
  }

  /** `dist[v]` is the length of a shortest path to `v`. */
  ghost predicate Shortest(g: Graph, file: string, dist: map<string, nat>) {
    forall v {:trigger IsDistance(g, file, v, dist[v])} :: v in dist ==> IsDistance(g, file, v, dist[v])
  }

  ghost predicate Waiting(queue: seq<(string, nat)>, v: string) {
    exists i :: 0 <= i < |queue| && queue[i].0 == v
  }

  /** All dependents of `v` have been visited. */
  ghost predicate Expanded(g: Graph, dist: map<string, nat>, v: string) {
    forall w :: w in g.dependents(v) ==> w in dist
  }

  /** The invariant of the search: `dist` holds the first-visit depths, the queue is sorted
      by depth around `level`, and everything within `level` steps has been visited. */
  ghost predicate Search(g: Graph, file: string, max: Depth, dist: map<string, nat>,
                         queue: seq<(string, nat)>, level: nat)
  {
    && file in dist && dist[file] == 0 && !g.isTest(file)
    && Shortest(g, file, dist)
    && (forall v :: v in dist ==> dist[v] == 0 || Below(dist[v] - 1, max))
    && (forall i :: 0 <= i < |queue| ==>
          queue[i].0 in dist && queue[i].1 == dist[queue[i].0] && !g.isTest(queue[i].0))
    && (forall i :: 0 <= i < |queue| ==> level <= queue[i].1 <= level + 1)
    && (forall i, j :: 0 <= i < j < |queue| ==> queue[i].1 <= queue[j].1)
    && (forall v {:trigger Within(g, file, v, level)} :: Within(g, file, v, level) ==> v in dist)
  }

  /** Every visited non-test file was expanded, is too deep, or still waits. */
  ghost predicate Progressed(g: Graph, max: Depth, dist: map<string, nat>, queue: seq<(string, nat)>) {
    forall v :: v in dist && !g.isTest(v) ==>
      Waiting(queue, v) || !Below(dist[v], max) || Expanded(g, dist, v)
  }

  /** The same for all but the file just taken from the queue. */
  ghost predicate ProgressedBut(g: Graph, max: Depth, dist: map<string, nat>, queue: seq<(string, nat)>, head: string) {
    forall v :: v in dist && !g.isTest(v) && v != head ==>
      Waiting(queue, v) || !Below(dist[v], max) || Expanded(g, dist, v)
  }

  /** When the first level is used up, everything one step further has been visited. */
  lemma NextLevel(g: Graph, file: string, max: Depth, dist: map<string, nat>, queue: seq<(string, nat)>, level: nat)
    requires Search(g, file, max, dist, queue, level) && Progressed(g, max, dist, queue)
    requires queue != [] && queue[0].1 == level + 1
    ensures Search(g, file, max, dist, queue, level + 1)
  {
    forall v | Within(g, file, v, level + 1) ensures v in dist {
      if v != file {
        var u :| Within(g, file, u, level) && StepTo(g, u, v);
        ExpandedBefore(g, file, max, dist, queue, level, u);
      }
    }
  }

  lemma ExpandedBefore(g: Graph, file: string, max: Depth, dist: map<string, nat>, queue: seq<(string, nat)>,
                       level: nat, u: string)
    requires Search(g, file, max, dist, queue, level) && Progressed(g, max, dist, queue)
    requires queue != [] && queue[0].1 == level + 1
    requires Within(g, file, u, level) && !g.isTest(u)
    ensures Expanded(g, dist, u)
  {
    assert u in dist && IsDistance(g, file, u, dist[u]);
    if dist[u] > level {
      WithinGrows(g, file, u, level, dist[u] - 1);
    }
    forall i | 0 <= i < |queue| ensures queue[i].0 != u {
      assert queue[0].1 <= queue[i].1;
    }
    assert Below(dist[queue[0].0] - 1, max);
  }

  lemma EnterLevel(g: Graph, file: string, max: Depth, dist: map<string, nat>, queue: seq<(string, nat)>, level: nat)
    requires Search(g, file, max, dist, queue, level) && Progressed(g, max, dist, queue)
    requires queue != []
    ensures Search(g, file, max, dist, queue, queue[0].1)
  {
    if queue[0].1 > level {
      NextLevel(g, file, max, dist, queue, level);
    }
  }

  /** With an empty queue, every allowed path ends in a visited file. */
  lemma {:induction false} SearchIsComplete(g: Graph, file: string, max: Depth, dist: map<string, nat>,
                                            level: nat, v: string, n: nat)
    requires Search(g, file, max, dist, [], level) && Progressed(g, max, dist, [])
    requires Within(g, file, v, n) && (n == 0 || Below(n - 1, max))
    ensures v in dist
    decreases n
  {
    if v != file {
      var u :| Within(g, file, u, n - 1) && StepTo(g, u, v);
      SearchIsComplete(g, file, max, dist, level, u, n - 1);
      assert IsDistance(g, file, u, dist[u]);
      if dist[u] > n - 1 {
        WithinGrows(g, file, u, n - 1, dist[u] - 1);
      }
      assert Expanded(g, dist, u);
    }
  }

  /** A file first seen next to a head of depth `level` is at distance `level + 1`. */
  lemma FirstVisitIsShortest(g: Graph, file: string, max: Depth, dist: map<string, nat>,
                             queue: seq<(string, nat)>, level: nat, head: string, v: string)
    requires Search(g, file, max, dist, queue, level)
    requires head in dist && dist[head] == level && StepTo(g, head, v) && Below(level, max)
    requires v !in dist
    ensures var dist' := dist[v := level + 1];
      && Search(g, file, max, dist', queue, level)
      && (!g.isTest(v) ==> Search(g, file, max, dist', queue + [(v, level + 1)], level))
  {
    assert IsDistance(g, file, head, dist[head]);
    assert Within(g, file, v, level + 1);
    assert IsDistance(g, file, v, level + 1);
  }

  function Tests(g: Graph, s: set<string>): set<string> {
    set v | v in s && g.isTest(v)
  }

  /** The search from one changed file that is not itself a test. */
  method Search1(g: Graph, file: string, max: Depth, ghost universe: set<string>)
      returns (visited: set<string>, tests: set<string>)
    requires !g.isTest(file)
    requires Closed(g, universe)
    ensures forall v :: v in visited <==> Reached(g, file, v, max)
    ensures tests == Tests(g, visited)
  {
    var queue := [(file, 0)];
    visited, tests := {file}, {};
    ghost var dist: map<string, nat> := map[file := 0];
    ghost var level := 0;
    assert queue[0].0 == file;
    while |queue| > 0
      invariant dist.Keys == visited && tests == Tests(g, visited)
      invariant Search(g, file, max, dist, queue, level)
      invariant Progressed(g, max, dist, queue)
      decreases Unseen(universe, file, dist), |queue|
    {
      TurnKeeps(g, file, max, universe, Frontier(dist, queue), level);
      level := queue[0].1;
      visited, tests, queue, dist := TakeTurn(g, max, visited, tests, queue, dist);
    }
    assert queue == [];
    SearchIsExact(g, file, max, dist, level);
  }

  lemma SearchIsExact(g: Graph, file: string, max: Depth, dist: map<string, nat>, level: nat)
    requires Search(g, file, max, dist, [], level) && Progressed(g, max, dist, [])
    ensures forall v :: v in dist <==> Reached(g, file, v, max)
  {
    forall v ensures v in dist <==> Reached(g, file, v, max) {
      if v in dist {
        assert IsDistance(g, file, v, dist[v]);
      }
      if Reached(g, file, v, max) {
        var n: nat :| Allowed(n, max) && Within(g, file, v, n);
        SearchIsComplete(g, file, max, dist, level, v, n);
      }
    }
  }

  /** Taking the head off the queue leaves only the head itself unaccounted for. */
  lemma TakeHead(g: Graph, file: string, max: Depth, dist: map<string, nat>, queue: seq<(string, nat)>, level: nat)
    requires Search(g, file, max, dist, queue, level) && Progressed(g, max, dist, queue)
    requires queue != [] && queue[0].1 == level
    ensures Search(g, file, max, dist, queue[1..], level)
    ensures queue[0].0 in dist && dist[queue[0].0] == level && !g.isTest(queue[0].0)
    ensures ProgressedBut(g, max, dist, queue[1..], queue[0].0)
    ensures !Below(level, max) ==> Progressed(g, max, dist, queue[1..])
  {
    StillWaiting(queue);
  }

  lemma StillWaiting(queue: seq<(string, nat)>)
    requires queue != []
    ensures forall v :: Waiting(queue, v) && v != queue[0].0 ==> Waiting(queue[1..], v)
  {
    forall v | Waiting(queue, v) && v != queue[0].0 ensures Waiting(queue[1..], v) {
      var i :| 0 <= i < |queue| && queue[i].0 == v;
      assert queue[1..][i - 1].0 == v;
    }
  }

  lemma PushWaits(queue: seq<(string, nat)>, x: (string, nat))
    ensures forall v :: Waiting(queue, v) || v == x.0 ==> Waiting(queue + [x], v)
  {
    forall v | Waiting(queue, v) || v == x.0 ensures Waiting(queue + [x], v) {
      if Waiting(queue, v) {
        var i :| 0 <= i < |queue| && queue[i].0 == v;
        assert (queue + [x])[i].0 == v;
      } else {
        assert (queue + [x])[|queue|].0 == v;
      }
    }
  }

  /** The invariant of the inner loop: `dist0` and `queue0` are its starting point. */
  ghost predicate Expanding(g: Graph, file: string, max: Depth, dist0: map<string, nat>, queue0: seq<(string, nat)>,
                            dist: map<string, nat>, queue: seq<(string, nat)>, dependents: seq<string>,
                            i: nat, level: nat)
  {
    && Grown(dist0, dist, dependents, i)
    && Pushed(g, dist0, queue0, dist, queue)
    && Search(g, file, max, dist, queue, level)
  }

  ghost predicate Grown(dist0: map<string, nat>, dist: map<string, nat>, dependents: seq<string>, i: nat) {
    && i <= |dependents|
    && (forall v :: v in dist0 ==> v in dist && dist[v] == dist0[v])
    && (forall v :: v in dist ==> v in dist0 || v in dependents)
    && (forall k :: 0 <= k < i ==> dependents[k] in dist)
  }

  ghost predicate Pushed(g: Graph, dist0: map<string, nat>, queue0: seq<(string, nat)>,
                         dist: map<string, nat>, queue: seq<(string, nat)>)
  {
    && (dist.Keys == dist0.Keys ==> queue == queue0)
    && (forall v :: Waiting(queue0, v) ==> Waiting(queue, v))
    && (forall v :: v in dist && v !in dist0 && !g.isTest(v) ==> Waiting(queue, v))
  }

  lemma PushedMore(g: Graph, dist0: map<string, nat>, queue0: seq<(string, nat)>,
                   dist: map<string, nat>, queue: seq<(string, nat)>, dep: string, d: nat)
    requires Pushed(g, dist0, queue0, dist, queue) && dep !in dist && dist0.Keys <= dist.Keys
    ensures Pushed(g, dist0, queue0, dist[dep := d], if g.isTest(dep) then queue else queue + [(dep, d)])
  {
    PushWaits(queue, (dep, d));
    assert dep in dist[dep := d] && dep !in dist0;
  }

  lemma GrownMore(dist0: map<string, nat>, dist: map<string, nat>, dependents: seq<string>, i: nat, d: nat)
    requires Grown(dist0, dist, dependents, i) && i < |dependents| && dependents[i] !in dist
    ensures Grown(dist0, dist[dependents[i] := d], dependents, i + 1)
  {
    assert dependents[i] in dependents;
  }

  lemma VisitDependent(g: Graph, file: string, max: Depth, dist0: map<string, nat>, queue0: seq<(string, nat)>,
                       dist: map<string, nat>, queue: seq<(string, nat)>, head: string, i: nat, level: nat)
    requires var dependents := g.dependents(head);
      Expanding(g, file, max, dist0, queue0, dist, queue, dependents, i, level) && i < |dependents|
    requires head in dist && dist[head] == level && !g.isTest(head) && Below(level, max)
    requires g.dependents(head)[i] !in dist
    ensures var dep := g.dependents(head)[i];
      Expanding(g, file, max, dist0, queue0, dist[dep := level + 1],
                if g.isTest(dep) then queue else queue + [(dep, level + 1)], g.dependents(head), i + 1, level)
  {
    var dep := g.dependents(head)[i];
    assert StepTo(g, head, dep);
    GrownMore(dist0, dist, g.dependents(head), i, level + 1);
    FirstVisitIsShortest(g, file, max, dist, queue, level, head, dep);
    PushedMore(g, dist0, queue0, dist, queue, dep, level + 1);
  }

  /** What has been visited, with the depths, and what still waits. */
  datatype Frontier = Frontier(dist: map<string, nat>, queue: seq<(string, nat)>)

  function VisitOne(g: Graph, f: Frontier, dep: string, level: nat): Frontier {
    if dep in f.dist then f
    else Frontier(f.dist[dep := level + 1], if g.isTest(dep) then f.queue else f.queue + [(dep, level + 1)])
  }

  function VisitAll(g: Graph, f: Frontier, dependents: seq<string>, i: nat, level: nat): Frontier
    requires i <= |dependents|
  {
    if i == 0 then f else VisitOne(g, VisitAll(g, f, dependents, i - 1, level), dependents[i - 1], level)
  }

  lemma {:induction false} VisitAllKeeps(g: Graph, file: string, max: Depth, f: Frontier, head: string,
                                         i: nat, level: nat)
    requires Search(g, file, max, f.dist, f.queue, level) && i <= |g.dependents(head)|
    requires head in f.dist && f.dist[head] == level && !g.isTest(head) && Below(level, max)
    ensures var r := VisitAll(g, f, g.dependents(head), i, level);
      Expanding(g, file, max, f.dist, f.queue, r.dist, r.queue, g.dependents(head), i, level)
  {
    if i == 0 {
      assert Grown(f.dist, f.dist, g.dependents(head), 0);
      assert Pushed(g, f.dist, f.queue, f.dist, f.queue);
    } else {
      VisitAllKeeps(g, file, max, f, head, i - 1, level);
      var r := VisitAll(g, f, g.dependents(head), i - 1, level);
      if g.dependents(head)[i - 1] !in r.dist {
        VisitDependent(g, file, max, f.dist, f.queue, r.dist, r.queue, head, i - 1, level);
      }
    }
  }

  /** The inner loop over the dependents of the file taken from the queue. */
  method Expand(g: Graph, visited0: set<string>, tests0: set<string>, queue0: seq<(string, nat)>,
                ghost dist0: map<string, nat>, current: string, level: nat)
      returns (visited: set<string>, tests: set<string>, queue: seq<(string, nat)>, ghost dist: map<string, nat>)
    requires dist0.Keys == visited0 && tests0 == Tests(g, visited0)
    ensures Frontier(dist, queue) ==
      VisitAll(g, Frontier(dist0, queue0), g.dependents(current), |g.dependents(current)|, level)
    ensures dist.Keys == visited && tests == Tests(g, visited)
  {
    visited, tests, queue, dist := visited0, tests0, queue0, dist0;
    var dependents := g.dependents(current);
    for i := 0 to |dependents|
      invariant dist.Keys == visited && tests == Tests(g, visited)
      invariant Frontier(dist, queue) == VisitAll(g, Frontier(dist0, queue0), dependents, i, level)
    {
      var dep := dependents[i];
      if dep in visited {
        continue;
      }
      visited := visited + {dep};
      dist := dist[dep := level + 1];
      if g.isTest(dep) {
        tests := tests + {dep};
      } else {
        queue := queue + [(dep, level + 1)];
      }
    }
  }

  method TakeTurn(g: Graph, max: Depth, visited0: set<string>, tests0: set<string>, queue0: seq<(string, nat)>,
                  ghost dist0: map<string, nat>)
      returns (visited: set<string>, tests: set<string>, queue: seq<(string, nat)>, ghost dist: map<string, nat>)
    requires dist0.Keys == visited0 && tests0 == Tests(g, visited0) && queue0 != []
    ensures Frontier(dist, queue) == Turn(g, max, Frontier(dist0, queue0))
    ensures dist.Keys == visited && tests == Tests(g, visited)
  {
    var (current, depth) := queue0[0];
    queue := queue0[1..];
    if !Below(depth, max) {
      return visited0, tests0, queue, dist0;
    }
    visited, tests, queue, dist := Expand(g, visited0, tests0, queue, dist0, current, depth);
  }

  /** Expanding the head of the queue keeps the search going. */
  lemma ExpandKeeps(g: Graph, file: string, max: Depth, f: Frontier, head: string, level: nat)
    requires Search(g, file, max, f.dist, f.queue, level) && ProgressedBut(g, max, f.dist, f.queue, head)
    requires head in f.dist && f.dist[head] == level && !g.isTest(head) && Below(level, max)
    ensures var r := VisitAll(g, f, g.dependents(head), |g.dependents(head)|, level);
      && Search(g, file, max, r.dist, r.queue, level) && Progressed(g, max, r.dist, r.queue)
      && f.dist.Keys <= r.dist.Keys && (f.dist.Keys == r.dist.Keys ==> r.queue == f.queue)
      && forall v :: v in r.dist ==> v in f.dist || v in g.dependents(head)
  {
    VisitAllKeeps(g, file, max, f, head, |g.dependents(head)|, level);
    var r := VisitAll(g, f, g.dependents(head), |g.dependents(head)|, level);
    AllExpanded(g, file, max, f.dist, f.queue, r.dist, r.queue, head, level);
  }

  /** One turn of the outer loop. */
  function Turn(g: Graph, max: Depth, f: Frontier): Frontier
    requires f.queue != []
  {
    var (head, depth), rest := f.queue[0], Frontier(f.dist, f.queue[1..]);
    if Below(depth, max) then VisitAll(g, rest, g.dependents(head), |g.dependents(head)|, depth) else rest
  }

  ghost predicate Closed(g: Graph, universe: set<string>) {
    forall f, d :: d in g.dependents(f) ==> d in universe
  }

  /** How many files may still be found; a turn that finds none shortens the queue. */
  ghost function Unseen(universe: set<string>, file: string, dist: map<string, nat>): nat {
    |universe + {file} - dist.Keys|
  }

  lemma UnseenShrinks(universe: set<string>, file: string, dist: map<string, nat>, dist': map<string, nat>)
    requires dist.Keys <= dist'.Keys
    requires forall v :: v in dist' ==> v in dist || v in universe
    ensures dist.Keys == dist'.Keys || Unseen(universe, file, dist') < Unseen(universe, file, dist)
    ensures Unseen(universe, file, dist') <= Unseen(universe, file, dist)
  {
    var left, left' := universe + {file} - dist.Keys, universe + {file} - dist'.Keys;
    SmallerCard(left', left);
    if v :| v in dist' && v !in dist {
      assert v in left && v !in left';
    }
  }

  lemma {:induction false} SmallerCard(a: set<string>, b: set<string>)
    requires a <= b
    ensures |a| <= |b| && (a != b ==> |a| < |b|)
  {
    assert b == a + (b - a);
  }

  lemma TurnKeeps(g: Graph, file: string, max: Depth, universe: set<string>, f: Frontier, level: nat)
    requires Closed(g, universe)
    requires Search(g, file, max, f.dist, f.queue, level) && Progressed(g, max, f.dist, f.queue)
    requires f.queue != []
    ensures var r := Turn(g, max, f);
      && Search(g, file, max, r.dist, r.queue, f.queue[0].1) && Progressed(g, max, r.dist, r.queue)
      && Unseen(universe, file, r.dist) <= Unseen(universe, file, f.dist)
      && (Unseen(universe, file, r.dist) == Unseen(universe, file, f.dist) ==> |r.queue| < |f.queue|)
  {
    EnterLevel(g, file, max, f.dist, f.queue, level);
    var (head, depth) := f.queue[0];
    TakeHead(g, file, max, f.dist, f.queue, depth);
    if Below(depth, max) {
      ExpandKeeps(g, file, max, Frontier(f.dist, f.queue[1..]), head, depth);
      UnseenShrinks(universe, file, f.dist, Turn(g, max, f).dist);
    }
  }

  lemma AllExpanded(g: Graph, file: string, max: Depth, dist0: map<string, nat>, queue0: seq<(string, nat)>,
                    dist: map<string, nat>, queue: seq<(string, nat)>, head: string, level: nat)
    requires Expanding(g, file, max, dist0, queue0, dist, queue, g.dependents(head), |g.dependents(head)|, level)
    requires ProgressedBut(g, max, dist0, queue0, head)
    ensures Progressed(g, max, dist, queue)
  {
    assert Expanded(g, dist, head);
  }

  /** What the command is for: the changed tests themselves, and every test file that an
      allowed path of non-test files leads to. */
  ghost predicate IsAffected(g: Graph, changed: seq<string>, max: Depth, t: string) {
    exists f :: f in changed &&
      if g.isTest(f) then t == f else g.isTest(t) && Reached(g, f, t, max)
  }

  method AffectedTests(g: Graph, changedFiles: seq<string>, max: Depth, ghost universe: set<string>)
      returns (affected: set<string>, allDependents: set<string>)
    requires Closed(g, universe)
    ensures forall t :: t in affected <==> IsAffected(g, changedFiles, max, t)
    ensures forall v :: v in allDependents <==>
      exists f :: f in changedFiles && !g.isTest(f) && v != f && Reached(g, f, v, max)
  {
    affected, allDependents := {}, {};
    for i := 0 to |changedFiles|
      invariant forall t :: t in affected <==> IsAffected(g, changedFiles[..i], max, t)
      invariant forall v :: v in allDependents <==>
        exists f :: f in changedFiles[..i] && !g.isTest(f) && v != f && Reached(g, f, v, max)
    {
      var file := changedFiles[i];
      assert forall f :: f in changedFiles[..i + 1] <==> f in changedFiles[..i] || f == file;
      if g.isTest(file) {
        affected := affected + {file};
        continue;
      }
      var visited, tests := Search1(g, file, max, universe);
      affected := affected + tests;
      allDependents := allDependents + (visited - {file});
    }
    assert changedFiles[..|changedFiles|] == changedFiles;
  }
}
