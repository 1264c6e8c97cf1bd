/** The last part of `findRelevantContext`: a candidate graph is cut down to a node budget,
    a budget per file and a budget for non-production files, and its edges are restored. */
module ContextTrim {
  import opened Collections
  import opened JsMaps
  import opened StableSort

  datatype Node = Node(filePath: string, kind: string)
  /** One of twelve words. */
  type EdgeKind = k: string | ':' !in k

  datatype Edge = Edge(source: string, target: string, kind: EdgeKind, payload: string)

  type Nodes = JsMap<string, Node>

  /** What the edges are compared by. */
  function Triple(e: Edge): (string, string, string) {
    (e.source, e.target, e.kind)
  }

  ghost predicate NoRepeats(edges: seq<Edge>) {
    forall i, j :: 0 <= i < j < |edges| ==> Triple(edges[i]) != Triple(edges[j])
  }

  ghost predicate Inside(edges: seq<Edge>, nodes: Nodes) {
    forall e :: e in edges ==> nodes.Has(e.source) && nodes.Has(e.target)
  }

  // ------------------------------------------------- merging into the candidates

  /** The merge loops of the expansion passes: an edge is pushed unless its triple is there. */
  method MergeEdges(edges: seq<Edge>, found: seq<Edge>) returns (r: seq<Edge>)
    requires NoRepeats(edges)
    ensures NoRepeats(r) && edges <= r
    ensures forall e :: e in r ==> e in edges || e in found
    ensures forall e :: e in found ==> exists x :: x in r && Triple(x) == Triple(e)
  {
    r := edges;
    for i := 0 to |found|
      invariant NoRepeats(r) && edges <= r
      invariant forall e :: e in r ==> e in edges || e in found
      invariant forall k :: 0 <= k < i ==> exists x :: x in r && Triple(x) == Triple(found[k])
    {
      if !(exists x :: x in r && Triple(x) == Triple(found[i])) {
        ghost var before := r;
        r := r + [found[i]];
        assert forall x :: x in before ==> x in r;
        assert found[i] in r;
      }
    }
  }

  /** What the recovery step compares edges by. */
  function Text(e: Edge): string {
    e.source + ":" + e.target + ":" + e.kind
  }

  function Texts(edges: seq<Edge>): set<string> {
    set e | e in edges :: Text(e)
  }

  lemma TextsAppend(edges: seq<Edge>, e: Edge)
    ensures Texts(edges + [e]) == Texts(edges) + {Text(e)}
  {
    var both := edges + [e];
    assert forall x :: x in both <==> x in edges || x == e;
    assert e in both && forall x :: x in edges ==> x in both;
  }

  lemma NewText(edges: seq<Edge>, e: Edge)
    requires NoRepeats(edges) && Text(e) !in Texts(edges)
    ensures NoRepeats(edges + [e])
  {
    forall i | 0 <= i < |edges| ensures Triple(edges[i]) != Triple(e) {
      assert Text(edges[i]) in Texts(edges);
    }
  }

  /** An edge is pushed unless its text is there. */
  function Recovered(edges: seq<Edge>, found: seq<Edge>): seq<Edge> {
    if found == [] then edges
    else
      var before, last := Recovered(edges, found[..|found| - 1]), found[|found| - 1];
      if Text(last) in Texts(before) then before else before + [last]
  }

  /** The recovery loop. */
  method RecoverEdges(edges: seq<Edge>, found: seq<Edge>) returns (r: seq<Edge>)
    requires NoRepeats(edges)
    ensures r == Recovered(edges, found)
    ensures NoRepeats(r) && edges <= r
    ensures forall e :: e in r ==> e in edges || e in found
    ensures forall e :: e in found ==> Text(e) in Texts(r)
  {
    r := edges;
    var existing := Texts(edges);
    for i := 0 to |found|
      invariant r == Recovered(edges, found[..i]) && existing == Texts(r)
    {
      assert found[..i + 1][..i] == found[..i];
      if Text(found[i]) !in existing {
        TextsAppend(r, found[i]);
        existing := existing + {Text(found[i])};
        r := r + [found[i]];
      }
    }
    assert found[..|found|] == found;
    RecoveredExact(edges, found);
  }

  lemma {:induction false} RecoveredExact(edges: seq<Edge>, found: seq<Edge>)
    requires NoRepeats(edges)
    ensures var r := Recovered(edges, found);
      && NoRepeats(r) && edges <= r
      && (forall e :: e in r ==> e in edges || e in found)
      && (forall e :: e in found ==> Text(e) in Texts(r))
  {
    if found != [] {
      var init, last := found[..|found| - 1], found[|found| - 1];
      RecoveredExact(edges, init);
      assert found == init + [last];
      var before := Recovered(edges, init);
      if Text(last) !in Texts(before) {
        NewText(before, last);
        TextsAppend(before, last);
      }
    }
  }

  // ------------------------------------------ when the texts tell the edges apart

  predicate NoColon(s: string) {
    ':' !in s
  }

  /** An id such as a kind, a colon and a hash. */
  ghost predicate OneColon(id: string) {
    exists a, b :: NoColon(a) && NoColon(b) && id == a + ":" + b
  }

  /** Two ways of cutting one text into two of the ids. */
  ghost predicate Splice(ids: set<string>, s: string, m: string, t: string) {
    s in ids && t in ids && s + ":" + m in ids && m + ":" + t in ids
  }

  ghost predicate TellsApart(ids: set<string>) {
    forall s, m, t :: !Splice(ids, s, m, t)
  }

  predicate Joins(ids: set<string>, e: Edge) {
    e.source in ids && e.target in ids
  }

  ghost predicate TextRight(ids: set<string>, e: Edge, f: Edge) {
    Joins(ids, e) && Joins(ids, f) ==> (Text(e) == Text(f) <==> Triple(e) == Triple(f))
  }

  lemma LastColon(x: string, k: string, y: string, l: string)
    requires NoColon(k) && NoColon(l) && x + ":" + k == y + ":" + l
    ensures x == y && k == l
  {
    var s, t := x + ":" + k, y + ":" + l;
    forall i | |x| < i < |s| ensures s[i] != ':' {
      assert s[i] == k[i - |x| - 1];
    }
    forall i | |y| < i < |t| ensures t[i] != ':' {
      assert t[i] == l[i - |y| - 1];
    }
    assert s[|x|] == ':' && t[|y|] == ':';
    assert |x| == |y|;
    assert s[..|x|] == x && t[..|y|] == y && s[|x| + 1..] == k && t[|y| + 1..] == l;
  }

  /** Two pairs with one text: the longer first id reaches into the other's second. */
  lemma PairsSplice(a: string, b: string, c: string, d: string)
    requires a + ":" + b == c + ":" + d && |a| < |c|
    ensures var m := c[|a| + 1..]; c == a + ":" + m && b == m + ":" + d
  {
    var s, m := a + ":" + b, c[|a| + 1..];
    assert c == s[..|c|] && s[..|a|] == a && s[|a|] == ':';
    assert c == c[..|a|] + [c[|a|]] + m;
    assert b == s[|a| + 1..] && (c + ":" + d)[|a| + 1..] == m + ":" + d;
  }

  lemma PairsSame(ids: set<string>, a: string, b: string, c: string, d: string)
    requires TellsApart(ids) && a in ids && b in ids && c in ids && d in ids && a + ":" + b == c + ":" + d
    ensures a == c && b == d
  {
    if |a| < |c| {
      PairsSplice(a, b, c, d);
      assert Splice(ids, a, c[|a| + 1..], d);
    } else if |c| < |a| {
      PairsSplice(c, d, a, b);
      assert Splice(ids, c, a[|c| + 1..], b);
    } else {
      var s := a + ":" + b;
      assert s[..|a|] == a && (c + ":" + d)[..|c|] == c;
      assert s[|a| + 1..] == b && (c + ":" + d)[|c| + 1..] == d;
    }
  }

  lemma TextIsTriple(ids: set<string>, e: Edge, f: Edge)
    requires TellsApart(ids) && Joins(ids, e) && Joins(ids, f)
    ensures Text(e) == Text(f) <==> Triple(e) == Triple(f)
  {
    if Text(e) == Text(f) {
      LastColon(e.source + ":" + e.target, e.kind, f.source + ":" + f.target, f.kind);
      PairsSame(ids, e.source, e.target, f.source, f.target);
    }
  }

  lemma SpliceCollides(s: string, m: string, t: string, kind: EdgeKind, payload: string)
    ensures var e, f := Edge(s, m + ":" + t, kind, payload), Edge(s + ":" + m, t, kind, payload);
      Text(e) == Text(f) && Triple(e) != Triple(f) && Recovered([e], [f]) == [e] && !HasTriple([e], f)
  {
    var e, f := Edge(s, m + ":" + t, kind, payload), Edge(s + ":" + m, t, kind, payload);
    assert Text(e) == s + ":" + m + ":" + t + ":" + kind;
    assert |e.source| < |f.source|;
    assert [f][..0] == [] && Text(e) in Texts([e]);
  }

  /** The texts tell edges between these ids apart iff no two ids can be read, joined, as
      two others. */
  lemma TextRightIff(ids: set<string>)
    ensures (forall e, f :: TextRight(ids, e, f)) <==> TellsApart(ids)
  {
    if TellsApart(ids) {
      forall e, f ensures TextRight(ids, e, f) {
        if Joins(ids, e) && Joins(ids, f) {
          TextIsTriple(ids, e, f);
        }
      }
    } else {
      var s, m, t :| Splice(ids, s, m, t);
      SpliceCollides(s, m, t, "calls", "");
      assert !TextRight(ids, Edge(s, m + ":" + t, "calls", ""), Edge(s + ":" + m, t, "calls", ""));
    }
  }

  ghost predicate HasTriple(edges: seq<Edge>, e: Edge) {
    exists x :: x in edges && Triple(x) == Triple(e)
  }

  ghost predicate RecoversAll(ids: set<string>, edges: seq<Edge>, found: seq<Edge>) {
    NoRepeats(edges) && (forall e :: e in edges || e in found ==> Joins(ids, e)) ==>
      forall e :: e in found ==> HasTriple(Recovered(edges, found), e)
  }

  /** The recovery step never loses a found triple iff the same holds; otherwise it drops
      one of two different edges. */
  lemma RecoversAllIff(ids: set<string>)
    ensures (forall edges, found :: RecoversAll(ids, edges, found)) <==> TellsApart(ids)
  {
    if TellsApart(ids) {
      forall edges, found ensures RecoversAll(ids, edges, found) {
        if NoRepeats(edges) && forall e :: e in edges || e in found ==> Joins(ids, e) {
          TriplesRecovered(ids, edges, found);
        }
      }
    } else {
      var s, m, t :| Splice(ids, s, m, t);
      SpliceCollides(s, m, t, "calls", "");
      var e, f := Edge(s, m + ":" + t, "calls", ""), Edge(s + ":" + m, t, "calls", "");
      assert NoRepeats([e]) && f in [f];
      assert !RecoversAll(ids, [e], [f]);
    }
  }

  lemma TriplesRecovered(ids: set<string>, edges: seq<Edge>, found: seq<Edge>)
    requires TellsApart(ids) && NoRepeats(edges) && forall e :: e in edges || e in found ==> Joins(ids, e)
    ensures forall e :: e in found ==> HasTriple(Recovered(edges, found), e)
  {
    RecoveredExact(edges, found);
    forall e | e in found ensures HasTriple(Recovered(edges, found), e) {
      var x :| x in Recovered(edges, found) && Text(x) == Text(e);
      TextIsTriple(ids, x, e);
    }
  }

  /** Ids with one colon, such as the hashed ones, are told apart. */
  lemma HashedTellApart(ids: set<string>)
    requires forall id :: id in ids ==> OneColon(id)
    ensures TellsApart(ids)
  {
    forall s, m, t ensures !Splice(ids, s, m, t) {
      if s in ids {
        OneColonEnds(s, m);
      }
    }
  }

  lemma OneColonEnds(s: string, m: string)
    requires OneColon(s)
    ensures !OneColon(s + ":" + m)
  {
    var a, b :| NoColon(a) && NoColon(b) && s == a + ":" + b;
    forall c, d | s + ":" + m == c + ":" + d && NoColon(c) ensures !NoColon(d) {
      assert s + ":" + m == a + ":" + (b + ":" + m);
      FirstColon(a, b + ":" + m, c, d);
      assert d[|b|] == ':';
    }
  }

  lemma FirstColon(a: string, x: string, b: string, y: string)
    requires NoColon(a) && NoColon(b) && a + ":" + x == b + ":" + y
    ensures a == b && x == y
  {
    var s, t := a + ":" + x, b + ":" + y;
    forall i | 0 <= i < |a| ensures s[i] != ':' {
      assert s[i] == a[i];
    }
    forall i | 0 <= i < |b| ensures t[i] != ':' {
      assert t[i] == b[i];
    }
    assert s[|a|] == ':' && t[|b|] == ':';
    assert |a| == |b|;
    assert s[..|a|] == a && t[..|b|] == b && s[|a| + 1..] == x && t[|b| + 1..] == y;
  }

  /** Route ids hold a path, and file ids too: an edge from one route is dropped for an edge
      from another. */
  lemma RouteEdgeIsDropped(site: string, path: string, file: string, kind: EdgeKind)
    ensures var kept := Edge("route:" + site, "file:" + path + ":" + ("file:" + file), kind, "");
      var dropped := Edge("route:" + site + ":" + ("file:" + path), "file:" + file, kind, "");
      Recovered([kept], [dropped]) == [kept] && !HasTriple([kept], dropped)
  {
    SpliceCollides("route:" + site, "file:" + path, "file:" + file, kind, "");
  }

  lemma {:induction false} FilterNoRepeats(edges: seq<Edge>, keep: Edge -> bool)
    requires NoRepeats(edges)
    ensures NoRepeats(Filter(edges, keep))
  {
    if edges != [] {
      FilterNoRepeats(edges[1..], keep);
      var rest := Filter(edges[1..], keep);
      forall e | e in rest ensures Triple(e) != Triple(edges[0]) {
        var i :| 0 <= i < |edges[1..]| && edges[1..][i] == e;
        assert edges[i + 1] == e;
      }
    }
  }

  method Between(edges: seq<Edge>, nodes: Nodes) returns (r: seq<Edge>)
    requires NoRepeats(edges)
    ensures NoRepeats(r) && Inside(r, nodes)
    ensures forall e :: e in r <==> e in edges && nodes.Has(e.source) && nodes.Has(e.target)
  {
    r := Filter(edges, (e: Edge) => nodes.Has(e.source) && nodes.Has(e.target));
    FilterNoRepeats(edges, (e: Edge) => nodes.Has(e.source) && nodes.Has(e.target));
  }

  function EndsOf(edges: seq<Edge>): set<string> {
    (set e | e in edges :: e.source) + (set e | e in edges :: e.target)
  }

  // -------------------------------------------------------------- node budget

  ghost predicate SubMap(a: Nodes, b: Nodes) {
    forall k :: k in a.vals ==> k in b.vals && a.vals[k] == b.vals[k]
  }

  /** A JavaScript `Set` of ids, in insertion order. */
  function Add(ids: seq<string>, id: string): seq<string> {
    if id in ids then ids else ids + [id]
  }

  function Entries(roots: seq<string>, n: nat): seq<string>
    requires n <= |roots|
  {
    if n == 0 then [] else Add(Entries(roots, n - 1), roots[n - 1])
  }

  function Widen(ids: seq<string>, e: Edge): seq<string> {
    var more := if e.source in ids then Add(ids, e.target) else ids;
    if e.target in more then Add(more, e.source) else more
  }

  /** The priority ids after the first `n` edges. */
  function Widened(roots: seq<string>, edges: seq<Edge>, n: nat): seq<string>
    requires n <= |edges|
  {
    if n == 0 then Entries(roots, |roots|) else Widen(Widened(roots, edges, n - 1), edges[n - 1])
  }

  function Priority(roots: seq<string>, edges: seq<Edge>): seq<string> {
    Widened(roots, edges, |edges|)
  }

  method PriorityIds(roots: seq<string>, edges: seq<Edge>) returns (ids: seq<string>, ghost n: nat)
    ensures ids == Priority(roots, edges)
    ensures Distinct(ids) && n <= |ids|
    ensures forall r :: r in roots <==> r in ids[..n]
    ensures forall e :: e in edges && e.source in roots ==> e.target in ids
    ensures forall e :: e in edges && e.target in roots ==> e.source in ids
  {
    ids := [];
    for i := 0 to |roots|
      invariant ids == Entries(roots, i)
    {
      ids := Add(ids, roots[i]);
    }
    n := |ids|;
    EntriesExact(roots, |roots|);
    for i := 0 to |edges|
      invariant ids == Widened(roots, edges, i)
    {
      if edges[i].source in ids {
        ids := Add(ids, edges[i].target);
      }
      if edges[i].target in ids {
        ids := Add(ids, edges[i].source);
      }
    }
    WidenedKeeps(roots, edges, |edges|);
    assert ids[..n] == Entries(roots, |roots|);
    NeighboursListed(roots, edges);
  }

  lemma {:induction false} EntriesExact(roots: seq<string>, n: nat)
    requires n <= |roots|
    ensures Distinct(Entries(roots, n)) && forall r :: r in Entries(roots, n) <==> r in roots[..n]
    ensures n == |roots| ==> forall r :: r in Entries(roots, n) <==> r in roots
  {
    if n > 0 {
      EntriesExact(roots, n - 1);
      assert roots[..n] == roots[..n - 1] + [roots[n - 1]];
    }
    if n == |roots| {
      assert roots[..n] == roots;
    }
  }

  lemma {:induction false} WidenedKeeps(roots: seq<string>, edges: seq<Edge>, n: nat)
    requires n <= |edges|
    ensures Distinct(Widened(roots, edges, n)) && Entries(roots, |roots|) <= Widened(roots, edges, n)
  {
    if n == 0 {
      EntriesExact(roots, |roots|);
    } else {
      WidenedKeeps(roots, edges, n - 1);
      WidenKeeps(Widened(roots, edges, n - 1), edges[n - 1]);
    }
  }

  lemma WidenKeeps(ids: seq<string>, e: Edge)
    requires Distinct(ids)
    ensures Distinct(Widen(ids, e)) && ids <= Widen(ids, e)
  {
  }

  predicate Links(e: Edge, a: string, b: string) {
    (e.source == a && e.target == b) || (e.source == b && e.target == a)
  }

  /** A walk from an entry point along edges that come later and later in the list. */
  ghost predicate Walk(roots: seq<string>, edges: seq<Edge>, n: nat, vs: seq<string>, steps: seq<nat>, x: string) {
    && n <= |edges| && |vs| == |steps| + 1 && vs[0] in roots && vs[|vs| - 1] == x
    && (forall i :: 0 <= i < |steps| ==> steps[i] < n && Links(edges[steps[i]], vs[i], vs[i + 1]))
    && (forall i, j :: 0 <= i < j < |steps| ==> steps[i] < steps[j])
  }

  ghost predicate WalkTo(roots: seq<string>, edges: seq<Edge>, n: nat, x: string) {
    exists vs: seq<string>, steps: seq<nat> :: Walk(roots, edges, n, vs, steps, x)
  }

  /** The walk with one more edge at its disposal. */
  lemma WalkStep(roots: seq<string>, edges: seq<Edge>, n: nat, x: string)
    requires 0 < n <= |edges|
    ensures var e := edges[n - 1];
      WalkTo(roots, edges, n, x) <==>
        || WalkTo(roots, edges, n - 1, x)
        || (x == e.target && WalkTo(roots, edges, n - 1, e.source))
        || (x == e.source && WalkTo(roots, edges, n - 1, e.target))
  {
    var e := edges[n - 1];
    if WalkTo(roots, edges, n - 1, x) {
      var vs: seq<string>, steps: seq<nat> :| Walk(roots, edges, n - 1, vs, steps, x);
      assert Walk(roots, edges, n, vs, steps, x);
    }
    if x == e.target && WalkTo(roots, edges, n - 1, e.source) {
      WalkGoesOn(roots, edges, n, e.source, x);
    }
    if x == e.source && WalkTo(roots, edges, n - 1, e.target) {
      WalkGoesOn(roots, edges, n, e.target, x);
    }
    if WalkTo(roots, edges, n, x) {
      var vs: seq<string>, steps: seq<nat> :| Walk(roots, edges, n, vs, steps, x);
      WalkCutShort(roots, edges, n, vs, steps, x);
    }
  }

  lemma WalkGoesOn(roots: seq<string>, edges: seq<Edge>, n: nat, u: string, x: string)
    requires 0 < n <= |edges| && WalkTo(roots, edges, n - 1, u) && Links(edges[n - 1], u, x)
    ensures WalkTo(roots, edges, n, x)
  {
    var vs: seq<string>, steps: seq<nat> :| Walk(roots, edges, n - 1, vs, steps, u);
    assert Walk(roots, edges, n, vs + [x], steps + [n - 1], x);
  }

  lemma WalkCutShort(roots: seq<string>, edges: seq<Edge>, n: nat, vs: seq<string>, steps: seq<nat>, x: string)
    requires 0 < n <= |edges| && Walk(roots, edges, n, vs, steps, x)
    ensures var e := edges[n - 1];
      || WalkTo(roots, edges, n - 1, x)
      || (x == e.target && WalkTo(roots, edges, n - 1, e.source))
      || (x == e.source && WalkTo(roots, edges, n - 1, e.target))
  {
    var k := |steps|;
    if k > 0 && steps[k - 1] == n - 1 {
      assert Walk(roots, edges, n - 1, vs[..k], steps[..k - 1], vs[k - 1]);
      assert Links(edges[steps[k - 1]], vs[k - 1], vs[k - 1 + 1]);
    } else {
      assert Walk(roots, edges, n - 1, vs, steps, x);
    }
  }

  lemma NoEdgesYet(roots: seq<string>, edges: seq<Edge>, x: string)
    ensures x in Widened(roots, edges, 0) <==> WalkTo(roots, edges, 0, x)
  {
    EntriesExact(roots, |roots|);
    if x in roots {
      assert Walk(roots, edges, 0, [x], [], x);
    }
    if WalkTo(roots, edges, 0, x) {
      var vs: seq<string>, steps: seq<nat> :| Walk(roots, edges, 0, vs, steps, x);
      assert |steps| > 0 ==> steps[0] < 0;
    }
  }

  /** The one pass over the edges admits exactly what a walk along later and later edges
      reaches: every direct neighbour, and some nodes farther away. */
  lemma {:induction false} PriorityIff(roots: seq<string>, edges: seq<Edge>, n: nat, x: string)
    requires n <= |edges|
    ensures x in Widened(roots, edges, n) <==> WalkTo(roots, edges, n, x)
  {
    if n == 0 {
      NoEdgesYet(roots, edges, x);
    } else {
      PriorityIff(roots, edges, n - 1, x);
      PriorityIff(roots, edges, n - 1, edges[n - 1].source);
      PriorityIff(roots, edges, n - 1, edges[n - 1].target);
      WalkStep(roots, edges, n, x);
    }
  }

  lemma NeighbourListed(roots: seq<string>, edges: seq<Edge>, e: Edge, u: string, x: string)
    requires e in edges && u in roots && Links(e, u, x)
    ensures x in Priority(roots, edges)
  {
    var i :| 0 <= i < |edges| && edges[i] == e;
    assert Walk(roots, edges, |edges|, [u, x], [i], x);
    PriorityIff(roots, edges, |edges|, x);
  }

  lemma NeighboursListed(roots: seq<string>, edges: seq<Edge>)
    ensures forall e :: e in edges && e.source in roots ==> e.target in Priority(roots, edges)
    ensures forall e :: e in edges && e.target in roots ==> e.source in Priority(roots, edges)
  {
    forall e | e in edges && e.source in roots ensures e.target in Priority(roots, edges) {
      NeighbourListed(roots, edges, e, e.source, e.target);
    }
    forall e | e in edges && e.target in roots ensures e.source in Priority(roots, edges) {
      NeighbourListed(roots, edges, e, e.target, e.source);
    }
  }

  /** A node two edges away is listed or not depending on the order of the edges. */
  lemma FartherDependsOnOrder(r: string, a: string, b: string)
    requires r != a && a != b && r != b
    ensures var e, f := Edge(r, a, "calls", ""), Edge(a, b, "calls", "");
      b in Priority([r], [e, f]) && b !in Priority([r], [f, e])
  {
    var e, f := Edge(r, a, "calls", ""), Edge(a, b, "calls", "");
    assert Entries([r], 1) == [r];
    assert Widened([r], [e, f], 1) == [r, a];
    assert Widened([r], [f, e], 1) == [r];
    assert Widened([r], [f, e], 2) == [r, a];
    assert Widened([r], [e, f], 2) == [r, a, b];
  }

  function RootsIn(roots: seq<string>, nodes: Nodes): set<string> {
    set r | r in roots && r in nodes.vals
  }

  /** `maxNodes` nodes, those on the priority list first: the entry points stay if they
      fit, all of the list stays if it fits, and nothing else gets in if it does not. */
  method TrimNodes(nodes: Nodes, edges: seq<Edge>, roots: seq<string>, maxNodes: nat) returns (r: Nodes)
    requires nodes.Valid() && nodes.Size() > maxNodes
    ensures r.Valid() && SubMap(r, nodes) && r.Size() == maxNodes
    ensures |RootsIn(roots, nodes)| <= maxNodes ==> forall x :: x in RootsIn(roots, nodes) ==> x in r.vals
    ensures var wanted := Wanted(nodes, Priority(roots, edges));
      && (|wanted| <= maxNodes ==> forall x :: x in wanted ==> x in r.vals)
      && (|wanted| >= maxNodes ==> forall x :: x in r.vals ==> x in wanted)
    ensures InOrder(nodes, Priority(roots, edges), r)
  {
    ghost var n;
    var priority;
    priority, n := PriorityIds(roots, edges);
    assert RootsIn(roots, nodes) == Wanted(nodes, priority[..n]);
    r := TakeFirst(nodes, Empty(), priority, maxNodes);
    assert priority[..|priority|] == priority;
    if |Wanted(nodes, priority)| >= maxNodes {
      FullWhenCrowded(nodes, r, priority, maxNodes);
    }
    ghost var first := r;
    r := TakeFirst(nodes, r, nodes.keys, maxNodes);
    FullAfterAll(nodes, r, maxNodes);
    ServedInOrder(nodes, priority, first, r, maxNodes);
  }

  /** The priority list is served in its order, and the rest in the order of the map. */
  ghost predicate InOrder(nodes: Nodes, priority: seq<string>, r: Nodes) {
    && (forall a, b :: Precedes(priority, a, b) && a in nodes.vals && b in r.vals ==> a in r.vals)
    && (forall a, b :: Precedes(nodes.keys, a, b) && b in r.vals && b !in priority ==> a in r.vals)
  }

  lemma ServedInOrder(nodes: Nodes, priority: seq<string>, first: Nodes, r: Nodes, maxNodes: nat)
    requires nodes.Valid() && SubMap(r, nodes) && forall k :: k in first.vals ==> k in r.vals
    requires FilledInOrder(nodes, Empty(), priority, |priority|, first)
    requires FilledInOrder(nodes, first, nodes.keys, |nodes.keys|, r)
    requires first.Size() == maxNodes ==> r == first
    requires first.Size() == maxNodes || forall k :: k in Wanted(nodes, priority) ==> k in first.vals
    ensures InOrder(nodes, priority, r)
  {
    assert priority[..|priority|] == priority && nodes.keys[..|nodes.keys|] == nodes.keys;
    forall a, b | Precedes(priority, a, b) && a in nodes.vals && b in r.vals ensures a in r.vals {
      assert a in priority;
    }
    forall a, b | Precedes(nodes.keys, a, b) && b in r.vals && b !in priority ensures a in r.vals {
      assert a in nodes.keys && b !in first.vals;
    }
  }

  lemma FullWhenCrowded(nodes: Nodes, r: Nodes, ids: seq<string>, maxNodes: nat)
    requires r.Valid() && r.Size() <= maxNodes && |Wanted(nodes, ids)| >= maxNodes
    requires r.Size() == maxNodes || forall k :: k in Wanted(nodes, ids) ==> k in r.vals
    ensures r.Size() == maxNodes
  {
    DistinctCard(r.keys);
    if r.Size() != maxNodes {
      SubsetCard(Wanted(nodes, ids), set k | k in r.keys);
    }
  }

  lemma FullAfterAll(nodes: Nodes, r: Nodes, maxNodes: nat)
    requires nodes.Valid() && r.Valid() && nodes.Size() > maxNodes && r.Size() <= maxNodes
    requires r.Size() == maxNodes || forall k :: k in nodes.keys ==> k in r.vals
    ensures r.Size() == maxNodes
  {
    if r.Size() != maxNodes {
      DistinctCard(nodes.keys);
      DistinctCard(r.keys);
      SubsetCard((set k | k in nodes.keys), (set k | k in r.keys));
    }
  }

  function Wanted(nodes: Nodes, ids: seq<string>): set<string> {
    set k | k in ids && k in nodes.vals
  }

  /** Adds the listed nodes in order while there is room; from nothing, any first part of
      the list that fits gets in whole. */
  method TakeFirst(nodes: Nodes, start: Nodes, ids: seq<string>, maxNodes: nat) returns (r: Nodes)
    requires nodes.Valid() && start.Valid() && SubMap(start, nodes) && start.Size() <= maxNodes
    ensures r.Valid() && SubMap(r, nodes) && r.Size() <= maxNodes
    ensures forall k :: k in start.vals ==> k in r.vals
    ensures start.Size() == maxNodes ==> r == start
    ensures r.Size() == maxNodes || forall k :: k in Wanted(nodes, ids) ==> k in r.vals
    ensures start.keys == [] ==> TakenFrom(nodes, ids, |ids|, maxNodes, r)
    ensures Distinct(ids) ==> FilledInOrder(nodes, start, ids, |ids|, r)
  {
    r := start;
    for i := 0 to |ids|
      invariant r.Valid() && SubMap(r, nodes) && r.Size() <= maxNodes
      invariant forall k :: k in start.vals ==> k in r.vals
      invariant start.Size() == maxNodes ==> r == start
      invariant r.Size() == maxNodes || forall j :: 0 <= j < i && ids[j] in nodes.vals ==> ids[j] in r.vals
      invariant start.keys == [] ==> TakenFrom(nodes, ids, i, maxNodes, r)
      invariant Distinct(ids) ==> FilledInOrder(nodes, start, ids, i, r)
    {
      if Distinct(ids) {
        FilledMore(nodes, start, ids, i, maxNodes, r);
      }
      if start.keys == [] {
        TakenMore(nodes, ids, i, maxNodes, r);
      }
      if nodes.Has(ids[i]) && r.Size() < maxNodes {
        PutValid(r, ids[i], nodes.vals[ids[i]]);
        r := r.Put(ids[i], nodes.vals[ids[i]]);
      }
    }
  }

  /** No listed node was passed over for one that comes later in the list. */
  ghost predicate FilledInOrder(nodes: Nodes, start: Nodes, ids: seq<string>, i: nat, r: Nodes) {
    && i <= |ids|
    && (forall k :: k in r.vals ==> k in start.vals || k in ids[..i])
    && forall a, b :: Precedes(ids[..i], a, b) && a in nodes.vals && b in r.vals && b !in start.vals ==> a in r.vals
  }

  lemma FilledMore(nodes: Nodes, start: Nodes, ids: seq<string>, i: nat, maxNodes: nat, r: Nodes)
    requires i < |ids| && Distinct(ids) && r.Valid() && r.Size() <= maxNodes && FilledInOrder(nodes, start, ids, i, r)
    requires r.Size() == maxNodes || forall j :: 0 <= j < i && ids[j] in nodes.vals ==> ids[j] in r.vals
    ensures var r' := if nodes.Has(ids[i]) && r.Size() < maxNodes then r.Put(ids[i], nodes.vals[ids[i]]) else r;
      FilledInOrder(nodes, start, ids, i + 1, r')
  {
    var r' := if nodes.Has(ids[i]) && r.Size() < maxNodes then r.Put(ids[i], nodes.vals[ids[i]]) else r;
    var before, x := ids[..i], ids[i];
    assert ids[..i + 1] == before + [x];
    assert x !in before;
    forall a, b | Precedes(ids[..i + 1], a, b) && a in nodes.vals && b in r'.vals && b !in start.vals
      ensures a in r'.vals
    {
      PrecedesAppend(before, x, a, b);
      if b == x {
        if a in before {
          var j :| 0 <= j < i && ids[j] == a;
        }
        NotTwice(before, x, a);
      }
    }
  }

  lemma NotTwice(s: seq<string>, x: string, a: string)
    requires x !in s
    ensures !Precedes(s, a, x)
  {
  }

  /** The result of taking the first `i` ids: only they are in it, and so is every first
      part of them that fits. */
  ghost predicate TakenFrom(nodes: Nodes, ids: seq<string>, i: nat, maxNodes: nat, r: Nodes) {
    && i <= |ids|
    && (forall k :: k in r.vals ==> k in Wanted(nodes, ids[..i]))
    && forall n :: 0 <= n <= i && |Wanted(nodes, ids[..n])| <= maxNodes ==> AllIn(Wanted(nodes, ids[..n]), r)
  }

  ghost predicate AllIn(ks: set<string>, r: Nodes) {
    forall k :: k in ks ==> k in r.vals
  }

  lemma TakenMore(nodes: Nodes, ids: seq<string>, i: nat, maxNodes: nat, r: Nodes)
    requires nodes.Valid() && r.Valid() && i < |ids| && TakenFrom(nodes, ids, i, maxNodes, r)
    ensures var r' := if nodes.Has(ids[i]) && r.Size() < maxNodes then r.Put(ids[i], nodes.vals[ids[i]]) else r;
      TakenFrom(nodes, ids, i + 1, maxNodes, r')
  {
    var r' := if nodes.Has(ids[i]) && r.Size() < maxNodes then r.Put(ids[i], nodes.vals[ids[i]]) else r;
    assert ids[..i + 1] == ids[..i] + [ids[i]];
    forall n | 0 <= n <= i + 1 && |Wanted(nodes, ids[..n])| <= maxNodes ensures AllIn(Wanted(nodes, ids[..n]), r') {
      if n <= i {
        assert AllIn(Wanted(nodes, ids[..n]), r);
      } else {
        SubsetCard(Wanted(nodes, ids[..i]), Wanted(nodes, ids[..i + 1]));
        assert AllIn(Wanted(nodes, ids[..i]), r);
        if nodes.Has(ids[i]) && !r.Has(ids[i]) {
          RoomForWanted(r, Wanted(nodes, ids[..i + 1]), ids[i], maxNodes);
        }
      }
    }
  }

  lemma RoomForWanted(r: Nodes, wanted: set<string>, id: string, maxNodes: nat)
    requires r.Valid() && |wanted| <= maxNodes && id in wanted && id !in r.vals
    requires forall k :: k in r.vals ==> k in wanted
    ensures r.Size() < maxNodes
  {
    DistinctCard(r.keys);
    SubsetCard((set k | k in r.keys), wanted - {id});
  }

  // ---------------------------------------------------------- budget per file

  function IdsOfFile(nodes: Nodes, file: string): seq<string>
    requires forall k :: k in nodes.keys ==> k in nodes.vals
  {
    IdsIn(nodes, nodes.keys, file)
  }

  function IdsIn(nodes: Nodes, keys: seq<string>, file: string): (r: seq<string>)
    requires forall k :: k in keys ==> k in nodes.vals
    ensures forall k :: k in r <==> k in keys && nodes.vals[k].filePath == file
  {
    if keys == [] then []
    else
      assert forall k :: k in keys <==> k == keys[0] || k in keys[1..];
      if nodes.vals[keys[0]].filePath == file then [keys[0]] + IdsIn(nodes, keys[1..], file)
      else IdsIn(nodes, keys[1..], file)
  }

  lemma {:induction false} IdsInDistinct(nodes: Nodes, keys: seq<string>, file: string)
    requires Distinct(keys) && forall k :: k in keys ==> k in nodes.vals
    ensures Distinct(IdsIn(nodes, keys, file))
  {
    if keys != [] {
      IdsInDistinct(nodes, keys[1..], file);
    }
  }

  function KindPriority(kind: string): nat {
    if kind in ["class", "interface", "struct", "trait", "protocol", "enum"] then 3
    else if kind in ["method", "function"] then 1
    else 0
  }

  function Score(nodes: Nodes, roots: seq<string>, id: string): nat {
    (if id in roots then 10 else 0) + (if id in nodes.vals then KindPriority(nodes.vals[id].kind) else 0)
  }

  function Ranked(nodes: Nodes, roots: seq<string>, ids: seq<string>): seq<string> {
    Sort(ids, (a: string, b: string) => Score(nodes, roots, b) <= Score(nodes, roots, a))
  }

  lemma RankedExact(nodes: Nodes, roots: seq<string>, ids: seq<string>)
    requires Distinct(ids)
    ensures var r := Ranked(nodes, roots, ids);
      && |r| == |ids| && Distinct(r)
      && (forall k :: k in r <==> k in ids)
      && (forall i, j :: 0 <= i < j < |r| ==> Score(nodes, roots, r[j]) <= Score(nodes, roots, r[i]))
  {
    SortSorted(ids, (a: string, b: string) => Score(nodes, roots, b) <= Score(nodes, roots, a));
    var r := Ranked(nodes, roots, ids);
    SameMultisetDistinct(ids, r);
  }

  lemma SameMultisetDistinct(a: seq<string>, b: seq<string>)
    requires Distinct(a) && multiset(a) == multiset(b)
    ensures Distinct(b)
  {
    forall i, j | 0 <= i < j < |b| ensures b[i] != b[j] {
      if b[i] == b[j] {
        assert b == b[..i] + [b[i]] + b[i + 1..j] + [b[j]] + b[j + 1..];
        assert multiset(b)[b[i]] >= 2;
        OnceInDistinct(a, b[i]);
      }
    }
  }

  lemma {:induction false} OnceInDistinct(a: seq<string>, x: string)
    requires Distinct(a)
    ensures multiset(a)[x] <= 1
  {
    if a != [] {
      assert a == [a[0]] + a[1..];
      OnceInDistinct(a[1..], x);
      if a[0] == x {
        assert x !in a[1..];
      }
    }
  }

  /** The ids that one file keeps. */
  function KeptOfFile(nodes: Nodes, roots: seq<string>, file: string, maxPerFile: nat): seq<string>
    requires forall k :: k in nodes.keys ==> k in nodes.vals
  {
    var ids := IdsOfFile(nodes, file);
    if |ids| <= maxPerFile then ids
    else
      var ranked := Ranked(nodes, roots, ids);
      if maxPerFile <= |ranked| then ranked[..maxPerFile] else ranked
  }

  ghost function OfFile(nodes: Nodes, file: string): set<string> {
    set k | k in nodes.vals && nodes.vals[k].filePath == file
  }

  /** What the cap leaves of one file: within the budget, from that file, and an entry
      point is dropped only when the file has more entry points than the budget. */
  lemma KeptOfFileExact(nodes: Nodes, roots: seq<string>, file: string, maxPerFile: nat)
    requires nodes.Valid()
    ensures var kept := KeptOfFile(nodes, roots, file, maxPerFile);
      && |kept| <= maxPerFile && Distinct(kept)
      && (forall k :: k in kept ==> k in OfFile(nodes, file))
      && (|OfFile(nodes, file)| <= maxPerFile ==> forall k :: k in OfFile(nodes, file) ==> k in kept)
      && (forall r :: r in OfFile(nodes, file) && r in roots && r !in kept ==>
            |kept| == maxPerFile && forall k :: k in kept ==> k in roots)
  {
    var ids := IdsOfFile(nodes, file);
    IdsInDistinct(nodes, nodes.keys, file);
    RankedExact(nodes, roots, ids);
    DistinctCard(ids);
    assert OfFile(nodes, file) == set k | k in ids;
    if |ids| > maxPerFile {
      DistinctSplit(Ranked(nodes, roots, ids), maxPerFile);
      TopScores(nodes, roots, Ranked(nodes, roots, ids), maxPerFile);
    }
  }

  /** An entry point outscores everything that is not one, so it is cut only after them. */
  lemma TopScores(nodes: Nodes, roots: seq<string>, ranked: seq<string>, n: nat)
    requires n <= |ranked|
    requires forall i, j :: 0 <= i < j < |ranked| ==> Score(nodes, roots, ranked[j]) <= Score(nodes, roots, ranked[i])
    ensures forall r, k :: r in ranked[n..] && r in roots && k in ranked[..n] ==> k in roots
  {
    forall r, k | r in ranked[n..] && r in roots && k in ranked[..n] ensures k in roots {
      var j :| 0 <= j < |ranked| - n && ranked[n..][j] == r;
      var i :| 0 <= i < n && ranked[i] == k;
      assert Score(nodes, roots, ranked[n + j]) <= Score(nodes, roots, ranked[i]);
    }
  }

  // ------------------------------------- who stays in a crowded file

  predicate Container(kind: string) {
    || kind == "class" || kind == "interface" || kind == "struct"
    || kind == "trait" || kind == "protocol" || kind == "enum"
  }

  predicate Callable(kind: string) {
    kind == "method" || kind == "function"
  }

  /** A kept node is no worse than a dropped one of its file: an entry point if that was one;
      and if both are or neither is, a container if that was one, and at least callable if
      that was; and among equals it comes first in the map. */
  lemma KeptFirst(nodes: Nodes, roots: seq<string>, file: string, maxPerFile: nat, k: string, d: string)
    requires nodes.Valid()
    requires k in KeptOfFile(nodes, roots, file, maxPerFile)
    requires d in OfFile(nodes, file) && d !in KeptOfFile(nodes, roots, file, maxPerFile)
    ensures k in nodes.vals && (d in roots ==> k in roots)
    ensures (d in roots <==> k in roots) ==>
      && (Container(nodes.vals[d].kind) ==> Container(nodes.vals[k].kind))
      && (Callable(nodes.vals[d].kind) ==> Container(nodes.vals[k].kind) || Callable(nodes.vals[k].kind))
    ensures (d in roots <==> k in roots) && nodes.vals[d].kind == nodes.vals[k].kind ==> Precedes(nodes.keys, k, d)
  {
    var ids := IdsOfFile(nodes, file);
    var ranked := Ranked(nodes, roots, ids);
    IdsInDistinct(nodes, nodes.keys, file);
    RankedExact(nodes, roots, ids);
    DistinctCard(ids);
    KeptPrecedes(ranked, maxPerFile, k, d);
    var i, j :| 0 <= i < j < |ranked| && ranked[i] == k && ranked[j] == d;
    assert Score(nodes, roots, d) <= Score(nodes, roots, k);
    ScoreExact(nodes, roots, k, d);
    if (d in roots <==> k in roots) && nodes.vals[d].kind == nodes.vals[k].kind {
      TieKeepsOrder(nodes, roots, ids, k, d);
      IdsInPrecedes(nodes, nodes.keys, file, k, d);
    }
  }

  lemma KeptPrecedes(ranked: seq<string>, n: nat, k: string, d: string)
    requires n <= |ranked| && k in ranked[..n] && d in ranked && d !in ranked[..n]
    ensures Precedes(ranked, k, d)
  {
    var i :| 0 <= i < n && ranked[i] == k;
    var j :| 0 <= j < |ranked| && ranked[j] == d;
    PartMembers(ranked, n);
    assert i < j;
  }

  lemma ScoreExact(nodes: Nodes, roots: seq<string>, k: string, d: string)
    requires k in nodes.vals && d in nodes.vals && Score(nodes, roots, d) <= Score(nodes, roots, k)
    ensures d in roots ==> k in roots
    ensures (d in roots <==> k in roots) ==>
      && (Container(nodes.vals[d].kind) ==> Container(nodes.vals[k].kind))
      && (Callable(nodes.vals[d].kind) ==> Container(nodes.vals[k].kind) || Callable(nodes.vals[k].kind))
    ensures (d in roots <==> k in roots) && nodes.vals[d].kind == nodes.vals[k].kind ==>
      Score(nodes, roots, k) == Score(nodes, roots, d)
  {
  }

  lemma TieKeepsOrder(nodes: Nodes, roots: seq<string>, ids: seq<string>, k: string, d: string)
    requires Precedes(Ranked(nodes, roots, ids), k, d) && Score(nodes, roots, k) == Score(nodes, roots, d)
    ensures Precedes(ids, k, d)
  {
    var tie := (x: string) => Score(nodes, roots, x) == Score(nodes, roots, k);
    SortStable(ids, (a: string, b: string) => Score(nodes, roots, b) <= Score(nodes, roots, a), tie);
    FilterPrecedes(Ranked(nodes, roots, ids), tie, k, d);
    FilterPrecedes(ids, tie, k, d);
  }

  lemma {:induction false} IdsInPrecedes(nodes: Nodes, keys: seq<string>, file: string, a: string, b: string)
    requires forall k :: k in keys ==> k in nodes.vals
    requires Precedes(IdsIn(nodes, keys, file), a, b)
    ensures Precedes(keys, a, b)
  {
    if keys != [] {
      PrecedesStep(keys, a, b);
      var rest := IdsIn(nodes, keys[1..], file);
      if nodes.vals[keys[0]].filePath == file {
        PrecedesStep(IdsIn(nodes, keys, file), a, b);
        assert IdsIn(nodes, keys, file)[1..] == rest;
      }
      if Precedes(rest, a, b) {
        IdsInPrecedes(nodes, keys[1..], file, a, b);
      }
    }
  }

  method DropAll(nodes: Nodes, ids: seq<string>) returns (r: Nodes)
    requires nodes.Valid()
    ensures r.Valid() && SubMap(r, nodes) && r.Size() <= nodes.Size()
    ensures forall k :: k in r.vals <==> k in nodes.vals && k !in ids
  {
    r := nodes;
    for i := 0 to |ids|
      invariant r.Valid() && SubMap(r, nodes) && r.Size() <= nodes.Size()
      invariant forall k :: k in r.vals <==> k in nodes.vals && k !in ids[..i]
    {
      assert ids[..i + 1] == ids[..i] + [ids[i]];
      RemoveValid(r, ids[i]);
      r := r.Remove(ids[i]);
    }
    assert ids[..|ids|] == ids;
  }

  method FilesOf(nodes: Nodes) returns (files: seq<string>)
    requires nodes.Valid()
    ensures Distinct(files)
    ensures forall k :: k in nodes.vals ==> nodes.vals[k].filePath in files
  {
    files := [];
    for i := 0 to |nodes.keys|
      invariant Distinct(files)
      invariant forall j :: 0 <= j < i ==> nodes.vals[nodes.keys[j]].filePath in files
    {
      files := Add(files, nodes.vals[nodes.keys[i]].filePath);
    }
    forall k | k in nodes.vals ensures nodes.vals[k].filePath in files {
      var j :| 0 <= j < |nodes.keys| && nodes.keys[j] == k;
    }
  }

  method CapFiles(nodes: Nodes, roots: seq<string>, maxPerFile: nat) returns (r: Nodes)
    requires nodes.Valid()
    ensures r.Valid() && SubMap(r, nodes) && r.Size() <= nodes.Size()
    ensures forall k :: k in r.vals <==>
      k in nodes.vals && k in KeptOfFile(nodes, roots, nodes.vals[k].filePath, maxPerFile)
  {
    var files := FilesOf(nodes);
    r := nodes;
    for i := 0 to |files|
      invariant r.Valid() && SubMap(r, nodes) && r.Size() <= nodes.Size()
      invariant forall k :: k in nodes.vals && nodes.vals[k].filePath !in files[..i] ==> k in r.vals
      invariant forall k :: k in nodes.vals && nodes.vals[k].filePath in files[..i] ==>
        (k in r.vals <==> k in KeptOfFile(nodes, roots, nodes.vals[k].filePath, maxPerFile))
    {
      var file := files[i];
      assert files[..i + 1] == files[..i] + [file];
      assert file !in files[..i];
      var ids := IdsOfFile(nodes, file);
      if |ids| > maxPerFile {
        var excess := Excess(nodes, roots, file, maxPerFile);
        r := DropAll(r, excess);
      }
    }
  }

  /** `nodeIds.slice(maxPerFile)` of the ranked ids: what the file does not keep. */
  method Excess(nodes: Nodes, roots: seq<string>, file: string, maxPerFile: nat) returns (excess: seq<string>)
    requires nodes.Valid() && |IdsOfFile(nodes, file)| > maxPerFile
    ensures forall k :: k in excess <==>
      k in nodes.vals && nodes.vals[k].filePath == file && k !in KeptOfFile(nodes, roots, file, maxPerFile)
  {
    var ids := IdsOfFile(nodes, file);
    IdsInDistinct(nodes, nodes.keys, file);
    RankedExact(nodes, roots, ids);
    var ranked := Ranked(nodes, roots, ids);
    excess := ranked[maxPerFile..];
    DistinctSplit(ranked, maxPerFile);
  }

  // ------------------------------------------------- budget for non-production

  ghost function NonProd(nodes: Nodes, isTestFile: string -> bool): set<string> {
    set k | k in nodes.vals && isTestFile(nodes.vals[k].filePath)
  }

  function NonProdIds(nodes: Nodes, keys: seq<string>, isTestFile: string -> bool): (r: seq<string>)
    requires forall k :: k in keys ==> k in nodes.vals
    ensures forall k :: k in r <==> k in keys && isTestFile(nodes.vals[k].filePath)
  {
    if keys == [] then []
    else
      assert forall k :: k in keys <==> k == keys[0] || k in keys[1..];
      if isTestFile(nodes.vals[keys[0]].filePath) then [keys[0]] + NonProdIds(nodes, keys[1..], isTestFile)
      else NonProdIds(nodes, keys[1..], isTestFile)
  }

  lemma {:induction false} NonProdIdsDistinct(nodes: Nodes, keys: seq<string>, isTestFile: string -> bool)
    requires Distinct(keys) && forall k :: k in keys ==> k in nodes.vals
    ensures Distinct(NonProdIds(nodes, keys, isTestFile))
  {
    if keys != [] {
      NonProdIdsDistinct(nodes, keys[1..], isTestFile);
    }
  }

  /** Splicing the evicted ids out of the entry points; each id occurs at most once. */
  function RootsWithout(roots: seq<string>, ids: seq<string>): seq<string> {
    Filter(roots, r => r !in ids)
  }

  /** The non-production nodes beyond the cap, in the order of the map. */
  function Evicted(nodes: Nodes, isTestFile: string -> bool, maxNonProd: nat): seq<string>
    requires nodes.Valid()
  {
    var ids := NonProdIds(nodes, nodes.keys, isTestFile);
    if |ids| <= maxNonProd then [] else ids[maxNonProd..]
  }

  lemma {:induction false} NonProdPrecedes(nodes: Nodes, keys: seq<string>, isTestFile: string -> bool,
                                           a: string, b: string)
    requires forall k :: k in keys ==> k in nodes.vals
    requires Precedes(NonProdIds(nodes, keys, isTestFile), a, b)
    ensures Precedes(keys, a, b)
  {
    if keys != [] {
      PrecedesStep(keys, a, b);
      var rest := NonProdIds(nodes, keys[1..], isTestFile);
      if isTestFile(nodes.vals[keys[0]].filePath) {
        PrecedesStep(NonProdIds(nodes, keys, isTestFile), a, b);
        assert NonProdIds(nodes, keys, isTestFile)[1..] == rest;
      }
      if Precedes(rest, a, b) {
        NonProdPrecedes(nodes, keys[1..], isTestFile, a, b);
      }
    }
  }

  /** What the cap evicts: only non-production nodes, no more than needed, and of them the
      ones that come last in the map. */
  lemma EvictedExact(nodes: Nodes, isTestFile: string -> bool, maxNonProd: nat)
    requires nodes.Valid()
    ensures var out, all := Evicted(nodes, isTestFile, maxNonProd), NonProd(nodes, isTestFile);
      && Distinct(out) && |out| == (if |all| <= maxNonProd then 0 else |all| - maxNonProd)
      && (forall d :: d in out ==> d in all)
      && (forall k, d :: k in all && k !in out && d in out ==> Precedes(nodes.keys, k, d))
  {
    var ids, out := NonProdIds(nodes, nodes.keys, isTestFile), Evicted(nodes, isTestFile, maxNonProd);
    NonProdIdsDistinct(nodes, nodes.keys, isTestFile);
    DistinctCard(ids);
    assert NonProd(nodes, isTestFile) == set k | k in ids;
    if |ids| > maxNonProd {
      DistinctSplit(ids, maxNonProd);
      forall k, d | k in ids && k !in out && d in out ensures Precedes(nodes.keys, k, d) {
        var i :| 0 <= i < |ids| && ids[i] == k;
        var j :| 0 <= j < |out| && out[j] == d;
        PartMembers(ids, maxNonProd);
        assert i < maxNonProd;
        assert ids[maxNonProd + j] == d;
        NonProdPrecedes(nodes, nodes.keys, isTestFile, k, d);
      }
    }
  }

  method CapNonProduction(nodes: Nodes, roots: seq<string>, isTestFile: string -> bool, maxNonProd: nat)
      returns (r: Nodes, roots': seq<string>)
    requires nodes.Valid()
    ensures r.Valid() && SubMap(r, nodes) && r.Size() <= nodes.Size()
    ensures |NonProd(r, isTestFile)| <= maxNonProd
    ensures forall k :: k in nodes.vals && !isTestFile(nodes.vals[k].filePath) ==> k in r.vals
    ensures forall x :: x in roots' <==> x in roots && (x in r.vals || x !in nodes.vals)
    ensures forall k :: k in r.vals <==> k in nodes.vals && k !in Evicted(nodes, isTestFile, maxNonProd)
    ensures roots' == RootsWithout(roots, Evicted(nodes, isTestFile, maxNonProd))
  {
    var ids := NonProdIds(nodes, nodes.keys, isTestFile);
    NonProdIdsDistinct(nodes, nodes.keys, isTestFile);
    if |ids| <= maxNonProd {
      r, roots' := nodes, roots;
      DistinctCard(ids);
      assert NonProd(r, isTestFile) == set k | k in ids;
      FilterAll(roots, x => x !in Evicted(nodes, isTestFile, maxNonProd));
      return;
    }
    var evicted := ids[maxNonProd..];
    assert ids == ids[..maxNonProd] + evicted;
    r := DropAll(nodes, evicted);
    roots' := RootsWithout(roots, evicted);
    DistinctCard(ids[..maxNonProd]);
    SubsetCard(NonProd(r, isTestFile), set k | k in ids[..maxNonProd]);
  }

  // --------------------------------------------------------------- the whole

  datatype Options = Options(
    maxNodes: nat, maxPerFile: nat, maxNonProd: nat, isTestQuery: bool, isTestFile: string -> bool)

  /** The budgets, for every candidate graph. */
  ghost predicate WithinBudgets(r: Nodes, o: Options) {
    && r.Size() <= o.maxNodes
    && (forall file :: |OfFile(r, file)| <= o.maxPerFile)
    && (!o.isTestQuery ==> |NonProd(r, o.isTestFile)| <= o.maxNonProd)
  }

  lemma FileBudgetKept(nodes: Nodes, capped: Nodes, r: Nodes, roots: seq<string>, maxPerFile: nat, file: string)
    requires nodes.Valid() && SubMap(capped, nodes) && SubMap(r, capped)
    requires forall k :: k in capped.vals <==>
      k in nodes.vals && k in KeptOfFile(nodes, roots, nodes.vals[k].filePath, maxPerFile)
    ensures |OfFile(r, file)| <= maxPerFile
  {
    KeptOfFileExact(nodes, roots, file, maxPerFile);
    var kept := KeptOfFile(nodes, roots, file, maxPerFile);
    DistinctCard(kept);
    SubsetCard(OfFile(r, file), set k | k in kept);
  }

  /** More entry points in one file than the file may keep nodes. */
  ghost predicate Crowded(nodes: Nodes, roots: seq<string>, file: string, maxPerFile: nat) {
    |RootsOfFile(nodes, roots, file)| > maxPerFile
  }

  ghost function RootsOfFile(nodes: Nodes, roots: seq<string>, file: string): set<string> {
    set k | k in nodes.vals && nodes.vals[k].filePath == file && k in roots
  }

  lemma DroppedRootMeansCrowd(nodes: Nodes, trimmed: Nodes, roots: seq<string>, maxPerFile: nat, r: string)
    requires trimmed.Valid() && SubMap(trimmed, nodes) && r in trimmed.vals && r in roots
    requires r !in KeptOfFile(trimmed, roots, trimmed.vals[r].filePath, maxPerFile)
    ensures Crowded(nodes, roots, trimmed.vals[r].filePath, maxPerFile)
  {
    var file := trimmed.vals[r].filePath;
    KeptOfFileExact(trimmed, roots, file, maxPerFile);
    var kept := KeptOfFile(trimmed, roots, file, maxPerFile);
    var ids := set k | k in kept;
    DistinctCard(kept);
    assert r in OfFile(trimmed, file);
    SubsetCard(ids + {r}, RootsOfFile(nodes, roots, file));
  }

  /** The node budget is used up, or there was no need to. */
  ghost predicate TrimmedTo(nodes: Nodes, edges: seq<Edge>, roots: seq<string>, maxNodes: nat, trimmed: Nodes) {
    && trimmed.Valid() && SubMap(trimmed, nodes)
    && (if nodes.Size() > maxNodes then trimmed.Size() == maxNodes else trimmed == nodes)
    && var wanted := Wanted(nodes, Priority(roots, edges));
       && (|wanted| <= maxNodes ==> AllIn(wanted, trimmed))
       && (nodes.Size() > maxNodes && |wanted| >= maxNodes ==> forall x :: x in trimmed.vals ==> x in wanted)
       && (nodes.Size() > maxNodes ==> InOrder(nodes, Priority(roots, edges), trimmed))
  }

  /** What the per-file cap leaves. */
  ghost predicate CappedTo(trimmed: Nodes, roots: seq<string>, maxPerFile: nat, capped: Nodes)
    requires trimmed.Valid()
  {
    && capped.Valid() && SubMap(capped, trimmed)
    && forall k :: k in capped.vals <==>
         k in trimmed.vals && k in KeptOfFile(trimmed, roots, trimmed.vals[k].filePath, maxPerFile)
  }

  /** What the non-production cap leaves, of the nodes and of the entry points. */
  ghost predicate CutTo(capped: Nodes, roots: seq<string>, o: Options, r: Nodes, roots': seq<string>)
    requires capped.Valid()
  {
    var evicted := if o.isTestQuery then [] else Evicted(capped, o.isTestFile, o.maxNonProd);
    roots' == RootsWithout(roots, evicted) && forall k :: k in r.vals <==> k in capped.vals && k !in evicted
  }

  /** `recover` is the database lookup of edges among the selected nodes. */
  method Trim(nodes: Nodes, edges: seq<Edge>, roots: seq<string>, o: Options, recover: seq<string> -> seq<Edge>)
      returns (finalNodes: Nodes, finalEdges: seq<Edge>, finalRoots: seq<string>,
               ghost trimmed: Nodes, ghost capped: Nodes)
    requires nodes.Valid() && NoRepeats(edges)
    requires forall ids, e :: e in recover(ids) ==> e.source in ids && e.target in ids
    ensures finalNodes.Valid() && SubMap(finalNodes, nodes)
    ensures WithinBudgets(finalNodes, o)
    ensures NoRepeats(finalEdges) && Inside(finalEdges, finalNodes)
    ensures forall e :: e in edges && finalNodes.Has(e.source) && finalNodes.Has(e.target) ==> e in finalEdges
    ensures forall e :: e in recover(finalNodes.keys) ==> Text(e) in Texts(finalEdges)
    ensures TellsApart(EndsOf(edges) + EndsOf(recover(finalNodes.keys))) ==>
      forall e :: e in recover(finalNodes.keys) ==> HasTriple(finalEdges, e)
    ensures forall e :: e in finalEdges ==> e in edges || e in recover(finalNodes.keys)
    ensures TrimmedTo(nodes, edges, roots, o.maxNodes, trimmed) && CappedTo(trimmed, roots, o.maxPerFile, capped)
    ensures CutTo(capped, roots, o, finalNodes, finalRoots)
    ensures |RootsIn(roots, nodes)| <= o.maxNodes ==>
      forall r :: r in RootsIn(roots, nodes) && (o.isTestQuery || !o.isTestFile(nodes.vals[r].filePath)) ==>
        r in finalNodes.vals || Crowded(nodes, roots, nodes.vals[r].filePath, o.maxPerFile)
  {
    finalNodes := nodes;
    if nodes.Size() > o.maxNodes {
      finalNodes := TrimNodes(nodes, edges, roots, o.maxNodes);
    }
    trimmed := finalNodes;
    finalNodes := CapFiles(finalNodes, roots, o.maxPerFile);
    capped := finalNodes;
    finalRoots := roots;
    FilterAll(roots, x => x !in []);
    if !o.isTestQuery {
      finalNodes, finalRoots := CapNonProduction(finalNodes, roots, o.isTestFile, o.maxNonProd);
    }
    forall file ensures |OfFile(finalNodes, file)| <= o.maxPerFile {
      FileBudgetKept(trimmed, capped, finalNodes, roots, o.maxPerFile, file);
    }
    forall r | |RootsIn(roots, nodes)| <= o.maxNodes && r in RootsIn(roots, nodes) && r !in capped.vals
      ensures Crowded(nodes, roots, nodes.vals[r].filePath, o.maxPerFile)
    {
      DroppedRootMeansCrowd(nodes, trimmed, roots, o.maxPerFile, r);
    }
    finalEdges := RestoreEdges(edges, finalNodes, recover(finalNodes.keys));
  }

  /** The last filter and the recovery: the candidate edges inside the node set, then the
      edges found between its nodes. */
  method RestoreEdges(edges: seq<Edge>, nodes: Nodes, found: seq<Edge>) returns (r: seq<Edge>)
    requires NoRepeats(edges) && Inside(found, nodes)
    ensures NoRepeats(r) && Inside(r, nodes)
    ensures forall e :: e in edges && nodes.Has(e.source) && nodes.Has(e.target) ==> e in r
    ensures forall e :: e in found ==> Text(e) in Texts(r)
    ensures TellsApart(EndsOf(edges) + EndsOf(found)) ==> forall e :: e in found ==> HasTriple(r, e)
    ensures forall e :: e in r ==> e in edges || e in found
  {
    var kept := Between(edges, nodes);
    r := RecoverEdges(kept, found);
    if TellsApart(EndsOf(edges) + EndsOf(found)) {
      TriplesRecovered(EndsOf(edges) + EndsOf(found), kept, found);
    }
    forall e | e in kept ensures e in r {
      var i :| 0 <= i < |kept| && kept[i] == e;
      assert r[i] == e;
    }
  }
}
