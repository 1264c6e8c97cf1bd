/** `mergeGraphPart`: fold fragments into a graph document that stays sorted and free of
    duplicates. */
module MergeGraph {
  import opened Collections
  import opened JsMaps
  import opened StableSort

  datatype AppNode = AppNode(id: string, kind: string, matchKey: string, payload: string)
  datatype AppEdge = AppEdge(id: string, kind: string, from: string, to: string, payload: string)
  /** `file` and `symbol` are empty where the reference or its symbol is missing. */
  datatype Warning = Warning(message: string, file: string, symbol: string)

  /** `localeCompare`, as the total order it is taken to be. */
  type Order = (string, string) -> bool

  ghost predicate IsOrder(le: Order) {
    TotalPreorder(le) && forall a, b :: le(a, b) && le(b, a) ==> a == b
  }

  /** The order by a list of keys, the first difference deciding. */
  predicate Lex(le: Order, a: seq<string>, b: seq<string>)
    requires |a| == |b|
  {
    a == [] || (a[0] != b[0] && le(a[0], b[0])) || (a[0] == b[0] && Lex(le, a[1..], b[1..]))
  }

  lemma {:induction false} LexOrder(le: Order, a: seq<string>, b: seq<string>, c: seq<string>)
    requires IsOrder(le) && |a| == |b| == |c|
    ensures Lex(le, a, b) || Lex(le, b, a)
    ensures Lex(le, a, b) && Lex(le, b, a) ==> a == b
    ensures Lex(le, a, b) && Lex(le, b, c) ==> Lex(le, a, c)
  {
    if a != [] {
      LexOrder(le, a[1..], b[1..], c[1..]);
      assert a == [a[0]] + a[1..] && b == [b[0]] + b[1..];
    }
  }

  function NodeId(n: AppNode): string { n.id }
  function EdgeId(e: AppEdge): string { e.id }

  function CompareNodes(le: Order): (AppNode, AppNode) -> bool {
    (a: AppNode, b: AppNode) => Lex(le, [a.kind, a.matchKey, a.id], [b.kind, b.matchKey, b.id])
  }

  function CompareEdges(le: Order): (AppEdge, AppEdge) -> bool {
    (a: AppEdge, b: AppEdge) => Lex(le, [a.kind, a.from, a.to, a.id], [b.kind, b.from, b.to, b.id])
  }

  /** A comparator that tells items of different ids apart. */
  ghost predicate Separates<T(!new)>(le: (T, T) -> bool, id: T -> string) {
    TotalPreorder(le) && forall a, b :: le(a, b) && le(b, a) ==> id(a) == id(b)
  }

  lemma NodesSeparate(le: Order)
    requires IsOrder(le)
    ensures Separates(CompareNodes(le), NodeId)
  {
    forall a: AppNode, b: AppNode, c: AppNode
      ensures CompareNodes(le)(a, b) || CompareNodes(le)(b, a)
      ensures CompareNodes(le)(a, b) && CompareNodes(le)(b, c) ==> CompareNodes(le)(a, c)
      ensures CompareNodes(le)(a, b) && CompareNodes(le)(b, a) ==> NodeId(a) == NodeId(b)
    {
      var x, y, z := [a.kind, a.matchKey, a.id], [b.kind, b.matchKey, b.id], [c.kind, c.matchKey, c.id];
      LexOrder(le, x, y, z);
      assert x == y ==> x[2] == y[2];
    }
  }

  lemma EdgesSeparate(le: Order)
    requires IsOrder(le)
    ensures Separates(CompareEdges(le), EdgeId)
  {
    forall a: AppEdge, b: AppEdge, c: AppEdge
      ensures CompareEdges(le)(a, b) || CompareEdges(le)(b, a)
      ensures CompareEdges(le)(a, b) && CompareEdges(le)(b, c) ==> CompareEdges(le)(a, c)
      ensures CompareEdges(le)(a, b) && CompareEdges(le)(b, a) ==> EdgeId(a) == EdgeId(b)
    {
      var x, y, z := [a.kind, a.from, a.to, a.id], [b.kind, b.from, b.to, b.id], [c.kind, c.from, c.to, c.id];
      LexOrder(le, x, y, z);
      assert x == y ==> x[3] == y[3];
    }
  }

  // ---------------------------------------------------- maps by id, in general

  /** `for (const x of items) m.set(id(x), x)`. */
  function PutAll<T(!new)>(m: JsMap<string, T>, items: seq<T>, id: T -> string): JsMap<string, T> {
    if items == [] then m
    else
      var last := items[|items| - 1];
      PutAll(m, items[..|items| - 1], id).Put(id(last), last)
  }

  /** `if (!m.has(id(x))) m.set(id(x), x)`. */
  function PutNew<T(!new)>(m: JsMap<string, T>, items: seq<T>, id: T -> string): JsMap<string, T> {
    if items == [] then m
    else
      var before, last := PutNew(m, items[..|items| - 1], id), items[|items| - 1];
      if before.Has(id(last)) then before else before.Put(id(last), last)
  }

  function Values<T(!new)>(m: JsMap<string, T>, keys: seq<string>): (r: seq<T>)
    requires forall k :: k in keys ==> k in m.vals
    ensures |r| == |keys| && forall i :: 0 <= i < |keys| ==> r[i] == m.vals[keys[i]]
  {
    if keys == [] then [] else [m.vals[keys[0]]] + Values(m, keys[1..])
  }

  ghost predicate Keyed<T(!new)>(m: JsMap<string, T>, id: T -> string) {
    m.Valid() && forall k :: k in m.vals ==> id(m.vals[k]) == k
  }

  function SortedValues<T(!new)>(m: JsMap<string, T>, le: (T, T) -> bool): seq<T>
    requires m.Valid()
  {
    Sort(Values(m, m.keys), le)
  }

  lemma PutKeyed<T(!new)>(m: JsMap<string, T>, x: T, id: T -> string)
    requires Keyed(m, id)
    ensures Keyed(m.Put(id(x), x), id)
  {
    PutValid(m, id(x), x);
  }

  lemma PlusPut<T>(a: map<string, T>, b: map<string, T>, k: string, x: T)
    ensures a + b[k := x] == (a + b)[k := x]
  {
  }

  lemma PutPlus<T>(a: map<string, T>, b: map<string, T>, k: string, x: T)
    requires k !in b
    ensures a[k := x] + b == (a + b)[k := x]
  {
  }

  lemma {:induction false} PutAllKeyed<T(!new)>(m: JsMap<string, T>, items: seq<T>, id: T -> string)
    requires Keyed(m, id)
    ensures Keyed(PutAll(m, items, id), id)
    ensures PutAll(m, items, id).vals == m.vals + LastWins(items, id)
  {
    if items == [] {
      assert m.vals + map[] == m.vals;
    } else {
      var init, last := items[..|items| - 1], items[|items| - 1];
      PutAllKeyed(m, init, id);
      PutKeyed(PutAll(m, init, id), last, id);
      PlusPut(m.vals, LastWins(init, id), id(last), last);
    }
  }

  lemma {:induction false} PutNewKeyed<T(!new)>(m: JsMap<string, T>, items: seq<T>, id: T -> string)
    requires Keyed(m, id)
    ensures Keyed(PutNew(m, items, id), id)
    ensures PutNew(m, items, id).vals == FirstWins(items, id) + m.vals
  {
    if items == [] {
      assert map[] + m.vals == m.vals;
    } else {
      var init, last := items[..|items| - 1], items[|items| - 1];
      PutNewKeyed(m, init, id);
      if !PutNew(m, init, id).Has(id(last)) {
        PutKeyed(PutNew(m, init, id), last, id);
        PutPlus(FirstWins(init, id), m.vals, id(last), last);
      } else if id(last) !in FirstWins(init, id) {
        ShadowedPut(FirstWins(init, id), m.vals, id(last), last);
      }
    }
  }

  lemma ShadowedPut<T>(a: map<string, T>, b: map<string, T>, k: string, x: T)
    requires k in b
    ensures a[k := x] + b == a + b
  {
  }

  /** What a list means as a map, when a later item replaces an earlier one. */
  function LastWins<T(!new)>(items: seq<T>, id: T -> string): map<string, T> {
    if items == [] then map[]
    else LastWins(items[..|items| - 1], id)[id(items[|items| - 1]) := items[|items| - 1]]
  }

  /** And when an earlier item keeps its place. */
  function FirstWins<T(!new)>(items: seq<T>, id: T -> string): map<string, T> {
    if items == [] then map[]
    else
      var before, last := FirstWins(items[..|items| - 1], id), items[|items| - 1];
      if id(last) in before then before else before[id(last) := last]
  }

  lemma {:induction false} LastWinsAppend<T(!new)>(a: seq<T>, b: seq<T>, id: T -> string)
    ensures LastWins(a + b, id) == LastWins(a, id) + LastWins(b, id)
    decreases |b|
  {
    if b == [] {
      assert a + b == a;
    } else {
      assert (a + b)[..|a + b| - 1] == a + b[..|b| - 1];
      LastWinsAppend(a, b[..|b| - 1], id);
    }
  }

  lemma {:induction false} FirstWinsAppend<T(!new)>(a: seq<T>, b: seq<T>, id: T -> string)
    ensures FirstWins(a + b, id) == FirstWins(b, id) + FirstWins(a, id)
    decreases |b|
  {
    if b == [] {
      assert a + b == a;
    } else {
      assert (a + b)[..|a + b| - 1] == a + b[..|b| - 1];
      FirstWinsAppend(a, b[..|b| - 1], id);
    }
  }

  ghost predicate DistinctIds<T(!new)>(items: seq<T>, id: T -> string) {
    forall i, j :: 0 <= i < j < |items| ==> id(items[i]) != id(items[j])
  }

  /** With distinct ids both readings of a list agree, and hold exactly its items. */
  lemma {:induction false} DistinctWins<T(!new)>(items: seq<T>, id: T -> string)
    requires DistinctIds(items, id)
    ensures FirstWins(items, id) == LastWins(items, id)
    ensures forall k :: k in LastWins(items, id) ==> id(LastWins(items, id)[k]) == k
    ensures forall x :: x in items <==> id(x) in LastWins(items, id) && LastWins(items, id)[id(x)] == x
  {
    if items != [] {
      var init, last := items[..|items| - 1], items[|items| - 1];
      assert items == init + [last];
      DistinctWins(init, id);
      forall x | x in init ensures id(x) != id(last) {
        var i :| 0 <= i < |init| && init[i] == x;
        assert items[i] == x;
      }
      forall k | k in LastWins(init, id) ensures k != id(last) {
        assert LastWins(init, id)[k] in init;
      }
      assert forall x :: x in items <==> x in init || x == last;
    }
  }

  /** The canonical form of a set of items: sorted, one per id. */
  ghost predicate Canonical<T(!new)>(items: seq<T>, le: (T, T) -> bool, id: T -> string) {
    Sorted(items, le) && DistinctIds(items, id)
  }

  /** Two canonical lists that mean the same map are the same list. */
  lemma CanonicalUnique<T(!new)>(a: seq<T>, b: seq<T>, le: (T, T) -> bool, id: T -> string)
    requires Separates(le, id) && Canonical(a, le, id) && Canonical(b, le, id)
    requires LastWins(a, id) == LastWins(b, id)
    ensures a == b
  {
    DistinctWins(a, id);
    DistinctWins(b, id);
    SortedUnique(a, b, le);
  }

  lemma SortedValuesCanonical<T(!new)>(m: JsMap<string, T>, le: (T, T) -> bool, id: T -> string)
    requires Keyed(m, id) && Separates(le, id)
    ensures Canonical(SortedValues(m, le), le, id)
    ensures LastWins(SortedValues(m, le), id) == m.vals
  {
    var values := Values(m, m.keys);
    ValuesExact(m, id);
    SortSorted(values, le);
    SortDistinctIds(values, le, id);
    ListOfMap(SortedValues(m, le), m.vals, id);
  }

  lemma ValuesExact<T(!new)>(m: JsMap<string, T>, id: T -> string)
    requires Keyed(m, id)
    ensures DistinctIds(Values(m, m.keys), id)
    ensures forall x :: x in Values(m, m.keys) <==> id(x) in m.vals && m.vals[id(x)] == x
  {
    var values := Values(m, m.keys);
    forall i | 0 <= i < |m.keys| ensures id(values[i]) == m.keys[i] {
      assert m.keys[i] in m.keys;
    }
    forall x ensures x in values <==> id(x) in m.vals && m.vals[id(x)] == x {
      if id(x) in m.vals && m.vals[id(x)] == x {
        var i :| 0 <= i < |m.keys| && m.keys[i] == id(x);
        assert values[i] == x;
      }
      if x in values {
        var i :| 0 <= i < |values| && values[i] == x;
        assert m.keys[i] in m.keys;
      }
    }
  }

  /** A list of distinct ids that holds exactly the values of a map means that map. */
  lemma ListOfMap<T(!new)>(items: seq<T>, m: map<string, T>, id: T -> string)
    requires DistinctIds(items, id)
    requires forall k :: k in m ==> id(m[k]) == k
    requires forall x :: x in items <==> id(x) in m && m[id(x)] == x
    ensures LastWins(items, id) == m
  {
    DistinctWins(items, id);
    var w := LastWins(items, id);
    forall k ensures k in m <==> k in w {
      if k in m {
        assert m[k] in items;
      }
      if k in w {
        assert w[k] in items;
      }
    }
    forall k | k in m ensures w[k] == m[k] {
      assert m[k] in items;
    }
  }

  lemma {:induction false} SortDistinctIds<T(!new)>(items: seq<T>, le: (T, T) -> bool, id: T -> string)
    requires TotalPreorder(le) && DistinctIds(items, id)
    ensures DistinctIds(Sort(items, le), id)
  {
    if items != [] {
      var rest := items[1..];
      SortDistinctIds(rest, le, id);
      SortSorted(rest, le);
      forall x | x in Sort(rest, le) ensures id(x) != id(items[0]) {
        var i :| 0 <= i < |rest| && rest[i] == x;
        assert items[i + 1] == x;
      }
      InsertDistinctIds(items[0], Sort(rest, le), le, id);
    }
  }

  lemma {:induction false} InsertDistinctIds<T(!new)>(x: T, s: seq<T>, le: (T, T) -> bool, id: T -> string)
    requires DistinctIds(s, id) && forall y :: y in s ==> id(y) != id(x)
    ensures DistinctIds(Insert(x, s, le), id)
    ensures forall y :: y in Insert(x, s, le) <==> y == x || y in s
  {
    if s != [] && !le(x, s[0]) {
      InsertDistinctIds(x, s[1..], le, id);
      forall y | y in Insert(x, s[1..], le) ensures id(y) != id(s[0]) {
        if y != x {
          var i :| 0 <= i < |s[1..]| && s[1..][i] == y;
          assert s[i + 1] == y;
        }
      }
    }
  }

  // ------------------------------------------------------------------ warnings

  function WarningKey(w: Warning): string {
    w.message + "|" + w.file + "|" + w.symbol
  }

  /** What the key adds to a message. */
  function Tail(file: string, symbol: string): string {
    "|" + file + "|" + symbol
  }

  predicate EndsWith(s: string, tail: string) {
    |tail| <= |s| && s[|s| - |tail|..] == tail
  }

  ghost predicate KeyRight(places: set<(string, string)>, v: Warning, w: Warning) {
    (v.file, v.symbol) in places && (w.file, w.symbol) in places ==> (WarningKey(v) == WarningKey(w) <==> v == w)
  }

  /** No place, as the key writes it, ends another. */
  ghost predicate PlacesApart(places: set<(string, string)>) {
    forall p, q :: p in places && q in places && EndsWith(Tail(q.0, q.1), Tail(p.0, p.1)) ==> p == q
  }

  lemma KeyIsTail(w: Warning)
    ensures WarningKey(w) == w.message + Tail(w.file, w.symbol)
  {
  }

  lemma OneEndsOther(m: string, s: string, n: string, t: string)
    requires m + s == n + t
    ensures EndsWith(t, s) || EndsWith(s, t)
    ensures s == t ==> m == n
  {
    var x := m + s;
    assert x[|m|..] == s && x[..|m|] == m && (n + t)[|n|..] == t && (n + t)[..|n|] == n;
    if |s| <= |t| {
      assert t[|t| - |s|..] == x[|n|..][|t| - |s|..] == x[|m|..];
    } else {
      assert s[|s| - |t|..] == x[|m|..][|s| - |t|..] == x[|n|..];
    }
  }

  /** The key tells warnings at these places apart, whatever their messages, iff no place
      ends another; otherwise one of two different warnings is dropped. */
  lemma KeyRightIff(places: set<(string, string)>)
    ensures (forall v, w :: KeyRight(places, v, w)) <==> PlacesApart(places)
  {
    if PlacesApart(places) {
      forall v, w ensures KeyRight(places, v, w) {
        if (v.file, v.symbol) in places && (w.file, w.symbol) in places && WarningKey(v) == WarningKey(w) {
          KeyIsTail(v);
          KeyIsTail(w);
          OneEndsOther(v.message, Tail(v.file, v.symbol), w.message, Tail(w.file, w.symbol));
          assert (v.file, v.symbol) == (w.file, w.symbol);
        }
      }
    } else {
      var p, q :| p in places && q in places && EndsWith(Tail(q.0, q.1), Tail(p.0, p.1)) && p != q;
      var s, t := Tail(p.0, p.1), Tail(q.0, q.1);
      var v, w := Warning(t[..|t| - |s|], p.0, p.1), Warning("", q.0, q.1);
      KeyIsTail(v);
      KeyIsTail(w);
      assert t[..|t| - |s|] + s == t;
      assert !KeyRight(places, v, w);
    }
  }

  /** A bar in a file or symbol is needed for that. */
  lemma NoBarsApart(places: set<(string, string)>)
    requires forall p :: p in places ==> '|' !in p.0 && '|' !in p.1
    ensures PlacesApart(places)
  {
    forall p, q | p in places && q in places && EndsWith(Tail(q.0, q.1), Tail(p.0, p.1)) ensures p == q {
      SameTail(p.0, p.1, q.0, q.1);
    }
  }

  lemma BarsOf(f: string, s: string, i: nat)
    requires '|' !in f && '|' !in s && i < |Tail(f, s)|
    ensures Tail(f, s)[i] == '|' <==> i == 0 || i == |f| + 1
  {
    if 0 < i <= |f| {
      assert Tail(f, s)[i] == f[i - 1];
    } else if i > |f| + 1 {
      assert Tail(f, s)[i] == s[i - |f| - 2];
    }
  }

  lemma SameTail(f: string, s: string, g: string, t: string)
    requires '|' !in f && '|' !in s && '|' !in g && '|' !in t && EndsWith(Tail(g, t), Tail(f, s))
    ensures f == g && s == t
  {
    var x, y := Tail(f, s), Tail(g, t);
    var d := |y| - |x|;
    BarsOf(f, s, 0);
    BarsOf(f, s, |f| + 1);
    assert y[d] == y[d..][0] == x[0] && y[d + |f| + 1] == y[d..][|f| + 1] == x[|f| + 1];
    BarsOf(g, t, d);
    BarsOf(g, t, d + |f| + 1);
    assert d == 0 && |f| == |g|;
    assert y[d..] == y;
    TailParts(f, s);
    TailParts(g, t);
  }

  lemma TailParts(f: string, s: string)
    ensures f == Tail(f, s)[1..|f| + 1] && s == Tail(f, s)[|f| + 2..]
  {
  }

  /** Two different warnings with one key: the second is dropped. */
  lemma BarsCollide()
    ensures var v, w := Warning("a|b", "c", ""), Warning("a", "b|c", "");
      WarningKey(v) == WarningKey(w) && Firsts([v, w], WarningKey) == [v]
  {
    var v, w := Warning("a|b", "c", ""), Warning("a", "b|c", "");
    assert WarningKey(v) == "a|b|c|" == WarningKey(w);
    assert KeysOf([], WarningKey) == {};
    assert FirstsUpTo([v, w], 1, WarningKey) == [v];
    assert v in [v] && WarningKey(w) in KeysOf([v], WarningKey);
  }

  function KeysOf<T(==, !new)>(ws: seq<T>, id: T -> string): set<string> {
    set w | w in ws :: id(w)
  }

  /** First occurrences of each key among the first `n`, in order. */
  function FirstsUpTo<T(==, !new)>(ws: seq<T>, n: nat, id: T -> string): seq<T>
    requires n <= |ws|
  {
    if n == 0 then []
    else
      var before := FirstsUpTo(ws, n - 1, id);
      if id(ws[n - 1]) in KeysOf(before, id) then before else before + [ws[n - 1]]
  }

  function Firsts<T(==, !new)>(ws: seq<T>, id: T -> string): seq<T> {
    FirstsUpTo(ws, |ws|, id)
  }

  function ByMessage(le: Order): (Warning, Warning) -> bool {
    (a: Warning, b: Warning) => le(a.message, b.message)
  }

  method DedupeWarnings(le: Order, warnings: seq<Warning>) returns (out: seq<Warning>)
    ensures out == Sort(Firsts(warnings, WarningKey), ByMessage(le))
  {
    var seen: set<string> := {};
    out := [];
    for i := 0 to |warnings|
      invariant out == FirstsUpTo(warnings, i, WarningKey) && seen == KeysOf(out, WarningKey)
    {
      var w := warnings[i];
      if WarningKey(w) !in seen {
        seen := seen + {WarningKey(w)};
        assert forall x :: x in out + [w] <==> x in out || x == w;
        out := out + [w];
      }
    }
    assert warnings[..|warnings|] == warnings;
    out := Sort(out, ByMessage(le));
  }

  lemma KeysOfAppend<T(!new)>(ws: seq<T>, w: T, id: T -> string)
    ensures KeysOf(ws + [w], id) == KeysOf(ws, id) + {id(w)}
  {
    var both := ws + [w];
    assert forall x :: x in both <==> x in ws || x == w;
    assert forall x :: x in ws ==> x in both;
    assert w in both;
  }

  lemma ByMessagePreorder(le: Order)
    requires IsOrder(le)
    ensures TotalPreorder(ByMessage(le))
  {
    forall a: Warning, b: Warning, c: Warning
      ensures ByMessage(le)(a, b) || ByMessage(le)(b, a)
      ensures ByMessage(le)(a, b) && ByMessage(le)(b, c) ==> ByMessage(le)(a, c)
    {
      var x, y, z := a.message, b.message, c.message;
      assert le(x, y) || le(y, x);
      assert le(x, y) && le(y, z) ==> le(x, z);
    }
  }

  lemma FirstsExact<T(!new)>(ws: seq<T>, id: T -> string)
    ensures DistinctIds(Firsts(ws, id), id)
    ensures KeysOf(Firsts(ws, id), id) == KeysOf(ws, id)
    ensures forall w :: w in Firsts(ws, id) ==> w in ws
  {
    FirstsUpToExact(ws, |ws|, id);
    assert ws[..|ws|] == ws;
  }

  lemma {:induction false} FirstsUpToExact<T(!new)>(ws: seq<T>, n: nat, id: T -> string)
    requires n <= |ws|
    ensures DistinctIds(FirstsUpTo(ws, n, id), id)
    ensures KeysOf(FirstsUpTo(ws, n, id), id) == KeysOf(ws[..n], id)
    ensures forall w :: w in FirstsUpTo(ws, n, id) ==> w in ws
  {
    if n > 0 {
      FirstsUpToExact(ws, n - 1, id);
      var before, last := FirstsUpTo(ws, n - 1, id), ws[n - 1];
      assert ws[..n] == ws[..n - 1] + [last];
      KeysOfAppend(ws[..n - 1], last, id);
      KeysOfAppend(before, last, id);
      if id(last) !in KeysOf(before, id) {
        DistinctIdsAppend(before, last, id);
      }
    }
  }

  lemma DistinctIdsAppend<T(!new)>(ws: seq<T>, w: T, id: T -> string)
    requires DistinctIds(ws, id) && id(w) !in KeysOf(ws, id)
    ensures DistinctIds(ws + [w], id)
  {
    forall i | 0 <= i < |ws| ensures id(ws[i]) != id(w) {
      assert ws[i] in ws;
    }
  }

  lemma {:induction false} FirstsOfDistinct<T(!new)>(ws: seq<T>, n: nat, id: T -> string)
    requires DistinctIds(ws, id) && n <= |ws|
    ensures FirstsUpTo(ws, n, id) == ws[..n]
  {
    if n > 0 {
      FirstsOfDistinct(ws, n - 1, id);
      KeyIsNew(ws, n - 1, id);
      assert ws[..n] == ws[..n - 1] + [ws[n - 1]];
    }
  }

  lemma KeyIsNew<T(!new)>(ws: seq<T>, n: nat, id: T -> string)
    requires n < |ws| && DistinctIds(ws, id)
    ensures id(ws[n]) !in KeysOf(ws[..n], id)
  {
    forall w | w in ws[..n] ensures id(w) != id(ws[n]) {
      var i :| 0 <= i < n && ws[i] == w;
    }
  }

  lemma {:induction false} FirstsOfPrefix<T(!new)>(ws: seq<T>, more: seq<T>, n: nat, id: T -> string)
    requires n <= |ws|
    ensures FirstsUpTo(ws + more, n, id) == FirstsUpTo(ws, n, id)
  {
    if n > 0 {
      FirstsOfPrefix(ws, more, n - 1, id);
    }
  }

  lemma {:induction false} FirstsAbsorb<T(!new)>(ws: seq<T>, more: seq<T>, n: nat, id: T -> string)
    requires KeysOf(more, id) <= KeysOf(Firsts(ws, id), id) && n <= |more|
    ensures FirstsUpTo(ws + more, |ws| + n, id) == Firsts(ws, id)
  {
    if n == 0 {
      FirstsOfPrefix(ws, more, |ws|, id);
    } else {
      FirstsAbsorb(ws, more, n - 1, id);
      assert (ws + more)[|ws| + n - 1] == more[n - 1];
      assert id(more[n - 1]) in KeysOf(more, id);
    }
  }

  // --------------------------------------------------------------- the document

  datatype Document = Document(nodes: seq<AppNode>, edges: seq<AppEdge>, warnings: seq<Warning>)

  const EMPTY := Document([], [], [])

  function NodeMap(d: Document, part: Document): JsMap<string, AppNode> {
    PutAll(PutAll(Empty(), d.nodes, NodeId), part.nodes, NodeId)
  }

  function EdgeMap(d: Document, part: Document): JsMap<string, AppEdge> {
    PutNew(PutAll(Empty(), d.edges, EdgeId), part.edges, EdgeId)
  }

  lemma EmptyKeyed<T(!new)>(id: T -> string)
    ensures Keyed(Empty<string, T>(), id)
  {
  }

  lemma OwnKeyed<T(!new)>(own: seq<T>, id: T -> string)
    ensures Keyed(PutAll(Empty(), own, id), id) && PutAll(Empty(), own, id).vals == LastWins(own, id)
  {
    EmptyKeyed(id);
    PutAllKeyed(Empty(), own, id);
    assert map[] + LastWins(own, id) == LastWins(own, id);
  }

  lemma MapsKeyed(d: Document, part: Document)
    ensures Keyed(NodeMap(d, part), NodeId) && Keyed(EdgeMap(d, part), EdgeId)
    ensures NodeMap(d, part).vals == LastWins(d.nodes, NodeId) + LastWins(part.nodes, NodeId)
    ensures EdgeMap(d, part).vals == FirstWins(part.edges, EdgeId) + LastWins(d.edges, EdgeId)
  {
    OwnKeyed(d.nodes, NodeId);
    PutAllKeyed(PutAll(Empty(), d.nodes, NodeId), part.nodes, NodeId);
    OwnKeyed(d.edges, EdgeId);
    PutNewKeyed(PutAll(Empty(), d.edges, EdgeId), part.edges, EdgeId);
  }

  function MergeWarnings(le: Order, d: seq<Warning>, part: seq<Warning>): seq<Warning> {
    if part == [] then d else Sort(Firsts(d + part, WarningKey), ByMessage(le))
  }

  function Merge(le: Order, d: Document, part: Document): Document {
    MapsKeyed(d, part);
    Document(SortedValues(NodeMap(d, part), CompareNodes(le)),
             SortedValues(EdgeMap(d, part), CompareEdges(le)),
             MergeWarnings(le, d.warnings, part.warnings))
  }

  class MergeableGraph {
    var nodes: seq<AppNode>
    var edges: seq<AppEdge>
    var coverageWarnings: seq<Warning>

    function View(): Document
      reads this
    {
      Document(nodes, edges, coverageWarnings)
    }

    /** The node map of the graph, overwritten by the part's nodes. */
    static method IndexNodes(own: seq<AppNode>, part: seq<AppNode>) returns (byId: JsMap<string, AppNode>)
      ensures byId == PutAll(PutAll(Empty(), own, NodeId), part, NodeId)
    {
      byId := PutAll(Empty(), own, NodeId);
      for i := 0 to |part|
        invariant byId == PutAll(PutAll(Empty(), own, NodeId), part[..i], NodeId)
      {
        assert part[..i + 1][..i] == part[..i];
        byId := byId.Put(part[i].id, part[i]);
      }
      assert part[..|part|] == part;
    }

    /** The edge map of the graph, extended by the part's edges with new ids. */
    static method IndexEdges(own: seq<AppEdge>, part: seq<AppEdge>) returns (byId: JsMap<string, AppEdge>)
      ensures byId == PutNew(PutAll(Empty(), own, EdgeId), part, EdgeId)
    {
      byId := PutAll(Empty(), own, EdgeId);
      for i := 0 to |part|
        invariant byId == PutNew(PutAll(Empty(), own, EdgeId), part[..i], EdgeId)
      {
        assert part[..i + 1][..i] == part[..i];
        if !byId.Has(part[i].id) {
          byId := byId.Put(part[i].id, part[i]);
        }
      }
      assert part[..|part|] == part;
    }

    method MergeGraphPart(le: Order, part: Document)
      modifies this
      ensures View() == Merge(le, old(View()), part)
    {
      MapsKeyed(View(), part);
      var nodesById := IndexNodes(nodes, part.nodes);
      var edgesById := IndexEdges(edges, part.edges);
      nodes := SortedValues(nodesById, CompareNodes(le));
      edges := SortedValues(edgesById, CompareEdges(le));
      if |part.warnings| > 0 {
        coverageWarnings := DedupeWarnings(le, coverageWarnings + part.warnings);
      }
    }
  }

  // ------------------------------------------------------------------- results

  function FoldParts(le: Order, parts: seq<Document>): Document {
    if parts == [] then EMPTY else Merge(le, FoldParts(le, parts[..|parts| - 1]), parts[|parts| - 1])
  }

  function AllNodes(parts: seq<Document>): seq<AppNode> {
    if parts == [] then [] else AllNodes(parts[..|parts| - 1]) + parts[|parts| - 1].nodes
  }

  function AllEdges(parts: seq<Document>): seq<AppEdge> {
    if parts == [] then [] else AllEdges(parts[..|parts| - 1]) + parts[|parts| - 1].edges
  }

  /** Folding any list of parts gives the canonical list of the last-wins node map and of
      the first-wins edge map over everything the parts contain. */
  lemma {:induction false} FoldIsCanonical(le: Order, parts: seq<Document>)
    requires IsOrder(le)
    ensures var d := FoldParts(le, parts);
      && Canonical(d.nodes, CompareNodes(le), NodeId)
      && LastWins(d.nodes, NodeId) == LastWins(AllNodes(parts), NodeId)
      && Canonical(d.edges, CompareEdges(le), EdgeId)
      && LastWins(d.edges, EdgeId) == FirstWins(AllEdges(parts), EdgeId)
  {
    NodesSeparate(le);
    EdgesSeparate(le);
    if parts != [] {
      var init, part := parts[..|parts| - 1], parts[|parts| - 1];
      FoldIsCanonical(le, init);
      var d := FoldParts(le, init);
      MapsKeyed(d, part);
      SortedValuesCanonical(NodeMap(d, part), CompareNodes(le), NodeId);
      SortedValuesCanonical(EdgeMap(d, part), CompareEdges(le), EdgeId);
      LastWinsAppend(AllNodes(init), part.nodes, NodeId);
      FirstWinsAppend(AllEdges(init), part.edges, EdgeId);
    }
  }

  /** Two lists of parts that agree as maps give the same document lists, however the
      parts were cut and ordered. */
  lemma FoldDependsOnMapsOnly(le: Order, a: seq<Document>, b: seq<Document>)
    requires IsOrder(le)
    requires LastWins(AllNodes(a), NodeId) == LastWins(AllNodes(b), NodeId)
    requires FirstWins(AllEdges(a), EdgeId) == FirstWins(AllEdges(b), EdgeId)
    ensures FoldParts(le, a).nodes == FoldParts(le, b).nodes
    ensures FoldParts(le, a).edges == FoldParts(le, b).edges
  {
    NodesSeparate(le);
    EdgesSeparate(le);
    FoldIsCanonical(le, a);
    FoldIsCanonical(le, b);
    CanonicalUnique(FoldParts(le, a).nodes, FoldParts(le, b).nodes, CompareNodes(le), NodeId);
    CanonicalUnique(FoldParts(le, a).edges, FoldParts(le, b).edges, CompareEdges(le), EdgeId);
  }

  /** Merging the same part again changes nothing. */
  lemma MergeTwice(le: Order, d: Document, part: Document)
    requires IsOrder(le)
    ensures Merge(le, Merge(le, d, part), part) == Merge(le, d, part)
  {
    NodesTwice(le, d, part);
    EdgesTwice(le, d, part);
    WarningsTwice(le, d.warnings, part.warnings);
  }

  lemma NodesTwice(le: Order, d: Document, part: Document)
    requires IsOrder(le)
    ensures Merge(le, Merge(le, d, part), part).nodes == Merge(le, d, part).nodes
  {
    var once := Merge(le, d, part);
    NodesSeparate(le);
    MapsKeyed(d, part);
    MapsKeyed(once, part);
    SortedValuesCanonical(NodeMap(d, part), CompareNodes(le), NodeId);
    SortedValuesCanonical(NodeMap(once, part), CompareNodes(le), NodeId);
    var n, p := LastWins(d.nodes, NodeId), LastWins(part.nodes, NodeId);
    assert (n + p) + p == n + p;
    CanonicalUnique(Merge(le, once, part).nodes, once.nodes, CompareNodes(le), NodeId);
  }

  lemma EdgesTwice(le: Order, d: Document, part: Document)
    requires IsOrder(le)
    ensures Merge(le, Merge(le, d, part), part).edges == Merge(le, d, part).edges
  {
    var once := Merge(le, d, part);
    EdgesSeparate(le);
    MapsKeyed(d, part);
    MapsKeyed(once, part);
    SortedValuesCanonical(EdgeMap(d, part), CompareEdges(le), EdgeId);
    SortedValuesCanonical(EdgeMap(once, part), CompareEdges(le), EdgeId);
    var e, q := LastWins(d.edges, EdgeId), FirstWins(part.edges, EdgeId);
    assert q + (q + e) == q + e;
    CanonicalUnique(Merge(le, once, part).edges, once.edges, CompareEdges(le), EdgeId);
  }

  lemma WarningsTwice(le: Order, d: seq<Warning>, part: seq<Warning>)
    requires IsOrder(le)
    ensures MergeWarnings(le, MergeWarnings(le, d, part), part) == MergeWarnings(le, d, part)
  {
    if part != [] {
      ByMessagePreorder(le);
      DedupeSettles(d + part, part, ByMessage(le), WarningKey);
    }
  }

  /** Deduplicating a deduplicated list with more of the same keys changes nothing. */
  lemma DedupeSettles<T(!new)>(ws: seq<T>, part: seq<T>, le: (T, T) -> bool, id: T -> string)
    requires TotalPreorder(le) && forall w :: w in part ==> w in ws
    ensures var once := Sort(Firsts(ws, id), le); Sort(Firsts(once + part, id), le) == once
  {
    var once := Sort(Firsts(ws, id), le);
    DedupedKeys(ws, le, id);
    NothingNew(once, part, id);
    SortIdempotent(once, le);
  }

  lemma DedupedKeys<T(!new)>(ws: seq<T>, le: (T, T) -> bool, id: T -> string)
    requires TotalPreorder(le)
    ensures var once := Sort(Firsts(ws, id), le);
      Sorted(once, le) && DistinctIds(once, id) && KeysOf(once, id) == KeysOf(ws, id)
  {
    var firsts := Firsts(ws, id);
    FirstsExact(ws, id);
    SortSorted(firsts, le);
    SortDistinctIds(firsts, le, id);
    assert KeysOf(Sort(firsts, le), id) == KeysOf(firsts, id);
  }

  lemma NothingNew<T(!new)>(once: seq<T>, part: seq<T>, id: T -> string)
    requires DistinctIds(once, id) && KeysOf(part, id) <= KeysOf(once, id)
    ensures Firsts(once + part, id) == once
  {
    FirstsOfDistinct(once, |once|, id);
    assert once[..|once|] == once;
    FirstsAbsorb(once, part, |part|, id);
  }

  // ---------------------------------------------- the orders, field by field

  /** Sorted by kind, then match key, then id. */
  ghost predicate NodesInOrder(le: Order, nodes: seq<AppNode>) {
    forall i, j :: 0 <= i < j < |nodes| ==>
      && le(nodes[i].kind, nodes[j].kind)
      && (nodes[i].kind == nodes[j].kind ==> le(nodes[i].matchKey, nodes[j].matchKey))
      && (nodes[i].kind == nodes[j].kind && nodes[i].matchKey == nodes[j].matchKey ==> le(nodes[i].id, nodes[j].id))
  }

  /** Sorted by kind, then source, then target, then id. */
  ghost predicate EdgesInOrder(le: Order, edges: seq<AppEdge>) {
    forall i, j :: 0 <= i < j < |edges| ==>
      && le(edges[i].kind, edges[j].kind)
      && (edges[i].kind == edges[j].kind ==> le(edges[i].from, edges[j].from))
      && (edges[i].kind == edges[j].kind && edges[i].from == edges[j].from ==> le(edges[i].to, edges[j].to))
      && (edges[i].kind == edges[j].kind && edges[i].from == edges[j].from && edges[i].to == edges[j].to ==>
            le(edges[i].id, edges[j].id))
  }

  lemma LexHead(le: Order, x: seq<string>, y: seq<string>)
    requires IsOrder(le) && |x| == |y| && x != [] && Lex(le, x, y)
    ensures le(x[0], y[0]) && (x[0] == y[0] ==> Lex(le, x[1..], y[1..]))
  {
    assert le(x[0], x[0]);
  }

  lemma NodePair(le: Order, a: AppNode, b: AppNode)
    requires IsOrder(le) && CompareNodes(le)(a, b)
    ensures le(a.kind, b.kind)
    ensures a.kind == b.kind ==> le(a.matchKey, b.matchKey)
    ensures a.kind == b.kind && a.matchKey == b.matchKey ==> le(a.id, b.id)
  {
    var x, y := [a.kind, a.matchKey, a.id], [b.kind, b.matchKey, b.id];
    LexHead(le, x, y);
    if a.kind == b.kind {
      assert x[1..] == [a.matchKey, a.id] && y[1..] == [b.matchKey, b.id];
      LexHead(le, [a.matchKey, a.id], [b.matchKey, b.id]);
      if a.matchKey == b.matchKey {
        assert [a.matchKey, a.id][1..] == [a.id] && [b.matchKey, b.id][1..] == [b.id];
        LexHead(le, [a.id], [b.id]);
      }
    }
  }

  lemma EdgePair(le: Order, a: AppEdge, b: AppEdge)
    requires IsOrder(le) && CompareEdges(le)(a, b)
    ensures le(a.kind, b.kind)
    ensures a.kind == b.kind ==> le(a.from, b.from)
    ensures a.kind == b.kind && a.from == b.from ==> le(a.to, b.to)
    ensures a.kind == b.kind && a.from == b.from && a.to == b.to ==> le(a.id, b.id)
  {
    var x, y := [a.kind, a.from, a.to, a.id], [b.kind, b.from, b.to, b.id];
    LexHead(le, x, y);
    if a.kind == b.kind {
      assert x[1..] == [a.from, a.to, a.id] && y[1..] == [b.from, b.to, b.id];
      LexHead(le, [a.from, a.to, a.id], [b.from, b.to, b.id]);
      if a.from == b.from {
        assert [a.from, a.to, a.id][1..] == [a.to, a.id] && [b.from, b.to, b.id][1..] == [b.to, b.id];
        LexHead(le, [a.to, a.id], [b.to, b.id]);
        if a.to == b.to {
          assert [a.to, a.id][1..] == [a.id] && [b.to, b.id][1..] == [b.id];
          LexHead(le, [a.id], [b.id]);
        }
      }
    }
  }

  /** A merged document lists its nodes and edges in these orders. */
  lemma MergedInOrder(le: Order, d: Document, part: Document)
    requires IsOrder(le)
    ensures NodesInOrder(le, Merge(le, d, part).nodes) && EdgesInOrder(le, Merge(le, d, part).edges)
  {
    var m := Merge(le, d, part);
    MapsKeyed(d, part);
    NodesSeparate(le);
    EdgesSeparate(le);
    SortedValuesCanonical(NodeMap(d, part), CompareNodes(le), NodeId);
    SortedValuesCanonical(EdgeMap(d, part), CompareEdges(le), EdgeId);
    forall i, j | 0 <= i < j < |m.nodes|
      ensures le(m.nodes[i].kind, m.nodes[j].kind)
      ensures m.nodes[i].kind == m.nodes[j].kind ==> le(m.nodes[i].matchKey, m.nodes[j].matchKey)
      ensures m.nodes[i].kind == m.nodes[j].kind && m.nodes[i].matchKey == m.nodes[j].matchKey ==>
        le(m.nodes[i].id, m.nodes[j].id)
    {
      NodePair(le, m.nodes[i], m.nodes[j]);
    }
    forall i, j | 0 <= i < j < |m.edges|
      ensures le(m.edges[i].kind, m.edges[j].kind)
      ensures m.edges[i].kind == m.edges[j].kind ==> le(m.edges[i].from, m.edges[j].from)
      ensures m.edges[i].kind == m.edges[j].kind && m.edges[i].from == m.edges[j].from ==>
        le(m.edges[i].to, m.edges[j].to)
      ensures m.edges[i].kind == m.edges[j].kind && m.edges[i].from == m.edges[j].from && m.edges[i].to == m.edges[j].to
        ==> le(m.edges[i].id, m.edges[j].id)
    {
      EdgePair(le, m.edges[i], m.edges[j]);
    }
  }

  /** Warnings are touched only by a part that has some; then they are in order of their
      messages, and of each message, file and symbol the first one stays. */
  lemma MergedWarnings(le: Order, d: Document, part: Document)
    requires IsOrder(le)
    ensures var all, r := d.warnings + part.warnings, Merge(le, d, part).warnings;
      if part.warnings == [] then r == d.warnings
      else
        && (forall i, j :: 0 <= i < j < |r| ==> le(r[i].message, r[j].message))
        && (forall w :: w in r <==> exists i: nat :: IsFirst(all, i, w))
  {
    if part.warnings != [] {
      var all := d.warnings + part.warnings;
      ByMessagePreorder(le);
      SortSorted(Firsts(all, WarningKey), ByMessage(le));
      forall w ensures w in Firsts(all, WarningKey) <==> exists i: nat :: IsFirst(all, i, w) {
        FirstsAreFirst(all, |all|, w);
      }
      var r := Merge(le, d, part).warnings;
      forall i, j | 0 <= i < j < |r| ensures le(r[i].message, r[j].message) {
        assert ByMessage(le)(r[i], r[j]);
      }
    }
  }

  /** `w` stands at `i` and no earlier warning has its message, file and symbol as the key
      writes them. */
  ghost predicate IsFirst(ws: seq<Warning>, i: nat, w: Warning) {
    && i < |ws| && ws[i] == w
    && forall j :: 0 <= j < i ==> KeyText(ws[j]) != KeyText(w)
  }

  function KeyText(w: Warning): string {
    w.message + "|" + w.file + "|" + w.symbol
  }

  ghost predicate FirstBelow(ws: seq<Warning>, n: nat, w: Warning) {
    exists i: nat :: i < n && IsFirst(ws, i, w)
  }

  lemma {:induction false} FirstsAreFirst(ws: seq<Warning>, n: nat, w: Warning)
    requires n <= |ws|
    ensures w in FirstsUpTo(ws, n, WarningKey) <==> FirstBelow(ws, n, w)
    ensures n == |ws| ==> (FirstBelow(ws, n, w) <==> exists i: nat :: IsFirst(ws, i, w))
  {
    if n > 0 {
      FirstsAreFirst(ws, n - 1, w);
      FirstsUpToExact(ws, n - 1, WarningKey);
      FirstStep(ws, n, w);
    }
  }

  lemma FirstStep(ws: seq<Warning>, n: nat, w: Warning)
    requires 0 < n <= |ws|
    requires KeysOf(FirstsUpTo(ws, n - 1, WarningKey), WarningKey) == KeysOf(ws[..n - 1], WarningKey)
    requires w in FirstsUpTo(ws, n - 1, WarningKey) <==> FirstBelow(ws, n - 1, w)
    ensures w in FirstsUpTo(ws, n, WarningKey) <==> FirstBelow(ws, n, w)
  {
    NewKeyIff(ws, n - 1);
    if IsFirst(ws, n - 1, w) {
      assert FirstBelow(ws, n, w);
    }
    if FirstBelow(ws, n, w) && !FirstBelow(ws, n - 1, w) {
      assert IsFirst(ws, n - 1, w);
    }
    if FirstBelow(ws, n - 1, w) {
      var i: nat :| i < n - 1 && IsFirst(ws, i, w);
      assert FirstBelow(ws, n, w);
    }
  }

  lemma NewKeyIff(ws: seq<Warning>, n: nat)
    requires n < |ws|
    ensures WarningKey(ws[n]) !in KeysOf(ws[..n], WarningKey) <==> IsFirst(ws, n, ws[n])
  {
    if WarningKey(ws[n]) !in KeysOf(ws[..n], WarningKey) {
      forall j | 0 <= j < n ensures KeyText(ws[j]) != KeyText(ws[n]) {
        assert ws[..n][j] in ws[..n];
      }
    } else {
      var w :| w in ws[..n] && WarningKey(w) == WarningKey(ws[n]);
      var j :| 0 <= j < n && ws[..n][j] == w;
      assert KeyText(ws[j]) == KeyText(ws[n]);
    }
  }
}
