/** The workspace scope: five levels of rules decide whether a path is ignored, and a
    directory walker prunes by the same answer. */
module ScopeIgnore {
  import opened Collections
  import opened StableSort

  /** Compiled gitignore patterns. Directory paths end in a slash. */
  type Matcher = string -> bool

  datatype Embedded = Embedded(root: string, matcher: Matcher)

  datatype Scope = Scope(
    rootMatcher: Matcher,
    embedded: seq<Embedded>,
    exclude: Option<Matcher>,
    included: Option<Matcher>,
    includeRoots: seq<string>,
    defaults: Matcher)

  predicate IsDir(rel: string) {
    rel != "" && rel[|rel| - 1] == '/'
  }

  function LongestFirst(a: Embedded, b: Embedded): bool {
    |b.root| <= |a.root|
  }

  /** The constructor sorts the embedded roots, longest first. */
  function Build(rootMatcher: Matcher, embedded: seq<Embedded>, exclude: Option<Matcher>,
                 included: Option<Matcher>, includeRoots: seq<string>, defaults: Matcher): Scope
  {
    Scope(rootMatcher, Sort(embedded, LongestFirst), exclude, included, includeRoots, defaults)
  }

  /** The first embedded root that the path starts with. */
  function FirstMatch(embedded: seq<Embedded>, rel: string): (r: Option<Embedded>)
    ensures r.Some? ==> r.value in embedded && r.value.root <= rel
    ensures r.None? ==> forall e :: e in embedded ==> !(e.root <= rel)
  {
    if embedded == [] then None
    else if embedded[0].root <= rel then Some(embedded[0])
    else
      assert forall e :: e in embedded <==> e == embedded[0] || e in embedded[1..];
      FirstMatch(embedded[1..], rel)
  }

  predicate Excluded(s: Scope, rel: string) {
    s.exclude.Some? && s.exclude.value(rel)
  }

  /** A directory on the way to, or inside, an included subtree. */
  predicate OnIncludeRoot(s: Scope, rel: string) {
    exists r :: r in s.includeRoots && (rel <= r || r <= rel)
  }

  predicate ForcedIn(s: Scope, rel: string) {
    && s.included.Some? && !s.defaults(rel)
    && if IsDir(rel) then OnIncludeRoot(s, rel) else s.included.value(rel)
  }

  predicate LeadsToEmbedded(s: Scope, rel: string) {
    exists i :: 0 <= i < |s.embedded| && rel <= s.embedded[i].root
  }

  predicate Ignores(s: Scope, rel: string) {
    if Excluded(s, rel) then true
    else if ForcedIn(s, rel) then false
    else match FirstMatch(s.embedded, rel)
      case Some(e) =>
        var inner := rel[|e.root|..];
        if inner == "" then false else s.defaults(rel) || e.matcher(inner)
      case None =>
        if IsDir(rel) && LeadsToEmbedded(s, rel) then false else s.rootMatcher(rel)
  }

  // ------------------------------------------- the levels, against the matchers

  /** No include rule keeps the path: there is none, a default ignores it, or it is neither
      an included file nor a directory along or below an include root. */
  predicate NotIncluded(s: Scope, p: string) {
    || s.included.None? || s.defaults(p)
    || (if p != "" && p[|p| - 1] == '/' then forall r :: r in s.includeRoots ==> !(p <= r) && !(r <= p)
        else !s.included.value(p))
  }

  /** An exclude ignores what it matches in addition, and nothing else changes. */
  lemma ExcludeAdds(s: Scope, m: Matcher, p: string)
    ensures Ignores(s.(exclude := Some(m)), p) <==> m(p) || Ignores(s.(exclude := None), p)
  {
  }

  /** An include keeps the file it matches, unless a default or the exclude ignores it. */
  lemma IncludedKept(s: Scope, p: string)
    requires s.included.Some? && s.included.value(p) && !s.defaults(p) && (p == "" || p[|p| - 1] != '/')
    requires s.exclude.Some? ==> !s.exclude.value(p)
    ensures !Ignores(s, p)
  {
  }

  /** And a directory along or below an include root. */
  lemma IncludeRootKept(s: Scope, p: string, r: string)
    requires s.included.Some? && !s.defaults(p) && p != "" && p[|p| - 1] == '/'
    requires r in s.includeRoots && (p <= r || r <= p)
    requires s.exclude.Some? ==> !s.exclude.value(p)
    ensures !Ignores(s, p)
  {
    assert OnIncludeRoot(s, p);
  }

  /** Outside embedded repositories the root's rules decide, but for a directory that leads
      to one. */
  lemma OutsideRootDecides(s: Scope, p: string)
    requires forall e :: e in s.embedded ==> !(e.root <= p)
    requires (s.exclude.Some? ==> !s.exclude.value(p)) && NotIncluded(s, p)
    ensures p != "" && p[|p| - 1] == '/' && (exists e :: e in s.embedded && p <= e.root) ==> !Ignores(s, p)
    ensures !(p != "" && p[|p| - 1] == '/' && (exists e :: e in s.embedded && p <= e.root)) ==>
      (Ignores(s, p) <==> s.rootMatcher(p))
  {
    if e :| e in s.embedded && p <= e.root {
      var i :| 0 <= i < |s.embedded| && s.embedded[i] == e;
      assert p <= s.embedded[i].root;
      assert LeadsToEmbedded(s, p);
    }
    if LeadsToEmbedded(s, p) {
      var i :| 0 <= i < |s.embedded| && p <= s.embedded[i].root;
      assert s.embedded[i] in s.embedded;
    }
  }

  /** Inside an embedded repository the defaults and its own rules decide; its root is kept. */
  lemma InsideEmbeddedDecides(s: Scope, e: Embedded, p: string)
    requires Sorted(s.embedded, LongestFirst) && e in s.embedded && e.root <= p
    requires forall d :: d in s.embedded && d.root <= p && |d.root| >= |e.root| ==> d == e
    requires (s.exclude.Some? ==> !s.exclude.value(p)) && NotIncluded(s, p)
    ensures Ignores(s, p) <==> p != e.root && (s.defaults(p) || e.matcher(p[|e.root|..]))
  {
    InnermostJudges(s.embedded, p);
    assert FirstMatch(s.embedded, p) == Some(e);
    assert p[|e.root|..] == "" <==> p == e.root;
  }

  /** There the root's rules have no say. */
  lemma InsideIgnoresRootRules(s: Scope, m: Matcher, e: Embedded, p: string)
    requires e in s.embedded && e.root <= p
    ensures Ignores(s.(rootMatcher := m), p) == Ignores(s, p)
  {
  }

  // -------------------------------------------------------------- hypotheses

  /** An ignored directory implies that its contents are ignored. */
  ghost predicate Closed(m: Matcher) {
    forall d, p :: IsDir(d) && d <= p && m(d) ==> m(p)
  }

  ghost predicate WellBuilt(s: Scope) {
    && Closed(s.rootMatcher) && Closed(s.defaults)
    && (s.exclude.Some? ==> Closed(s.exclude.value))
    && (forall e :: e in s.embedded ==> Closed(e.matcher) && IsDir(e.root))
    && Sorted(s.embedded, LongestFirst)
    && (s.included.Some? ==> forall p :: s.included.value(p) ==> exists r :: r in s.includeRoots && r <= p)
  }

  // ------------------------------------------------------------ pruning safety

  /** A kept path has no ancestor directory that the walker would prune. */
  ghost predicate PrunesSafely(s: Scope) {
    forall d, p :: Prunes(s, d, p) ==> false
  }

  ghost predicate Prunes(s: Scope, d: string, p: string) {
    IsDir(d) && d <= p && d != p && Ignores(s, d) && !Ignores(s, p)
  }

  /** An embedded root hidden by the rules of another embedded repository around it: one
      that no `exclude` drops, below a directory which the outer root's own rules, or the
      defaults, ignore and no include root saves. A caller can test this on the roots. */
  ghost predicate RootHidden(s: Scope, e: Embedded, d: string) {
    && e in s.embedded && !Excluded(s, e.root)
    && IsDir(d) && d <= e.root && d != e.root && !ForcedIn(s, d)
    && var outer := FirstMatch(s.embedded, d);
       outer.Some? && outer.value.root != d &&
       (s.defaults(d) || outer.value.matcher(d[|outer.value.root|..]))
  }

  /** A kept file is never below a directory that the walker prunes. */
  ghost predicate FilesSafe(s: Scope) {
    forall d, p :: !FileLost(s, d, p)
  }

  ghost predicate FileLost(s: Scope, d: string, p: string) {
    Prunes(s, d, p) && !IsDir(p)
  }

  /** A hidden root matters when a kept file lies below it. */
  ghost predicate HidesFile(s: Scope, e: Embedded, d: string, p: string) {
    RootHidden(s, e, d) && e.root <= p && !IsDir(p) && !Ignores(s, p)
  }

  lemma PrefixesCompare(a: string, b: string, p: string)
    requires a <= p && b <= p
    ensures a <= b || b <= a
  {
    assert a == p[..|a|] && b == p[..|b|];
  }

  lemma PrefixTrans(a: string, b: string, c: string)
    requires a <= b && b <= c
    ensures a <= c
  {
  }

  /** Longest first means that a path is judged by its innermost embedded root. */
  lemma {:induction false} InnermostJudges(embedded: seq<Embedded>, rel: string)
    requires Sorted(embedded, LongestFirst)
    ensures FirstMatch(embedded, rel).Some? ==>
      forall e :: e in embedded && e.root <= rel ==> |e.root| <= |FirstMatch(embedded, rel).value.root|
  {
    if embedded != [] {
      InnermostJudges(embedded[1..], rel);
      forall e | e in embedded && e.root <= rel && embedded[0].root <= rel ensures |e.root| <= |embedded[0].root| {
        var i :| 0 <= i < |embedded| && embedded[i] == e;
        assert i > 0 ==> LongestFirst(embedded[0], embedded[i]);
      }
      assert forall e :: e in embedded <==> e == embedded[0] || e in embedded[1..];
    }
  }

  lemma BuildIsSorted(rootMatcher: Matcher, embedded: seq<Embedded>, exclude: Option<Matcher>,
                      included: Option<Matcher>, includeRoots: seq<string>, defaults: Matcher, rel: string)
    ensures var s := Build(rootMatcher, embedded, exclude, included, includeRoots, defaults);
      && Sorted(s.embedded, LongestFirst)
      && (forall e :: e in s.embedded <==> e in embedded)
      && (FirstMatch(s.embedded, rel).Some? ==>
            forall e :: e in embedded && e.root <= rel ==> |e.root| <= |FirstMatch(s.embedded, rel).value.root|)
  {
    SortSorted(embedded, LongestFirst);
    InnermostJudges(Sort(embedded, LongestFirst), rel);
  }

  /** Between an embedded root and a path in it, the same root judges. */
  lemma {:induction false} SameJudge(embedded: seq<Embedded>, d: string, p: string)
    requires d <= p && FirstMatch(embedded, p).Some? && FirstMatch(embedded, p).value.root <= d
    ensures FirstMatch(embedded, d) == FirstMatch(embedded, p)
  {
    if !(embedded[0].root <= p) {
      assert !(embedded[0].root <= d) by {
        if embedded[0].root <= d {
          PrefixTrans(embedded[0].root, d, p);
        }
      }
      SameJudge(embedded[1..], d, p);
    }
  }

  lemma ForcedInSavesAncestors(s: Scope, d: string, p: string)
    requires WellBuilt(s) && IsDir(d) && d <= p && ForcedIn(s, p)
    ensures ForcedIn(s, d)
  {
    assert !s.defaults(d);
    if IsDir(p) {
      var r :| r in s.includeRoots && (p <= r || r <= p);
      if p <= r {
        PrefixTrans(d, p, r);
      } else {
        PrefixesCompare(d, r, p);
      }
      assert OnIncludeRoot(s, d);
    } else {
      var r :| r in s.includeRoots && r <= p;
      PrefixesCompare(d, r, p);
      assert OnIncludeRoot(s, d);
    }
  }

  lemma RootKept(s: Scope, e: Embedded)
    requires WellBuilt(s) && e in s.embedded && !Excluded(s, e.root)
    ensures !Ignores(s, e.root)
  {
    InnermostJudges(s.embedded, e.root);
    var first := FirstMatch(s.embedded, e.root);
    assert first.Some?;
    assert |first.value.root| == |e.root|;
  }

  /** A kept path keeps its ancestor `d`, unless an embedded root that is hidden at `d`
      lies between them. */
  lemma AncestorKept(s: Scope, d: string, p: string)
    requires WellBuilt(s) && IsDir(d) && d <= p && !Ignores(s, p)
    requires forall e: Embedded :: e.root <= p ==> !RootHidden(s, e, d)
    ensures !Ignores(s, d)
  {
    assert !Excluded(s, d);
    if ForcedIn(s, p) {
      ForcedInSavesAncestors(s, d, p);
    } else if ForcedIn(s, d) {
    } else {
      match FirstMatch(s.embedded, p)
      case Some(e) => AncestorOfEmbedded(s, d, p, e);
      case None => AncestorOutside(s, d, p);
    }
  }

  lemma AncestorOfEmbedded(s: Scope, d: string, p: string, e: Embedded)
    requires WellBuilt(s) && IsDir(d) && d <= p && !Ignores(s, p) && !Excluded(s, d)
    requires !ForcedIn(s, p) && !ForcedIn(s, d) && FirstMatch(s.embedded, p) == Some(e)
    requires !RootHidden(s, e, d)
    ensures !Ignores(s, d)
  {
    PrefixesCompare(d, e.root, p);
    if e.root <= d {
      SameJudge(s.embedded, d, p);
      if e.root != d {
        InnerPrefix(e.root, d, p);
        assert !e.matcher(p[|e.root|..]) && !s.defaults(p);
      }
    } else {
      assert !Excluded(s, e.root);
      var i :| 0 <= i < |s.embedded| && s.embedded[i] == e;
      assert d <= s.embedded[i].root;
      assert LeadsToEmbedded(s, d);
    }
  }

  lemma InnerPrefix(root: string, d: string, p: string)
    requires root <= d <= p && root != d && IsDir(d)
    ensures d[|root|..] <= p[|root|..] && IsDir(d[|root|..]) && p[|root|..] != ""
  {
    assert d == p[..|d|];
  }

  lemma AncestorOutside(s: Scope, d: string, p: string)
    requires WellBuilt(s) && IsDir(d) && d <= p && !Ignores(s, p) && !Excluded(s, d)
    requires !ForcedIn(s, p) && !ForcedIn(s, d) && FirstMatch(s.embedded, p).None?
    ensures !Ignores(s, d)
  {
    if FirstMatch(s.embedded, d).Some? {
      PrefixTrans(FirstMatch(s.embedded, d).value.root, d, p);
    }
    if IsDir(p) && LeadsToEmbedded(s, p) {
      var i :| 0 <= i < |s.embedded| && p <= s.embedded[i].root;
      PrefixTrans(d, p, s.embedded[i].root);
      assert LeadsToEmbedded(s, d);
    }
  }

  lemma HiddenRootPrunes(s: Scope, e: Embedded, d: string)
    requires WellBuilt(s) && RootHidden(s, e, d)
    ensures Prunes(s, d, e.root)
  {
    RootKept(s, e);
  }

  /** Pruning is safe iff no embedded root is hidden by the rules of an outer one. */
  lemma PruningSafeIff(s: Scope)
    requires WellBuilt(s)
    ensures PrunesSafely(s) <==> forall e, d :: !RootHidden(s, e, d)
  {
    if PrunesSafely(s) {
      forall e, d ensures !RootHidden(s, e, d) {
        if RootHidden(s, e, d) {
          HiddenRootPrunes(s, e, d);
        }
      }
    }
    if forall e, d :: !RootHidden(s, e, d) {
      forall d, p ensures !Prunes(s, d, p) {
        if IsDir(d) && d <= p && !Ignores(s, p) {
          AncestorKept(s, d, p);
        }
      }
    }
  }

  /** Pruning loses a kept file iff a kept file lies below an embedded root that the rules
      of an outer one hide. */
  lemma FilesSafeIff(s: Scope)
    requires WellBuilt(s)
    ensures FilesSafe(s) <==> forall e, d, p :: !HidesFile(s, e, d, p)
  {
    if FilesSafe(s) {
      forall e, d, p ensures !HidesFile(s, e, d, p) {
        if HidesFile(s, e, d, p) {
          HiddenRootPrunes(s, e, d);
          PrefixTrans(d, e.root, p);
          assert FileLost(s, d, p);
        }
      }
    }
    if forall e, d, p :: !HidesFile(s, e, d, p) {
      forall d, p ensures !FileLost(s, d, p) {
        if FileLost(s, d, p) {
          forall e: Embedded | e.root <= p ensures !RootHidden(s, e, d) {
            assert !HidesFile(s, e, d, p);
          }
          AncestorKept(s, d, p);
        }
      }
    }
  }

  /** Without nested embedded repositories pruning is always safe. */
  lemma UnnestedIsSafe(s: Scope)
    requires WellBuilt(s)
    requires forall a, b :: a in s.embedded && b in s.embedded && a.root <= b.root ==> a.root == b.root
    ensures PrunesSafely(s) && FilesSafe(s)
  {
    forall e, d ensures !RootHidden(s, e, d) {
      if RootHidden(s, e, d) {
        PrefixTrans(FirstMatch(s.embedded, d).value.root, d, e.root);
      }
    }
    PruningSafeIff(s);
    forall d, p ensures !FileLost(s, d, p) {
      assert !Prunes(s, d, p);
    }
  }

  function Never(p: string): bool { false }
  function UnderB(p: string): bool { "b/" <= p }

  /** Nested repositories `a/` and `a/b/c/`, where the outer one ignores `b/`: a file of the
      inner one is kept, but the walker never gets there. */
  lemma NestedFileIsLost()
    ensures exists s :: WellBuilt(s) && Prunes(s, "a/b/", "a/b/c/") && FileLost(s, "a/b/", "a/b/c/f")
  {
    var inner, outer := Embedded("a/b/c/", Never), Embedded("a/", UnderB);
    var s := Scope(Never, [inner, outer], None, None, [], Never);
    assert Closed(UnderB) by {
      forall d, p | IsDir(d) && d <= p && UnderB(d) ensures UnderB(p) {
        PrefixTrans("b/", d, p);
      }
    }
    NestedJudges(s, inner, outer);
    assert "a/b/"[|"a/"|..] == "b/";
    assert Ignores(s, "a/b/");
    assert "a/b/c/f"[|"a/b/c/"|..] == "f";
    assert Prunes(s, "a/b/", "a/b/c/") && FileLost(s, "a/b/", "a/b/c/f");
  }

  function UnderAN(p: string): bool { "a/n/" <= p }

  /** A hidden root below a directory that the defaults ignore loses no file. */
  lemma HiddenRootMayBeHarmless()
    ensures exists s, e, d :: WellBuilt(s) && RootHidden(s, e, d) && FilesSafe(s)
  {
    var inner, outer := Embedded("a/n/x/", Never), Embedded("a/", Never);
    var s := Scope(Never, [inner, outer], None, None, [], UnderAN);
    assert Closed(UnderAN) by {
      forall d, p | IsDir(d) && d <= p && UnderAN(d) ensures UnderAN(p) {
        PrefixTrans("a/n/", d, p);
      }
    }
    assert [inner, outer][1..] == [outer];
    assert "a/" <= "a/n/" <= "a/n/x/" && !("a/n/x/" <= "a/n/");
    assert FirstMatch([outer], "a/n/") == Some(outer);
    assert RootHidden(s, inner, "a/n/");
    forall d, p ensures !FileLost(s, d, p) {
      if IsDir(d) && d <= p && Ignores(s, d) && !IsDir(p) {
        assert UnderAN(d);
        PrefixTrans("a/n/", d, p);
        AllIgnored(s, p);
      }
    }
  }

  lemma AllIgnored(s: Scope, p: string)
    requires s.defaults == UnderAN && s.exclude.None? && s.included.None? && UnderAN(p) && !IsDir(p)
    requires forall e :: e in s.embedded ==> IsDir(e.root)
    requires exists e :: e in s.embedded && e.root == "a/"
    ensures Ignores(s, p)
  {
    PrefixTrans("a/", "a/n/", p);
    var e := FirstMatch(s.embedded, p).value;
    assert e.root != p;
  }

  lemma NestedJudges(s: Scope, inner: Embedded, outer: Embedded)
    requires s.embedded == [inner, outer] && inner.root == "a/b/c/" && outer.root == "a/"
    ensures FirstMatch(s.embedded, "a/b/") == Some(outer)
    ensures FirstMatch(s.embedded, "a/b/c/f") == Some(inner) == FirstMatch(s.embedded, "a/b/c/")
  {
    assert [inner, outer][1..] == [outer];
    assert "a/" <= "a/b/" && "a/b/c/" <= "a/b/c/f" && !("a/b/c/" <= "a/b/");
    assert FirstMatch([outer], "a/b/") == Some(outer);
  }

  // -------------------------------------------------------------------- walk

  datatype Entry = File(name: string) | Dir(name: string, entries: seq<Entry>)

  /** The pruning walk: an ignored directory is not descended into. */
  function Walk(s: Scope, prefix: string, entries: seq<Entry>): seq<string>
    decreases entries
  {
    if entries == [] then []
    else
      var found := match entries[0]
        case File(name) => if Ignores(s, prefix + name) then [] else [prefix + name]
        case Dir(name, inside) =>
          if Ignores(s, prefix + name + "/") then [] else Walk(s, prefix + name + "/", inside);
      found + Walk(s, prefix, entries[1..])
  }

  function AllFiles(prefix: string, entries: seq<Entry>): seq<string>
    decreases entries
  {
    if entries == [] then []
    else
      var found := match entries[0]
        case File(name) => [prefix + name]
        case Dir(name, inside) => AllFiles(prefix + name + "/", inside);
      found + AllFiles(prefix, entries[1..])
  }

  function Kept(s: Scope, paths: seq<string>): seq<string> {
    if paths == [] then []
    else (if Ignores(s, paths[0]) then [] else [paths[0]]) + Kept(s, paths[1..])
  }

  lemma {:induction false} KeptAppend(s: Scope, a: seq<string>, b: seq<string>)
    ensures Kept(s, a + b) == Kept(s, a) + Kept(s, b)
  {
    if a == [] {
      assert a + b == b;
    } else {
      assert (a + b)[1..] == a[1..] + b;
      KeptAppend(s, a[1..], b);
    }
  }

  lemma {:induction false} NoneKept(s: Scope, paths: seq<string>)
    requires forall p :: p in paths ==> Ignores(s, p)
    ensures Kept(s, paths) == []
  {
    if paths != [] {
      assert paths[0] in paths;
      NoneKept(s, paths[1..]);
    }
  }

  /** Names are not empty and hold no slash. */
  ghost predicate Named(entries: seq<Entry>) {
    forall i :: 0 <= i < |entries| ==>
      && entries[i].name != "" && '/' !in entries[i].name
      && (entries[i].Dir? ==> Named(entries[i].entries))
  }

  lemma {:induction false} FilesBelow(prefix: string, entries: seq<Entry>)
    requires Named(entries)
    ensures forall p :: p in AllFiles(prefix, entries) ==> prefix <= p && prefix != p && !IsDir(p)
    decreases entries
  {
    if entries != [] {
      match entries[0] {
        case File(name) =>
          assert (prefix + name)[|prefix + name| - 1] == name[|name| - 1] && name[|name| - 1] in name;
        case Dir(name, inside) =>
          assert Named(inside);
          FilesBelow(prefix + name + "/", inside);
      }
      FilesBelow(prefix, entries[1..]);
    }
  }

  /** The pruning walk finds exactly the kept files of the tree, in the same order. */
  lemma {:induction false} WalkFindsAllKept(s: Scope, prefix: string, entries: seq<Entry>)
    requires FilesSafe(s) && Named(entries)
    ensures Walk(s, prefix, entries) == Kept(s, AllFiles(prefix, entries))
    decreases entries
  {
    if entries != [] {
      var rest := entries[1..];
      assert Named(rest);
      WalkFindsAllKept(s, prefix, rest);
      match entries[0] {
        case File(name) =>
          KeptAppend(s, [prefix + name], AllFiles(prefix, rest));
          KeptOne(s, prefix + name);
        case Dir(name, inside) =>
          assert Named(inside);
          var d := prefix + name + "/";
          KeptAppend(s, AllFiles(d, inside), AllFiles(prefix, rest));
          if Ignores(s, d) {
            PrunedSubtree(s, d, inside);
          } else {
            WalkFindsAllKept(s, d, inside);
          }
      }
    }
  }

  lemma KeptOne(s: Scope, p: string)
    ensures Kept(s, [p]) == if Ignores(s, p) then [] else [p]
  {
    assert [p][1..] == [];
    assert Kept(s, []) == [];
  }

  lemma PrunedSubtree(s: Scope, d: string, inside: seq<Entry>)
    requires FilesSafe(s) && Named(inside) && IsDir(d) && Ignores(s, d)
    ensures Kept(s, AllFiles(d, inside)) == []
  {
    FilesBelow(d, inside);
    forall p | p in AllFiles(d, inside) ensures Ignores(s, p) {
      assert !FileLost(s, d, p);
    }
    NoneKept(s, AllFiles(d, inside));
  }

  /** What the root's rules leave of a list of paths. */
  function NotMatched(m: Matcher, paths: seq<string>): seq<string> {
    Filter(paths, p => !m(p))
  }

  lemma {:induction false} KeptByRules(s: Scope, paths: seq<string>)
    requires s.embedded == [] && s.exclude.None? && s.included.None?
    ensures Kept(s, paths) == NotMatched(s.rootMatcher, paths)
  {
    if paths != [] {
      OutsideRootDecides(s, paths[0]);
      KeptByRules(s, paths[1..]);
      assert NotMatched(s.rootMatcher, paths) ==
        (if s.rootMatcher(paths[0]) then [] else [paths[0]]) + NotMatched(s.rootMatcher, paths[1..]);
    }
  }

  /** A plain project: the walk lists exactly the files that the root's rules do not match. */
  lemma PlainWalk(s: Scope, prefix: string, entries: seq<Entry>)
    requires s.embedded == [] && s.exclude.None? && s.included.None?
    requires Closed(s.rootMatcher) && Closed(s.defaults) && Named(entries)
    ensures Walk(s, prefix, entries) == NotMatched(s.rootMatcher, AllFiles(prefix, entries))
  {
    UnnestedIsSafe(s);
    WalkFindsAllKept(s, prefix, entries);
    KeptByRules(s, AllFiles(prefix, entries));
  }

  predicate FileIn(e: Entry, prefix: string, p: string) {
    match e
    case File(name) => p == prefix + name
    case Dir(name, inside) => p in AllFiles(prefix + name + "/", inside)
  }

  /** The files of a tree: those of its file entries and those inside its directories. */
  lemma {:induction false} FilesExact(prefix: string, entries: seq<Entry>, p: string)
    ensures p in AllFiles(prefix, entries) <==> exists e :: e in entries && FileIn(e, prefix, p)
  {
    if entries != [] {
      var rest := entries[1..];
      FilesExact(prefix, rest, p);
      assert forall e :: e in entries <==> e == entries[0] || e in rest;
      assert p in AllFiles(prefix, entries) <==> FileIn(entries[0], prefix, p) || p in AllFiles(prefix, rest);
    }
  }
}
