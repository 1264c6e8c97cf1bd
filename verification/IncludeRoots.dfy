/** `includeStaticRoots`: the literal directory prefixes of the `include` patterns. */
module IncludeRoots {
  import opened Collections

  /** `split('/').filter(Boolean)`, with the segment read so far. */
  function Split(p: string, current: string): (r: seq<string>)
    requires '/' !in current
    ensures forall s :: s in r ==> s != "" && '/' !in s
    decreases p
  {
    if p == "" then (if current == "" then [] else [current])
    else if p[0] == '/' then (if current == "" then [] else [current]) + Split(p[1..], "")
    else Split(p[1..], current + [p[0]])
  }

  function StripLeading(p: string): string {
    if p != "" && p[0] == '/' then StripLeading(p[1..]) else p
  }

  function Segments(pattern: string): (r: seq<string>)
    ensures forall s :: s in r ==> s != "" && '/' !in s
  {
    var p := StripLeading(pattern);
    Split(if TrailingSlash(pattern) then p[..|p| - 1] else p, "")
  }

  /** Tested after the leading slashes are gone. */
  predicate TrailingSlash(pattern: string) {
    var p := StripLeading(pattern);
    p != "" && p[|p| - 1] == '/'
  }

  predicate IsGlobChar(c: char) {
    c == '*' || c == '?' || c == '[' || c == ']' || c == '{' || c == '}' || c == '!'
  }

  predicate HasGlob(segment: string) {
    exists i :: 0 <= i < |segment| && IsGlobChar(segment[i])
  }

  function Lead(segments: seq<string>): (r: seq<string>)
    ensures r <= segments
  {
    if segments == [] || HasGlob(segments[0]) then [] else
    var rest := Lead(segments[1..]);
    [segments[0]] + rest
  }

  /** A wholly literal pattern without a trailing slash names a file: walk its directory. */
  function RootSegments(pattern: string): (r: seq<string>)
    ensures forall s :: s in r ==> s != "" && '/' !in s
  {
    var segments := Segments(pattern);
    var lead := Lead(segments);
    assert forall i :: 0 <= i < |lead| ==> lead[i] == segments[i] && lead[i] in segments;
    if |lead| == |segments| && !TrailingSlash(pattern) && lead != [] then lead[..|lead| - 1] else lead
  }

  /** Segments joined and closed with a slash; the empty list is the root of the tree. */
  function DirOf(segments: seq<string>): string {
    if segments == [] then "" else segments[0] + "/" + DirOf(segments[1..])
  }

  /** A file path: its segments joined. */
  function PathOf(segments: seq<string>): string
    requires segments != []
  {
    DirOf(segments[..|segments| - 1]) + segments[|segments| - 1]
  }

  predicate Nested(all: seq<string>, r: string) {
    exists i :: 0 <= i < |all| && all[i] != r && all[i] <= r
  }

  function Collapse(all: seq<string>): seq<string> {
    Filter(all, r => !Nested(all, r))
  }

  /** The set being filled, before the collapse; `[""]` once a pattern has no literal lead. */
  function Collected(patterns: seq<string>, n: nat): seq<string>
    requires n <= |patterns|
  {
    if n == 0 then []
    else
      var before := Collected(patterns, n - 1);
      var root := RootOf(patterns[n - 1]);
      if root in before then before else before + [root]
  }

  function RootOf(pattern: string): string {
    DirOf(RootSegments(pattern))
  }

  predicate WholeTree(patterns: seq<string>) {
    exists i :: 0 <= i < |patterns| && RootSegments(patterns[i]) == []
  }

  function StaticRoots(patterns: seq<string>): seq<string> {
    if WholeTree(patterns) then [""] else Collapse(Collected(patterns, |patterns|))
  }

  /** The segments of one pattern up to the first glob, less the file name. */
  method LeadOf(pattern: string) returns (lead: seq<string>)
    ensures lead == RootSegments(pattern)
  {
    var segments := Segments(pattern);
    lead := LiteralLead(segments);
    if |lead| == |segments| && !TrailingSlash(pattern) && |lead| > 0 {
      lead := lead[..|lead| - 1];
    }
  }

  /** The loop that stops at the first glob. */
  method LiteralLead(segments: seq<string>) returns (lead: seq<string>)
    ensures lead == Lead(segments)
  {
    lead := [];
    for i := 0 to |segments|
      invariant lead == segments[..i]
      invariant forall k :: 0 <= k < i ==> !HasGlob(segments[k])
    {
      if HasGlob(segments[i]) {
        LeadStops(segments, i);
        return;
      }
      lead := lead + [segments[i]];
    }
    LeadStops(segments, |segments|);
  }

  lemma {:induction false} LeadStops(segments: seq<string>, n: nat)
    requires n <= |segments| && forall k :: 0 <= k < n ==> !HasGlob(segments[k])
    requires n < |segments| ==> HasGlob(segments[n])
    ensures Lead(segments) == segments[..n]
  {
    if n > 0 {
      LeadStops(segments[1..], n - 1);
    }
  }

  method IncludeStaticRoots(patterns: seq<string>) returns (r: seq<string>)
    ensures r == StaticRoots(patterns)
  {
    var roots: seq<string> := [];
    for i := 0 to |patterns|
      invariant roots == Collected(patterns, i)
      invariant NoneEmpty(patterns, i)
    {
      var lead := LeadOf(patterns[i]);
      if |lead| == 0 {
        EmptyForcesWholeTree(patterns, i);
        return [""];
      }
      roots := AddRoot(patterns, i, roots, lead);
    }
    return Collapse(roots);
  }

  ghost predicate NoneEmpty(patterns: seq<string>, n: nat)
    requires n <= |patterns|
  {
    forall k :: 0 <= k < n ==> RootSegments(patterns[k]) != []
  }

  lemma EmptyForcesWholeTree(patterns: seq<string>, i: nat)
    requires i < |patterns| && RootSegments(patterns[i]) == []
    ensures WholeTree(patterns)
  {
  }

  /** `roots.add(...)` on the set kept as a list in insertion order. */
  method AddRoot(patterns: seq<string>, i: nat, roots: seq<string>, lead: seq<string>) returns (r: seq<string>)
    requires i < |patterns| && roots == Collected(patterns, i) && lead == RootSegments(patterns[i])
    ensures r == Collected(patterns, i + 1)
  {
    var root := DirOf(lead);
    r := if root in roots then roots else roots + [root];
  }

  // ---------------------------------------------------------------- patterns

  /** Whether a glob segment matches a name; any relation. */
  type Glob = (string, string) -> bool

  predicate SegmentMatches(glob: Glob, segment: string, name: string) {
    if HasGlob(segment) then glob(segment, name) else segment == name
  }

  /** A pattern matches a path or a directory above it; `**` stands for any number of
      segments, at the end for at least one. A trailing slash asks for a directory. */
  predicate Matches(glob: Glob, pattern: seq<string>, dirOnly: bool, path: seq<string>)
    decreases |pattern| + |path|
  {
    if pattern == [] then dirOnly ==> path != []
    else if pattern[0] == "**" && |pattern| > 1 then
      Matches(glob, pattern[1..], dirOnly, path) || (path != [] && Matches(glob, pattern, dirOnly, path[1..]))
    else
      path != [] && (pattern[0] == "**" || SegmentMatches(glob, pattern[0], path[0])) &&
      Matches(glob, pattern[1..], dirOnly, path[1..])
  }

  /** A slash at the front or in the middle ties a pattern to the root of the tree. */
  predicate Anchored(pattern: string) {
    (pattern != "" && pattern[0] == '/') || |Segments(pattern)| > 1
  }

  ghost predicate Includes(glob: Glob, pattern: string, path: seq<string>) {
    && Segments(pattern) != []
    && exists k :: 0 <= k <= |path| && (Anchored(pattern) ==> k == 0) &&
         MatchesFrom(glob, pattern, path, k)
  }

  predicate MatchesFrom(glob: Glob, pattern: string, path: seq<string>, k: nat)
    requires k <= |path|
  {
    Matches(glob, Segments(pattern), TrailingSlash(pattern), path[k..])
  }

  ghost predicate IsPath(path: seq<string>) {
    path != [] && forall s :: s in path ==> s != "" && '/' !in s
  }

  /** Some returned root is the path's directory or one above it. */
  ghost predicate Covered(roots: seq<string>, path: string) {
    exists r :: r in roots && r <= path
  }

  // ----------------------------------------------------------- minimality

  ghost predicate IsRootOf(patterns: seq<string>, n: nat, i: nat, r: string) {
    i < n <= |patterns| && r == RootOf(patterns[i])
  }

  ghost predicate HasRoot(patterns: seq<string>, n: nat, r: string) {
    exists i: nat :: IsRootOf(patterns, n, i, r)
  }

  lemma CollectedExact(patterns: seq<string>, n: nat)
    requires n <= |patterns|
    ensures Distinct(Collected(patterns, n))
    ensures forall r :: r in Collected(patterns, n) <==> HasRoot(patterns, n, r)
  {
    CollectedDistinct(patterns, n);
    forall r ensures r in Collected(patterns, n) <==> HasRoot(patterns, n, r) {
      CollectedRoot(patterns, n, r);
    }
  }

  lemma {:induction false} CollectedDistinct(patterns: seq<string>, n: nat)
    requires n <= |patterns|
    ensures Distinct(Collected(patterns, n))
  {
    if n > 0 {
      CollectedDistinct(patterns, n - 1);
    }
  }

  lemma {:induction false} CollectedRoot(patterns: seq<string>, n: nat, r: string)
    requires n <= |patterns|
    ensures r in Collected(patterns, n) <==> HasRoot(patterns, n, r)
  {
    if n > 0 {
      CollectedRoot(patterns, n - 1, r);
      CollectedStep(patterns, n, r);
    }
  }

  lemma CollectedStep(patterns: seq<string>, n: nat, r: string)
    requires 0 < n <= |patterns|
    ensures HasRoot(patterns, n, r) <==> HasRoot(patterns, n - 1, r) || r == RootOf(patterns[n - 1])
  {
    if HasRoot(patterns, n - 1, r) {
      var i: nat :| IsRootOf(patterns, n - 1, i, r);
      assert IsRootOf(patterns, n, i, r);
    }
    if HasRoot(patterns, n, r) {
      var i: nat :| IsRootOf(patterns, n, i, r);
      assert i < n - 1 ==> IsRootOf(patterns, n - 1, i, r);
    }
    assert r == RootOf(patterns[n - 1]) ==> IsRootOf(patterns, n, n - 1, r);
  }

  /** Collapsing keeps, for every root, one that is a prefix of it. */
  lemma {:induction false} CollapseCovers(all: seq<string>, r: string)
    requires r in all
    ensures exists k :: k in Collapse(all) && k <= r
    decreases |r|
  {
    if Nested(all, r) {
      var i :| 0 <= i < |all| && all[i] != r && all[i] <= r;
      CollapseCovers(all, all[i]);
      var k :| k in Collapse(all) && k <= all[i];
      assert k <= r;
    } else {
      assert r in Collapse(all) && r <= r;
    }
  }

  /** No returned root is a prefix of another, so no subtree is walked twice. */
  lemma RootsAreMinimal(patterns: seq<string>)
    ensures Distinct(StaticRoots(patterns))
    ensures forall a, b :: a in StaticRoots(patterns) && b in StaticRoots(patterns) && a != b ==> !(a <= b)
  {
    var all := Collected(patterns, |patterns|);
    CollectedExact(patterns, |patterns|);
    FilterDistinct(all, r => !Nested(all, r));
    forall a, b | a in Collapse(all) && b in Collapse(all) && a != b ensures !(a <= b) {
      var i :| 0 <= i < |all| && all[i] == a;
      assert !Nested(all, b);
    }
  }

  // -------------------------------------------------------------- coverage

  lemma {:induction false} DirOfPrefix(a: seq<string>, b: seq<string>)
    requires a <= b
    ensures DirOf(a) <= DirOf(b)
  {
    if a != [] {
      DirOfPrefix(a[1..], b[1..]);
    }
  }

  lemma RootAbovePath(root: seq<string>, path: seq<string>)
    requires path != [] && root <= path && root != path
    ensures DirOf(root) <= PathOf(path)
  {
    DirOfPrefix(root, path[..|path| - 1]);
  }

  lemma {:induction false} MatchNeedsName(glob: Glob, pattern: seq<string>, dirOnly: bool, path: seq<string>)
    requires Matches(glob, pattern, dirOnly, path) && (pattern != [] || dirOnly)
    ensures path != []
    decreases |pattern|
  {
    if |pattern| > 1 && pattern[0] == "**" && path == [] {
      MatchNeedsName(glob, pattern[1..], dirOnly, path);
    }
  }

  /** A match starts with the literal lead, and goes on where the pattern does. */
  lemma {:induction false} LeadIsPrefix(glob: Glob, pattern: seq<string>, dirOnly: bool, path: seq<string>)
    requires Matches(glob, pattern, dirOnly, path)
    ensures Lead(pattern) <= path
    ensures |Lead(pattern)| < |pattern| || dirOnly ==> |Lead(pattern)| < |path|
    decreases |pattern|
  {
    if pattern == [] || HasGlob(pattern[0]) {
      if pattern != [] || dirOnly {
        MatchNeedsName(glob, pattern, dirOnly, path);
      }
    } else {
      assert IsGlobChar("**"[0]);
      assert HasGlob("**");
      LeadIsPrefix(glob, pattern[1..], dirOnly, path[1..]);
      assert path == [path[0]] + path[1..];
    }
  }

  /** Every path that an anchored pattern matches lies under a returned root. */
  lemma AnchoredCovered(glob: Glob, patterns: seq<string>, i: nat, path: seq<string>)
    requires i < |patterns| && path != []
    requires Segments(patterns[i]) != [] && MatchesFrom(glob, patterns[i], path, 0)
    ensures Covered(StaticRoots(patterns), PathOf(path))
  {
    var pattern := patterns[i];
    assert path[0..] == path;
    LeadIsPrefix(glob, Segments(pattern), TrailingSlash(pattern), path);
    RootAbovePath(RootSegments(pattern), path);
    RootCovered(patterns, i, PathOf(path));
  }

  lemma RootCovered(patterns: seq<string>, i: nat, path: string)
    requires i < |patterns| && RootOf(patterns[i]) <= path
    ensures Covered(StaticRoots(patterns), path)
  {
    if WholeTree(patterns) {
      assert "" in StaticRoots(patterns) && "" <= path;
    } else {
      CollectedExact(patterns, |patterns|);
      var r := RootOf(patterns[i]);
      assert IsRootOf(patterns, |patterns|, i, r);
      CollapseCovers(Collected(patterns, |patterns|), r);
      var k :| k in Collapse(Collected(patterns, |patterns|)) && k <= r;
      assert k <= path;
    }
  }

  /** `Tools/` and the like: one literal segment with a trailing slash, which matches a
      directory of that name at any depth. */
  predicate BareDirectory(pattern: string) {
    && !Anchored(pattern) && TrailingSlash(pattern)
    && |Segments(pattern)| == 1 && !HasGlob(Segments(pattern)[0])
  }

  ghost predicate CoversAll(glob: Glob, patterns: seq<string>) {
    forall i, path :: 0 <= i < |patterns| && IsPath(path) && Includes(glob, patterns[i], path) ==>
      Covered(StaticRoots(patterns), PathOf(path))
  }

  /** The roots cover everything the patterns match iff some pattern forces a walk of the
      whole tree or none is a bare directory name. */
  lemma CoverageIff(glob: Glob, patterns: seq<string>)
    ensures CoversAll(glob, patterns) <==>
      WholeTree(patterns) || forall i :: 0 <= i < |patterns| ==> !BareDirectory(patterns[i])
  {
    if WholeTree(patterns) {
      forall path: seq<string> | IsPath(path) ensures Covered(StaticRoots(patterns), PathOf(path)) {
        assert "" in StaticRoots(patterns) && "" <= PathOf(path);
      }
    } else if i :| 0 <= i < |patterns| && BareDirectory(patterns[i]) {
      BareDirectoryUncovered(glob, patterns, i);
    } else {
      forall i, path | 0 <= i < |patterns| && IsPath(path) && Includes(glob, patterns[i], path)
        ensures Covered(StaticRoots(patterns), PathOf(path))
      {
        if Anchored(patterns[i]) {
          AnchoredCovered(glob, patterns, i, path);
        } else {
          UnanchoredHasNoLead(patterns[i]);
        }
      }
    }
  }

  lemma UnanchoredHasNoLead(pattern: string)
    requires !Anchored(pattern) && Segments(pattern) != [] && !BareDirectory(pattern)
    ensures RootSegments(pattern) == []
  {
  }

  /** A directory name longer than every root, so that no root can lead to it. */
  function LongName(n: nat): (r: string)
    ensures |r| == n + 1 && '/' !in r && r != ""
  {
    if n == 0 then "x" else LongName(n - 1) + "x"
  }

  ghost function MaxLen(roots: seq<string>): (n: nat)
    ensures forall r :: r in roots ==> |r| <= n
  {
    if roots == [] then 0
    else
      assert forall r :: r in roots <==> r == roots[0] || r in roots[1..];
      if |roots[0]| > MaxLen(roots[1..]) then |roots[0]| else MaxLen(roots[1..])
  }

  lemma BareDirectoryUncovered(glob: Glob, patterns: seq<string>, i: nat)
    requires !WholeTree(patterns) && i < |patterns| && BareDirectory(patterns[i])
    ensures !CoversAll(glob, patterns)
  {
    var roots := StaticRoots(patterns);
    var top, name := LongName(MaxLen(roots)), Segments(patterns[i])[0];
    var path := [top, name, "f"];
    BareDirectoryMatches(glob, patterns[i], top);
    assert IsPath(path);
    TopLeads(top, name);
    NoneCovers(patterns, top, PathOf(path));
  }

  lemma TopLeads(top: string, name: string)
    ensures top <= PathOf([top, name, "f"])
  {
    var dir := [top, name, "f"][..2];
    assert dir == [top, name];
    assert DirOf(dir) == top + "/" + DirOf(dir[1..]);
  }

  lemma NoneCovers(patterns: seq<string>, top: string, path: string)
    requires !WholeTree(patterns) && '/' !in top && top <= path
    requires forall r :: r in StaticRoots(patterns) ==> |r| <= |top|
    ensures !Covered(StaticRoots(patterns), path)
  {
    forall r | r in StaticRoots(patterns) ensures !(r <= path) {
      RootHasSlash(patterns, r);
      NoSlashPrefix(r, top, path);
    }
  }

  lemma BareDirectoryMatches(glob: Glob, pattern: string, top: string)
    requires BareDirectory(pattern)
    ensures Includes(glob, pattern, [top, Segments(pattern)[0], "f"])
  {
    var name := Segments(pattern)[0];
    assert Segments(pattern) == [name];
    assert [top, name, "f"][1..] == [name, "f"];
    assert [name, "f"][1..] == ["f"] && [name][1..] == [];
    assert name != "**" by {
      assert IsGlobChar("**"[0]);
    }
    assert Matches(glob, [name], true, [name, "f"]);
    assert MatchesFrom(glob, pattern, [top, name, "f"], 1);
  }

  lemma RootHasSlash(patterns: seq<string>, r: string)
    requires !WholeTree(patterns) && r in StaticRoots(patterns)
    ensures exists j :: 0 <= j < |r| && r[j] == '/'
  {
    CollectedExact(patterns, |patterns|);
    var i: nat :| IsRootOf(patterns, |patterns|, i, r);
    DirHasSlash(RootSegments(patterns[i]));
  }

  lemma DirHasSlash(segments: seq<string>)
    requires segments != []
    ensures exists j :: 0 <= j < |DirOf(segments)| && DirOf(segments)[j] == '/'
  {
    assert DirOf(segments)[|segments[0]|] == '/';
  }

  lemma NoSlashPrefix(r: string, top: string, path: string)
    requires |r| <= |top| && '/' !in top && top <= path
    requires exists j :: 0 <= j < |r| && r[j] == '/'
    ensures !(r <= path)
  {
    var j :| 0 <= j < |r| && r[j] == '/';
    assert path[j] == top[j];
  }

  // ----------------------------------- what the segments and the root are

  lemma GlobCharExact(c: char)
    ensures IsGlobChar(c) <==> c in ['*', '?', '[', ']', '{', '}', '!']
  {
  }

  /** The root is the pattern up to its first glob segment; a literal pattern without a
      trailing slash loses its last segment, the file name. */
  lemma RootExact(pattern: string, n: nat)
    requires n <= |Segments(pattern)| && forall k :: 0 <= k < n ==> !HasGlob(Segments(pattern)[k])
    requires n < |Segments(pattern)| ==> HasGlob(Segments(pattern)[n])
    ensures RootSegments(pattern) ==
      if n == |Segments(pattern)| && n > 0 && !TrailingSlash(pattern) then Segments(pattern)[..n - 1]
      else Segments(pattern)[..n]
  {
    LeadStops(Segments(pattern), n);
  }

  lemma {:induction false} SplitWord(word: string, rest: string, current: string)
    requires '/' !in word && '/' !in current
    ensures Split(word + rest, current) == Split(rest, current + word)
    decreases |word|
  {
    if word == "" {
      assert word + rest == rest && current + word == current;
    } else {
      assert word[0] in word && (word + rest)[0] == word[0] && (word + rest)[1..] == word[1..] + rest;
      SplitWord(word[1..], rest, current + [word[0]]);
      assert current + [word[0]] + word[1..] == current + word;
    }
  }

  lemma SplitSlash(word: string, rest: string)
    requires word != "" && '/' !in word
    ensures Split(word + "/" + rest, "") == [word] + Split(rest, "")
  {
    assert word + "/" + rest == word + ("/" + rest);
    SplitWord(word, "/" + rest, "");
    assert "" + word == word && ("/" + rest)[1..] == rest;
  }

  predicate AreNames(segments: seq<string>) {
    forall s :: s in segments ==> s != "" && '/' !in s
  }

  /** Splitting a path gives back its segments. */
  lemma {:induction false} SplitDir(segments: seq<string>, rest: string)
    requires AreNames(segments)
    ensures Split(DirOf(segments) + rest, "") == segments + Split(rest, "")
  {
    if segments == [] {
      assert DirOf(segments) + rest == rest;
    } else {
      var word, later := segments[0], DirOf(segments[1..]);
      assert word in segments && forall s :: s in segments[1..] ==> s in segments;
      SplitDir(segments[1..], rest);
      SplitSlash(word, later + rest);
      assert DirOf(segments) + rest == word + "/" + (later + rest);
      assert segments == [word] + segments[1..];
    }
  }

  lemma SplitPath(init: seq<string>, last: string)
    requires AreNames(init) && last != "" && '/' !in last
    ensures Split(DirOf(init) + last, "") == init + [last]
  {
    SplitDir(init, last);
    SplitWord(last, "", "");
    assert last + "" == last && "" + last == last;
  }

  /** A pattern, with or without a slash in front, that ends in a name or in a slash. */
  lemma FilePattern(init: seq<string>, last: string)
    requires AreNames(init) && last != "" && '/' !in last
    ensures var p := DirOf(init) + last;
      && Segments(p) == init + [last] && !TrailingSlash(p)
      && Segments("/" + p) == init + [last] && !TrailingSlash("/" + p)
  {
    var p := DirOf(init) + last;
    assert last[0] in last && last[|last| - 1] in last;
    NoLeadingSlash(init, last);
    assert ("/" + p)[1..] == p;
    assert p[|p| - 1] == last[|last| - 1];
    SplitPath(init, last);
  }

  lemma DirPattern(init: seq<string>, last: string)
    requires AreNames(init) && last != "" && '/' !in last
    ensures var p := DirOf(init) + last + "/";
      && Segments(p) == init + [last] && TrailingSlash(p)
      && Segments("/" + p) == init + [last] && TrailingSlash("/" + p)
  {
    var p := DirOf(init) + last + "/";
    assert last[0] in last;
    NoLeadingSlash(init, last + "/");
    assert p == DirOf(init) + (last + "/");
    assert ("/" + p)[1..] == p;
    assert p[..|p| - 1] == DirOf(init) + last;
    SplitPath(init, last);
  }

  lemma NoLeadingSlash(init: seq<string>, rest: string)
    requires forall s :: s in init ==> s != "" && '/' !in s
    requires rest != "" && rest[0] != '/'
    ensures StripLeading(DirOf(init) + rest) == DirOf(init) + rest
  {
    if init != [] {
      assert init[0] in init && init[0][0] in init[0];
      assert (DirOf(init) + rest)[0] == init[0][0];
    }
  }

  /** Every returned root is the root of some pattern, in the order of the patterns. */
  lemma RootsFromPatterns(patterns: seq<string>, r: string)
    requires r in StaticRoots(patterns)
    ensures r == "" || exists i: nat :: IsRootOf(patterns, |patterns|, i, r)
  {
    CollectedExact(patterns, |patterns|);
  }
}
