/** The pre-pass of the mapper extractor: blank out XML comments in place, keep every
    offset, and find line numbers by binary search. */
module XmlComments {
  import opened Collections

  const CDATA_OPEN := "<![CDATA["
  const CDATA_CLOSE := "]]>"
  const COMMENT_OPEN := "<!--"
  const COMMENT_CLOSE := "-->"

  /** `startsWith(part, i)`. */
  predicate At(s: string, i: nat, part: string)
    decreases |s| - i
  {
    part == "" || (i < |s| && s[i] == part[0] && At(s, i + 1, part[1..]))
  }

  lemma {:induction false} AtExact(s: string, i: nat, part: string)
    ensures At(s, i, part) <==> part == "" || (i + |part| <= |s| && s[i..i + |part|] == part)
    decreases |part|
  {
    if part != "" {
      AtExact(s, i + 1, part[1..]);
      assert part == [part[0]] + part[1..];
      if i + |part| <= |s| {
        assert s[i..i + |part|] == [s[i]] + s[i + 1..i + |part|];
      }
    }
  }

  /** Only the characters from `i` on matter. */
  lemma {:induction false} AtSame(s: string, t: string, i: nat, part: string)
    requires |s| == |t| && forall j :: i <= j < i + |part| && j < |s| ==> s[j] == t[j]
    ensures At(s, i, part) == At(t, i, part)
    decreases |part|
  {
    if part != "" {
      AtSame(s, t, i + 1, part[1..]);
    }
  }

  /** `indexOf(part, from)`, or the length when there is none. */
  function IndexOf(s: string, part: string, from: nat): (r: nat)
    ensures from <= |s| ==> from <= r <= |s|
    ensures r < |s| ==> r + |part| <= |s|
    decreases |s| - from
  {
    if from >= |s| then from
    else if At(s, from, part) then
      AtExact(s, from, part);
      from
    else IndexOf(s, part, from + 1)
  }

  lemma {:induction false} IndexOfFirst(s: string, part: string, from: nat)
    requires from <= |s|
    ensures var r := IndexOf(s, part, from);
      (r < |s| ==> At(s, r, part)) && forall j :: from <= j < r ==> !At(s, j, part)
    decreases |s| - from
  {
    if from < |s| && !At(s, from, part) {
      IndexOfFirst(s, part, from + 1);
    }
  }

  /** Where a section that opens at `i` ends. */
  function StopAfter(s: string, close: string, from: nat): (r: nat)
    requires from <= |s| && |close| == 3
    ensures from <= r <= |s|
  {
    var end := IndexOf(s, close, from);
    if end < |s| then end + 3 else |s|
  }

  datatype Region = Text | CData | Comment

  /** The section that the scan sees at `i`: its end, and what it is. */
  function Section(s: string, i: nat): (r: (nat, Region))
    requires i < |s|
    ensures i < r.0 <= |s|
    ensures r.1.Text? ==> r.0 == i + 1
  {
    if At(s, i, CDATA_OPEN) then
      OpenerFits(s, i, CDATA_OPEN);
      (StopAfter(s, CDATA_CLOSE, i + 9), CData)
    else if At(s, i, COMMENT_OPEN) then
      OpenerFits(s, i, COMMENT_OPEN);
      (StopAfter(s, COMMENT_CLOSE, i + 4), Comment)
    else (i + 1, Text)
  }

  /** What the scan from `i` on takes the character at `j` for. */
  function RegionAt(s: string, i: nat, j: nat): Region
    requires i <= j < |s|
    decreases |s| - i
  {
    var (stop, region) := Section(s, i);
    if j < stop then region else RegionAt(s, stop, j)
  }

  function Blanked(c: char, region: Region): char {
    if region.Comment? && c != '\n' then ' ' else c
  }

  /** The result: comment characters other than newlines become spaces. */
  function Strip(s: string): (r: string)
    ensures |r| == |s|
  {
    seq(|s|, j requires 0 <= j < |s| => Blanked(s[j], RegionAt(s, 0, j)))
  }

  // ---------------------------------------------------------------- the method

  method StripXmlComments(source: string) returns (stripped: string)
    ensures stripped == Strip(source)
  {
    var out := CharsOf(source);
    var i := 0;
    while i < |source|
      invariant 0 <= i <= |source| == out.Length
      invariant forall k :: 0 <= k < i ==> out[k] == Blanked(source[k], RegionAt(source, 0, k))
      invariant forall k :: i <= k < |source| ==> out[k] == source[k]
      invariant forall k :: i <= k < |source| ==> RegionAt(source, 0, k) == RegionAt(source, i, k)
    {
      i := BlankSection(source, out, i);
    }
    stripped := out[..];
  }

  /** `source.split('')`. */
  method CharsOf(source: string) returns (out: array<char>)
    ensures fresh(out) && out[..] == source
  {
    out := new char[|source|];
    for k := 0 to |source|
      invariant out[..k] == source[..k]
    {
      out[k] := source[k];
    }
  }

  /** One turn of the scan: skip a CDATA section, blank a comment, or step over a character. */
  method BlankSection(source: string, out: array<char>, i: nat) returns (stop: nat)
    requires i < |source| == out.Length
    requires forall k :: i <= k < |source| ==> out[k] == source[k]
    modifies out
    ensures i < stop <= |source|
    ensures forall k :: 0 <= k < i || stop <= k < |source| ==> out[k] == old(out[k])
    ensures forall k :: i <= k < stop ==> out[k] == Blanked(source[k], RegionAt(source, i, k))
    ensures forall k :: stop <= k < |source| ==> RegionAt(source, i, k) == RegionAt(source, stop, k)
  {
    if At(source, i, CDATA_OPEN) {
      OpenerFits(source, i, CDATA_OPEN);
      return StopAfter(source, CDATA_CLOSE, i + 9);
    }
    if At(source, i, COMMENT_OPEN) {
      OpenerFits(source, i, COMMENT_OPEN);
      stop := StopAfter(source, COMMENT_CLOSE, i + 4);
      for j := i to stop
        invariant forall k :: i <= k < j ==> out[k] == Blanked(source[k], Comment)
        invariant forall k :: 0 <= k < |source| && !(i <= k < j) ==> out[k] == old(out[k])
      {
        if source[j] != '\n' {
          out[j] := ' ';
        }
      }
      return;
    }
    return i + 1;
  }

  // ---------------------------------------------------------------- properties

  /** Newlines stay where they are, and so does everything outside comments. */
  lemma StripKeeps(s: string, j: nat)
    requires j < |s|
    ensures Strip(s)[j] == '\n' <==> s[j] == '\n'
    ensures !RegionAt(s, 0, j).Comment? ==> Strip(s)[j] == s[j]
    ensures RegionAt(s, 0, j).Comment? && s[j] != '\n' ==> Strip(s)[j] == ' '
  {
  }

  function Uncommented(r: Region): Region {
    if r.Comment? then Text else r
  }

  /** `out` reads from `i` on like `s` with its comments blanked. */
  ghost predicate BlankedFrom(s: string, out: string, i: nat)
    requires i <= |s|
  {
    |out| == |s| && forall j :: i <= j < |s| ==> out[j] == Blanked(s[j], RegionAt(s, i, j))
  }

  lemma BlankedLater(s: string, out: string, i: nat)
    requires i < |s| && BlankedFrom(s, out, i)
    ensures BlankedFrom(s, out, Section(s, i).0)
  {
    forall j | Section(s, i).0 <= j < |s| ensures RegionAt(s, i, j) == RegionAt(s, Section(s, i).0, j) {
    }
  }

  /** Blanks are scanned one by one. */
  lemma {:induction false} BlankIsText(out: string, i: nat, stop: nat, j: nat)
    requires i <= stop <= |out| && i <= j < |out|
    requires forall k :: i <= k < stop ==> out[k] == ' ' || out[k] == '\n'
    ensures RegionAt(out, i, j) == if j < stop then Text else RegionAt(out, stop, j)
    decreases stop - i
  {
    if i < stop {
      NoOpener(out, i);
      if j > i {
        BlankIsText(out, i + 1, stop, j);
      }
    }
  }

  lemma NoOpener(out: string, i: nat)
    requires i < |out| && out[i] != '<'
    ensures Section(out, i) == (i + 1, Text)
  {
    assert CDATA_OPEN[0] == '<' && COMMENT_OPEN[0] == '<';
  }

  /** An opener in the blanked text was an opener before: blanks are no part of one. */
  lemma {:induction false} OpenerWasThere(s: string, out: string, i: nat, part: string)
    requires |out| == |s| && At(out, i, part)
    requires forall j :: i <= j < |s| ==> out[j] == s[j] || out[j] == ' '
    requires ' ' !in part
    ensures At(s, i, part)
    decreases |part|
  {
    if part != "" {
      OpenerWasThere(s, out, i + 1, part[1..]);
    }
  }

  lemma {:induction false} SameStop(s: string, out: string, close: string, from: nat)
    requires from <= |s| == |out| && |close| == 3
    requires forall j :: from <= j < StopAfter(s, close, from) ==> out[j] == s[j]
    ensures StopAfter(out, close, from) == StopAfter(s, close, from)
    decreases |s| - from
  {
    if from < |s| {
      StopIsFar(s, close, from);
      AtSame(s, out, from, close);
      if !At(s, from, close) {
        SameStop(s, out, close, from + 1);
      }
    }
  }

  lemma StopIsFar(s: string, close: string, from: nat)
    requires from <= |s| && |close| == 3
    ensures StopAfter(s, close, from) >= from + 3 || StopAfter(s, close, from) == |s|
  {
  }

  /** Where the section at `i` is no comment, the blanked text has the same section. */
  lemma SameSection(s: string, out: string, i: nat)
    requires i < |s| && BlankedFrom(s, out, i) && !Section(s, i).1.Comment?
    ensures Section(out, i) == Section(s, i)
  {
    var (stop, region) := Section(s, i);
    forall j | i <= j < stop ensures out[j] == s[j] {
      assert RegionAt(s, i, j) == region;
    }
    if region.CData? {
      AtExact(s, i, CDATA_OPEN);
      AtSame(s, out, i, CDATA_OPEN);
      SameStop(s, out, CDATA_CLOSE, i + 9);
    } else {
      if At(out, i, CDATA_OPEN) {
        OpenerWasThere(s, out, i, CDATA_OPEN);
      }
      if At(out, i, COMMENT_OPEN) {
        OpenerWasThere(s, out, i, COMMENT_OPEN);
      }
    }
  }

  /** Scanning the result sees the same CDATA sections, and text where comments were. */
  lemma {:induction false} ScanOfResult(s: string, out: string, i: nat, j: nat)
    requires i <= j < |s| && BlankedFrom(s, out, i)
    ensures RegionAt(out, i, j) == Uncommented(RegionAt(s, i, j))
    decreases |s| - i
  {
    var (stop, region) := Section(s, i);
    if region.Comment? {
      forall k | i <= k < stop ensures out[k] == ' ' || out[k] == '\n' {
        assert RegionAt(s, i, k) == region;
      }
      BlankIsText(out, i, stop, j);
    } else {
      SameSection(s, out, i);
    }
    if stop <= j {
      BlankedLater(s, out, i);
      ScanOfResult(s, out, stop, j);
    }
  }

  /** No comment is left, so no commented-out statement can be matched, and CDATA sections
      are where they were. */
  lemma NoCommentLeft(s: string, j: nat)
    requires j < |s|
    ensures RegionAt(Strip(s), 0, j) == Uncommented(RegionAt(s, 0, j))
    ensures RegionAt(Strip(s), 0, j) != Comment
  {
    ScanOfResult(s, Strip(s), 0, j);
  }

  /** The pre-pass is idempotent. */
  lemma StripTwice(s: string)
    ensures Strip(Strip(s)) == Strip(s)
  {
    forall j | 0 <= j < |s| ensures Strip(Strip(s))[j] == Strip(s)[j] {
      NoCommentLeft(s, j);
    }
  }

  /** A comment opener in the result lies inside a CDATA section. */
  lemma OpenerOnlyInCData(s: string, i: nat)
    requires i < |s| && At(Strip(s), i, COMMENT_OPEN)
    ensures RegionAt(Strip(s), 0, i) == CData
  {
    NoCommentLeft(s, i);
    OpenerIsSection(Strip(s), 0, i);
  }

  lemma {:induction false} OpenerIsSection(s: string, i: nat, j: nat)
    requires i <= j < |s| && At(s, j, COMMENT_OPEN)
    ensures RegionAt(s, i, j) != Text
    decreases |s| - i
  {
    if Section(s, i).0 <= j {
      OpenerIsSection(s, Section(s, i).0, j);
    }
  }

  // ------------------------------------- the blanked text, part by part

  function Blanks(s: string): string {
    seq(|s|, j requires 0 <= j < |s| => if s[j] == '\n' then '\n' else ' ')
  }

  /** `part` starts at `i`. */
  predicate StartsAt(s: string, i: nat, part: string) {
    i + |part| <= |s| && s[i..i + |part|] == part
  }

  /** The text up to and with its first `close`. */
  ghost predicate FirstClose(inside: string, close: string) {
    forall j :: 0 <= j < |inside| ==> !StartsAt(inside + close, j, close)
  }

  lemma AtShift(s: string, k: nat, i: nat, part: string)
    requires k <= |s| && part != ""
    ensures At(s, k + i, part) == At(s[k..], i, part)
  {
    AtExact(s, k + i, part);
    AtExact(s[k..], i, part);
    if k + i + |part| <= |s| {
      assert s[k + i..k + i + |part|] == s[k..][i..i + |part|];
    }
  }

  lemma {:induction false} IndexShift(s: string, k: nat, from: nat, part: string)
    requires k <= |s| && k + from <= |s| && part != ""
    ensures IndexOf(s, part, k + from) == k + IndexOf(s[k..], part, from)
    decreases |s| - from
  {
    if k + from < |s| {
      AtShift(s, k, from, part);
      if !At(s, k + from, part) {
        IndexShift(s, k, from + 1, part);
      }
    }
  }

  lemma SectionShift(s: string, k: nat, i: nat)
    requires k + i < |s|
    ensures Section(s, k + i) == (k + Section(s[k..], i).0, Section(s[k..], i).1)
  {
    var t := s[k..];
    AtShift(s, k, i, CDATA_OPEN);
    AtShift(s, k, i, COMMENT_OPEN);
    if At(s, k + i, CDATA_OPEN) {
      OpenerFits(s, k + i, CDATA_OPEN);
      StopShift(s, k, i + 9, CDATA_CLOSE);
      assert Section(t, i) == (StopAfter(t, CDATA_CLOSE, i + 9), CData);
    } else if At(s, k + i, COMMENT_OPEN) {
      OpenerFits(s, k + i, COMMENT_OPEN);
      StopShift(s, k, i + 4, COMMENT_CLOSE);
      assert Section(t, i) == (StopAfter(t, COMMENT_CLOSE, i + 4), Comment);
    } else {
      assert Section(t, i) == (i + 1, Text);
    }
  }

  lemma OpenerFits(s: string, i: nat, part: string)
    requires At(s, i, part) && part != ""
    ensures i + |part| <= |s|
  {
    AtExact(s, i, part);
  }

  lemma StopShift(s: string, k: nat, from: nat, close: string)
    requires k <= |s| && k + from <= |s| && |close| == 3
    ensures StopAfter(s, close, k + from) == k + StopAfter(s[k..], close, from)
  {
    IndexShift(s, k, from, close);
  }

  lemma {:induction false} RegionShift(s: string, t: string, k: nat, i: nat, j: nat)
    requires i <= j && k + j < |s| && t == s[k..]
    ensures RegionAt(s, k + i, k + j) == RegionAt(t, i, j)
    decreases |s| - i
  {
    SectionShift(s, k, i);
    RegionStep(s, k + i, k + j);
    RegionStep(t, i, j);
    var stop := Section(t, i).0;
    if stop <= j {
      RegionShift(s, t, k, stop, j);
    }
  }

  lemma RegionStep(s: string, i: nat, j: nat)
    requires i <= j < |s|
    ensures var stop := Section(s, i).0;
      RegionAt(s, i, j) == if j < stop then Section(s, i).1 else RegionAt(s, stop, j)
  {
  }

  lemma StripSection(s: string)
    requires s != ""
    ensures var (stop, region) := Section(s, 0);
      Strip(s) == (if region.Comment? then Blanks(s[..stop]) else s[..stop]) + Strip(s[stop..])
  {
    var (stop, region) := Section(s, 0);
    assert Strip(s)[..stop] == if region.Comment? then Blanks(s[..stop]) else s[..stop];
    RestAlone(s, stop);
    assert Strip(s) == Strip(s)[..stop] + Strip(s)[stop..];
  }

  lemma RestAlone(s: string, stop: nat)
    requires s != "" && stop == Section(s, 0).0
    ensures Strip(s)[stop..] == Strip(s[stop..])
  {
    forall j | stop <= j < |s| ensures Strip(s)[j] == Strip(s[stop..])[j - stop] {
      CharAlone(s, stop, j);
    }
  }

  lemma CharAlone(s: string, stop: nat, j: nat)
    requires s != "" && stop == Section(s, 0).0 && stop <= j < |s|
    ensures Strip(s)[j] == Strip(s[stop..])[j - stop]
  {
    RegionShift(s, s[stop..], stop, 0, j - stop);
    RegionStep(s, 0, j);
    SameChar(s, j, s[stop..], j - stop);
  }

  lemma SameChar(s: string, j: nat, t: string, i: nat)
    requires j < |s| && i < |t| && s[j] == t[i] && RegionAt(s, 0, j) == RegionAt(t, 0, i)
    ensures Strip(s)[j] == Strip(t)[i]
  {
  }

  /** Where no section opens, one character is kept and the rest is on its own. */
  lemma StripText(s: string)
    requires s != "" && !StartsAt(s, 0, "<!--") && !StartsAt(s, 0, "<![CDATA[")
    ensures Strip(s) == [s[0]] + Strip(s[1..])
  {
    AtExact(s, 0, CDATA_OPEN);
    AtExact(s, 0, COMMENT_OPEN);
    StripSection(s);
    assert s[..1] == [s[0]];
  }

  lemma {:induction false} FirstFound(s: string, close: string, from: nat, r: nat)
    requires from <= r <= |s| && close != ""
    requires r < |s| ==> StartsAt(s, r, close)
    requires forall j :: from <= j < r ==> !StartsAt(s, j, close)
    ensures IndexOf(s, close, from) == r
    decreases r - from
  {
    if from < |s| {
      AtExact(s, from, close);
      assert from < r ==> !StartsAt(s, from, close);
      if from < r {
        FirstFound(s, close, from + 1, r);
      }
    }
  }

  lemma CloseFound(open: string, inside: string, close: string, c: string)
    requires FirstClose(inside, close) && close != ""
    ensures IndexOf(open + inside + close + c, close, |open|) == |open| + |inside|
  {
    var s, r := open + inside + close + c, |open| + |inside|;
    assert s[r..r + |close|] == close;
    forall j | |open| <= j < r ensures !StartsAt(s, j, close) {
      assert !StartsAt(inside + close, j - |open|, close);
      assert s[|open|..r + |close|] == inside + close;
      if j + |close| <= r + |close| {
        assert s[j..j + |close|] == (inside + close)[j - |open|..j - |open| + |close|];
      }
    }
    FirstFound(s, close, |open|, r);
  }

  /** A comment is blanked, newlines apart, and the scan goes on right after it. */
  lemma StripComment(inside: string, c: string)
    requires FirstClose(inside, "-->")
    ensures Strip("<!--" + inside + "-->" + c) == Blanks("<!--" + inside + "-->") + Strip(c)
  {
    var s := "<!--" + inside + "-->" + c;
    AtExact(s, 0, CDATA_OPEN);
    AtExact(s, 0, COMMENT_OPEN);
    assert s[2] == '-';
    assert s[0..4] == "<!--";
    CloseFound("<!--", inside, "-->", c);
    StripSection(s);
    var stop := 4 + |inside| + 3;
    assert s[..stop] == "<!--" + inside + "-->" && s[stop..] == c;
  }

  /** A CDATA section stays as it is, and the scan goes on right after it. */
  lemma StripCData(inside: string, c: string)
    requires FirstClose(inside, "]]>")
    ensures Strip("<![CDATA[" + inside + "]]>" + c) == "<![CDATA[" + inside + "]]>" + Strip(c)
  {
    var s := "<![CDATA[" + inside + "]]>" + c;
    AtExact(s, 0, CDATA_OPEN);
    assert s[0..9] == "<![CDATA[";
    CloseFound("<![CDATA[", inside, "]]>", c);
    StripSection(s);
    var stop := 9 + |inside| + 3;
    assert s[..stop] == "<![CDATA[" + inside + "]]>" && s[stop..] == c;
  }

  /** An opener that is never closed reaches to the end. */
  lemma StripOpen(inside: string)
    ensures (forall j :: 0 <= j ==> !StartsAt(inside, j, "-->")) ==> Strip("<!--" + inside) == Blanks("<!--" + inside)
    ensures (forall j :: 0 <= j ==> !StartsAt(inside, j, "]]>")) ==> Strip("<![CDATA[" + inside) == "<![CDATA[" + inside
  {
    if forall j :: 0 <= j ==> !StartsAt(inside, j, "-->") {
      OpenComment(inside);
    }
    if forall j :: 0 <= j ==> !StartsAt(inside, j, "]]>") {
      OpenCData(inside);
    }
  }

  lemma NeverFound(open: string, inside: string, close: string)
    requires close != "" && forall j :: 0 <= j ==> !StartsAt(inside, j, close)
    ensures IndexOf(open + inside, close, |open|) == |open + inside|
  {
    var s := open + inside;
    forall j | |open| <= j < |s| ensures !StartsAt(s, j, close) {
      assert !StartsAt(inside, j - |open|, close);
      if j + |close| <= |s| {
        assert s[j..j + |close|] == inside[j - |open|..j - |open| + |close|];
      }
    }
    FirstFound(s, close, |open|, |s|);
  }

  lemma OpenComment(inside: string)
    requires forall j :: 0 <= j ==> !StartsAt(inside, j, "-->")
    ensures Strip("<!--" + inside) == Blanks("<!--" + inside)
  {
    var s := "<!--" + inside;
    AtExact(s, 0, CDATA_OPEN);
    AtExact(s, 0, COMMENT_OPEN);
    assert s[2] == '-';
    assert s[0..4] == "<!--";
    NeverFound("<!--", inside, "-->");
    StripSection(s);
    assert s[..|s|] == s && s[|s|..] == "";
  }

  lemma OpenCData(inside: string)
    requires forall j :: 0 <= j ==> !StartsAt(inside, j, "]]>")
    ensures Strip("<![CDATA[" + inside) == "<![CDATA[" + inside
  {
    var s := "<![CDATA[" + inside;
    AtExact(s, 0, CDATA_OPEN);
    assert s[0..9] == "<![CDATA[";
    NeverFound("<![CDATA[", inside, "]]>");
    StripSection(s);
    assert s[..|s|] == s && s[|s|..] == "";
  }

  lemma NoStart(s: string, part: string)
    requires s != "" && part != "" && s[0] != part[0]
    ensures !StartsAt(s, 0, part)
  {
    if |part| <= |s| {
      assert s[0..|part|][0] == s[0];
    }
  }

  /** Text before the first angle bracket is kept. */
  lemma {:induction false} StripAfter(a: string, rest: string)
    requires '<' !in a
    ensures Strip(a + rest) == a + Strip(rest)
  {
    if a == "" {
      assert a + rest == rest;
    } else {
      StripAfter(a[1..], rest);
      var s := a + rest;
      assert s[0] == a[0] && a[0] in a && s[1..] == a[1..] + rest;
      NoStart(s, "<!--");
      NoStart(s, "<![CDATA[");
      StripText(s);
      assert a == [a[0]] + a[1..];
    }
  }

  /** The three parts around a comment, and around a CDATA section. */
  lemma StripParts(a: string, inside: string, c: string)
    requires '<' !in a
    ensures FirstClose(inside, "-->") ==>
      Strip(a + ("<!--" + inside + "-->" + c)) == a + Blanks("<!--" + inside + "-->") + Strip(c)
    ensures FirstClose(inside, "]]>") ==>
      Strip(a + ("<![CDATA[" + inside + "]]>" + c)) == a + ("<![CDATA[" + inside + "]]>") + Strip(c)
  {
    StripAfter(a, "<!--" + inside + "-->" + c);
    StripAfter(a, "<![CDATA[" + inside + "]]>" + c);
    if FirstClose(inside, "-->") {
      StripComment(inside, c);
    }
    if FirstClose(inside, "]]>") {
      StripCData(inside, c);
    }
  }

  // -------------------------------------------------------------- line numbers

  /** Newlines among the first `n` characters. */
  function Newlines(s: string, n: nat): nat
    requires n <= |s|
  {
    if n == 0 then 0 else Newlines(s, n - 1) + (if s[n - 1] == '\n' then 1 else 0)
  }

  function NewlinePlaces(s: string, n: nat): set<int>
    requires n <= |s|
  {
    set j | 0 <= j < n && s[j] == '\n'
  }

  lemma {:induction false} NewlinesExact(s: string, n: nat)
    requires n <= |s|
    ensures Newlines(s, n) == |set j | 0 <= j < n && s[j] == '\n'|
  {
    if n == 0 {
      assert NewlinePlaces(s, 0) == {};
    } else {
      NewlinesExact(s, n - 1);
      assert NewlinePlaces(s, n) == NewlinePlaces(s, n - 1) + (if s[n - 1] == '\n' then {n - 1 as int} else {});
    }
    assert NewlinePlaces(s, n) == set j | 0 <= j < n && s[j] == '\n';
  }

  function LineStarts(s: string, n: nat): (r: seq<nat>)
    requires n <= |s|
    ensures |r| == 1 + Newlines(s, n)
  {
    if n == 0 then [0] else LineStarts(s, n - 1) + (if s[n - 1] == '\n' then [n] else [])
  }

  method ComputeLineStarts(s: string) returns (lineStarts: seq<nat>)
    ensures lineStarts == LineStarts(s, |s|)
  {
    lineStarts := [0];
    for i := 0 to |s|
      invariant lineStarts == LineStarts(s, i)
    {
      if s[i] == '\n' {
        lineStarts := lineStarts + [i + 1];
      }
    }
  }

  lemma {:induction false} NewlinesGrow(s: string, m: nat, n: nat)
    requires m <= n <= |s|
    ensures Newlines(s, m) <= Newlines(s, n)
  {
    if m < n {
      NewlinesGrow(s, m, n - 1);
    }
  }

  /** The `k`-th line starts at or before an offset iff `k` newlines precede the offset. */
  lemma {:induction false} StartsExact(s: string, n: nat, k: nat, offset: nat)
    requires offset <= n <= |s| && k < |LineStarts(s, n)|
    ensures LineStarts(s, n)[k] <= offset <==> k <= Newlines(s, offset)
    decreases n
  {
    if n > 0 {
      if k < |LineStarts(s, n - 1)| {
        assert LineStarts(s, n)[k] == LineStarts(s, n - 1)[k];
        if offset < n {
          StartsExact(s, n - 1, k, offset);
        } else {
          StartsExact(s, n - 1, k, n - 1);
          StartBound(s, n - 1, k);
        }
      } else {
        assert LineStarts(s, n)[k] == n;
        if offset < n {
          NewlinesGrow(s, offset, n - 1);
        }
      }
    }
  }

  lemma {:induction false} StartBound(s: string, n: nat, k: nat)
    requires n <= |s| && k < |LineStarts(s, n)|
    ensures LineStarts(s, n)[k] <= n
  {
    if n > 0 && k < |LineStarts(s, n - 1)| {
      StartBound(s, n - 1, k);
    }
  }

  /** The binary search counts the newlines before the offset. */
  method GetLineNumber(s: string, lineStarts: seq<nat>, offset: nat) returns (line: nat)
    requires offset <= |s| && lineStarts == LineStarts(s, |s|)
    ensures line == 1 + Newlines(s, offset)
  {
    var lo, hi := 0, |lineStarts| - 1;
    NewlinesGrow(s, offset, |s|);
    while lo < hi
      invariant 0 <= lo <= Newlines(s, offset) <= hi < |lineStarts|
    {
      var mid := (lo + hi + 1) / 2;
      StartsExact(s, |s|, mid, offset);
      if lineStarts[mid] <= offset {
        lo := mid;
      } else {
        hi := mid - 1;
      }
    }
    line := lo + 1;
  }

  /** Lines found in the blanked text are the lines of the original. */
  lemma LinesOfOriginal(s: string, offset: nat)
    requires offset <= |s|
    ensures Newlines(Strip(s), offset) == Newlines(s, offset)
  {
    var stripped := Strip(s);
    forall i | 0 <= i < offset ensures stripped[i] == '\n' <==> s[i] == '\n' {
      StripKeeps(s, i);
    }
    SameNewlines(stripped, s, offset);
  }

  lemma {:induction false} SameNewlines(a: string, b: string, n: nat)
    requires n <= |a| && n <= |b|
    requires forall i :: 0 <= i < n ==> (a[i] == '\n' <==> b[i] == '\n')
    ensures Newlines(a, n) == Newlines(b, n)
  {
    if n > 0 {
      SameNewlines(a, b, n - 1);
    }
  }

  method LineInOriginal(source: string, offset: nat) returns (line: nat)
    requires offset <= |source|
    ensures line == 1 + Newlines(source, offset)
  {
    var stripped := StripXmlComments(source);
    var lineStarts := ComputeLineStarts(stripped);
    line := GetLineNumber(stripped, lineStarts, offset);
    LinesOfOriginal(source, offset);
  }
}
