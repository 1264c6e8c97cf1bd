/** The form-file extractor: one pass over the lines with a stack of open objects. */
module DfmParser {
  import opened Collections

  /** Which of the patterns a line matches, and how its trimmed end reads. */
  datatype Line = Line(
    opensParen: bool, opensAngle: bool, endsParen: bool, endsAngle: bool,
    declares: Option<(string, string)>, event: Option<string>, isEnd: bool)

  /** Node ids are injective in what they are hashed from; a component's is its name and line. */
  datatype Id = FileNode | Component(name: string, line: nat)

  datatype Node = Node(id: Id, name: string, typeName: string)
  datatype Edge = Edge(source: Id, target: Id)
  datatype Reference = Reference(from: Id, name: string, line: nat)

  datatype Close = Paren | Angle

  datatype State = State(
    stack: seq<Id>, inMultiLine: bool, close: Close,
    nodes: seq<Node>, edges: seq<Edge>, references: seq<Reference>)

  const START := State([FileNode], false, Paren, [], [], [])

  predicate Closes(l: Line, c: Close) {
    if c.Paren? then l.endsParen else l.endsAngle
  }

  function Top(s: State): Id
    requires s.stack != []
  {
    s.stack[|s.stack| - 1]
  }

  function StepLine(s: State, l: Line, lineNum: nat): (r: State)
    requires s.stack != []
    ensures r.stack != []
  {
    if s.inMultiLine then (if Closes(l, s.close) then s.(inMultiLine := false) else s)
    else if l.opensParen then s.(inMultiLine := true, close := Paren)
    else if l.opensAngle then s.(inMultiLine := true, close := Angle)
    else match l.declares
      case Some((name, typeName)) =>
        var id := Component(name, lineNum);
        s.(nodes := s.nodes + [Node(id, name, typeName)],
           edges := s.edges + [Edge(Top(s), id)],
           stack := s.stack + [id])
      case None =>
        match l.event
        case Some(handler) => s.(references := s.references + [Reference(Top(s), handler, lineNum)])
        case None => if l.isEnd && |s.stack| > 1 then s.(stack := s.stack[..|s.stack| - 1]) else s
  }

  /** The lines from `lineNum` on. */
  function Run(s: State, lines: seq<Line>, lineNum: nat): (r: State)
    requires s.stack != []
    ensures r.stack != []
    decreases |lines|
  {
    if lines == [] then s else Run(StepLine(s, lines[0], lineNum), lines[1..], lineNum + 1)
  }

  class DfmExtractor {
    var nodes: seq<Node>
    var edges: seq<Edge>
    var references: seq<Reference>

    constructor ()
      ensures nodes == [] && edges == [] && references == []
    {
      nodes, edges, references := [], [], [];
    }

    method ParseComponents(lines: seq<Line>)
      requires nodes == [] && edges == [] && references == []
      modifies this
      ensures var r := Run(START, lines, 1);
        nodes == r.nodes && edges == r.edges && references == r.references
    {
      var stack := [FileNode];
      var inMultiLine, close := false, Paren;
      for i := 0 to |lines|
        invariant stack != []
        invariant Run(State(stack, inMultiLine, close, nodes, edges, references), lines[i..], i + 1) ==
                  Run(START, lines, 1)
      {
        var line, lineNum := lines[i], i + 1;
        assert lines[i..][0] == line && lines[i..][1..] == lines[i + 1..];
        if inMultiLine {
          if Closes(line, close) {
            inMultiLine := false;
          }
          continue;
        }
        if line.opensParen {
          inMultiLine, close := true, Paren;
          continue;
        }
        if line.opensAngle {
          inMultiLine, close := true, Angle;
          continue;
        }
        if line.declares.Some? {
          var (name, typeName) := line.declares.value;
          var nodeId := Component(name, lineNum);
          nodes := nodes + [Node(nodeId, name, typeName)];
          edges := edges + [Edge(stack[|stack| - 1], nodeId)];
          stack := stack + [nodeId];
          continue;
        }
        if line.event.Some? {
          references := references + [Reference(stack[|stack| - 1], line.event.value, lineNum)];
          continue;
        }
        if line.isEnd {
          if |stack| > 1 {
            stack := stack[..|stack| - 1];
          }
        }
      }
      assert lines[|lines|..] == [];
    }
  }

  // ------------------------------------------------- any lines give a tree

  /** Every component has exactly one parent edge, from the file node or from a component
      of an earlier line; what is on the stack is the file node and known components. */
  ghost predicate IsTree(s: State, lineNum: nat) {
    && s.stack != [] && s.stack[0] == FileNode
    && |s.edges| == |s.nodes|
    && (forall i :: 0 <= i < |s.nodes| ==>
          s.nodes[i].id.Component? && s.nodes[i].id.line < lineNum && s.edges[i].target == s.nodes[i].id)
    && (forall i, j :: 0 <= i < j < |s.nodes| ==> s.nodes[i].id.line < s.nodes[j].id.line)
    && (forall i :: 0 <= i < |s.edges| ==> Known(s, s.edges[i].source, i))
    && (forall k :: 0 <= k < |s.stack| ==> Known(s, s.stack[k], |s.nodes|))
    && (forall r :: r in s.references ==> Known(s, r.from, |s.nodes|))
  }

  /** The file node or one of the first `n` components. */
  ghost predicate Known(s: State, id: Id, n: nat) {
    id == FileNode || exists j :: 0 <= j < n && j < |s.nodes| && s.nodes[j].id == id
  }

  lemma KnownLater(s: State, s': State, id: Id, n: nat, m: nat)
    requires Known(s, id, n) && n <= m && s.nodes <= s'.nodes
    ensures Known(s', id, m)
  {
    if id != FileNode {
      var j :| 0 <= j < n && j < |s.nodes| && s.nodes[j].id == id;
      assert s'.nodes[j] == s.nodes[j];
    }
  }

  lemma StepTree(s: State, l: Line, lineNum: nat)
    requires IsTree(s, lineNum)
    ensures IsTree(StepLine(s, l, lineNum), lineNum + 1)
  {
    var s' := StepLine(s, l, lineNum);
    forall id, n | Known(s, id, n) ensures Known(s', id, n) {
      KnownLater(s, s', id, n, n);
    }
    forall id | Known(s, id, |s.nodes|) ensures Known(s', id, |s'.nodes|) {
      KnownLater(s, s', id, |s.nodes|, |s'.nodes|);
    }
    if !s.inMultiLine && !l.opensParen && !l.opensAngle && l.declares.Some? {
      assert s'.nodes[|s.nodes|].id == Component(l.declares.value.0, lineNum);
      assert Known(s, Top(s), |s.nodes|);
    }
  }

  lemma {:induction false} RunTree(s: State, lines: seq<Line>, lineNum: nat)
    requires IsTree(s, lineNum)
    ensures IsTree(Run(s, lines, lineNum), lineNum + |lines|)
    decreases |lines|
  {
    if lines != [] {
      StepTree(s, lines[0], lineNum);
      RunTree(StepLine(s, lines[0], lineNum), lines[1..], lineNum + 1);
    }
  }

  /** `n` parent steps lead from `id` to the file node. */
  ghost predicate ClimbsToFile(edges: seq<Edge>, id: Id, n: nat)
    decreases n
  {
    if n == 0 then id == FileNode
    else exists e :: e in edges && e.target == id && ClimbsToFile(edges, e.source, n - 1)
  }

  ghost predicate ReachesFile(edges: seq<Edge>, id: Id) {
    exists n :: ClimbsToFile(edges, id, n)
  }

  lemma {:induction false} ComponentClimbs(s: State, lineNum: nat, i: nat)
    requires IsTree(s, lineNum) && i < |s.nodes|
    ensures exists n :: 1 <= n <= i + 1 && ClimbsToFile(s.edges, s.nodes[i].id, n)
    decreases i
  {
    var e := s.edges[i];
    assert e in s.edges;
    assert Known(s, e.source, i);
    if e.source == FileNode {
      assert ClimbsToFile(s.edges, e.source, 0);
      assert ClimbsToFile(s.edges, s.nodes[i].id, 1);
    } else {
      var j :| 0 <= j < i && j < |s.nodes| && s.nodes[j].id == e.source;
      ComponentClimbs(s, lineNum, j);
      var n :| 1 <= n <= j + 1 && ClimbsToFile(s.edges, s.nodes[j].id, n);
      assert ClimbsToFile(s.edges, s.nodes[i].id, n + 1);
    }
  }

  /** On arbitrary lines: each component is the target of exactly one `contains` edge and
      climbs to the file node. */
  lemma AnyLinesGiveTree(lines: seq<Line>)
    ensures var r := Run(START, lines, 1);
      && (forall i :: 0 <= i < |r.nodes| ==> ReachesFile(r.edges, r.nodes[i].id))
      && (forall a, b :: 0 <= a < b < |r.edges| ==> r.edges[a].target != r.edges[b].target)
      && |r.edges| == |r.nodes|
      && (forall i :: 0 <= i < |r.nodes| ==> r.edges[i].target == r.nodes[i].id)
  {
    RunTree(START, lines, 1);
    var r := Run(START, lines, 1);
    forall i | 0 <= i < |r.nodes| ensures ReachesFile(r.edges, r.nodes[i].id) {
      ComponentClimbs(r, 1 + |lines|, i);
      var n: nat :| 1 <= n <= i + 1 && ClimbsToFile(r.edges, r.nodes[i].id, n);
    }
  }

  // ---------------------------------------------- one line, whatever it matches

  /** Inside a multi-line property a line only ends it, if it ends with its bracket; a line
      that opens one is nothing else; a declaration is no event and no end. */
  lemma LineExact(s: State, l: Line, n: nat)
    requires s.stack != []
    ensures var r := StepLine(s, l, n);
      && (s.inMultiLine ==> r == s.(inMultiLine := !(if s.close == Paren then l.endsParen else l.endsAngle)))
      && (!s.inMultiLine && (l.opensParen || l.opensAngle) ==>
            r == s.(inMultiLine := true, close := if l.opensParen then Paren else Angle))
      && (!s.inMultiLine && !l.opensParen && !l.opensAngle ==>
            && r.inMultiLine == s.inMultiLine && r.close == s.close
            && (l.declares.Some? ==> r.references == s.references && |r.stack| == |s.stack| + 1
                                     && |r.nodes| == |s.nodes| + 1 && |r.edges| == |s.edges| + 1)
            && (l.declares.None? ==> r.nodes == s.nodes && r.edges == s.edges)
            && (l.declares.None? && l.event.Some? ==>
                  r.stack == s.stack && r.references == s.references + [Reference(Top(s), l.event.value, n)])
            && (l.declares.None? && l.event.None? ==>
                  r.references == s.references &&
                  r.stack == if l.isEnd && |s.stack| > 1 then s.stack[..|s.stack| - 1] else s.stack))
  {
  }

  // ------------------------------------------------------------- round trip

  /** A form: components with their properties. A multi-line property carries the lines
      after its first, a one-line property its line. */
  datatype Item =
    | Object(name: string, typeName: string, items: seq<Item>)
    | Event(handler: string)
    | MultiLine(close: Close, body: seq<Line>, last: Line)
    | Property(line: Line)

  const PLAIN := Line(false, false, false, false, None, None, false)

  /** A line of no interest to the parser, whatever it ends with. */
  predicate Quiet(l: Line) {
    !l.opensParen && !l.opensAngle && l.declares.None? && l.event.None? && !l.isEnd
  }

  /** Multi-line properties are not nested: their last line is the first that ends with the
      closing bracket. */
  ghost predicate WellFormed(items: seq<Item>)
    decreases items
  {
    forall i :: 0 <= i < |items| ==>
      match items[i]
      case Object(_, _, inner) => WellFormed(inner)
      case MultiLine(close, body, last) => Closes(last, close) && forall l :: l in body ==> !Closes(l, close)
      case Property(line) => Quiet(line)
      case Event(_) => true
  }

  function Print(items: seq<Item>): seq<Line>
    decreases items
  {
    if items == [] then []
    else PrintOne(items[0]) + Print(items[1..])
  }

  function PrintOne(item: Item): seq<Line>
    decreases item
  {
    match item
    case Object(name, typeName, inner) =>
      [PLAIN.(declares := Some((name, typeName)))] + Print(inner) + [PLAIN.(isEnd := true)]
    case Event(handler) => [PLAIN.(event := Some(handler))]
    case MultiLine(close, body, last) =>
      [if close.Paren? then PLAIN.(opensParen := true) else PLAIN.(opensAngle := true)] + body + [last]
    case Property(line) => [line]
  }

  /** What a form means: its components, parent-child edges and event owners, in order. */
  datatype Meaning = Meaning(nodes: seq<Node>, edges: seq<Edge>, references: seq<Reference>)

  function Plus(a: Meaning, b: Meaning): Meaning {
    Meaning(a.nodes + b.nodes, a.edges + b.edges, a.references + b.references)
  }

  function Means(items: seq<Item>, parent: Id, lineNum: nat): Meaning
    decreases items
  {
    if items == [] then Meaning([], [], [])
    else Plus(MeansOne(items[0], parent, lineNum), Means(items[1..], parent, lineNum + |PrintOne(items[0])|))
  }

  function MeansOne(item: Item, parent: Id, lineNum: nat): Meaning
    decreases item
  {
    match item
    case Object(name, typeName, inner) =>
      var id := Component(name, lineNum);
      Plus(Meaning([Node(id, name, typeName)], [Edge(parent, id)], []), Means(inner, id, lineNum + 1))
    case Event(handler) => Meaning([], [], [Reference(parent, handler, lineNum)])
    case MultiLine(_, _, _) => Meaning([], [], [])
    case Property(_) => Meaning([], [], [])
  }

  function With(s: State, m: Meaning): State {
    s.(nodes := s.nodes + m.nodes, edges := s.edges + m.edges, references := s.references + m.references)
  }

  lemma {:induction false} RunAppend(s: State, a: seq<Line>, b: seq<Line>, lineNum: nat)
    requires s.stack != []
    ensures Run(s, a + b, lineNum) == Run(Run(s, a, lineNum), b, lineNum + |a|)
    decreases |a|
  {
    if a == [] {
      assert a + b == b;
    } else {
      assert (a + b)[1..] == a[1..] + b;
      RunAppend(StepLine(s, a[0], lineNum), a[1..], b, lineNum + 1);
    }
  }

  lemma RunOne(s: State, l: Line, lineNum: nat)
    requires s.stack != []
    ensures Run(s, [l], lineNum) == StepLine(s, l, lineNum)
  {
    assert [l][1..] == [];
  }

  lemma {:induction false} SkipBody(s: State, body: seq<Line>, lineNum: nat)
    requires s.stack != [] && s.inMultiLine
    requires forall l :: l in body ==> !Closes(l, s.close)
    ensures Run(s, body, lineNum) == s
    decreases |body|
  {
    if body != [] {
      SkipBody(s, body[1..], lineNum + 1);
    }
  }

  /** The parser's state apart from what it has collected; `close` is left over. */
  ghost predicate SameUpToClose(a: State, b: State) {
    a == b.(close := a.close)
  }

  lemma Compose(s: State, r1: State, r2: State, m1: Meaning, m2: Meaning)
    requires SameUpToClose(r1, With(s, m1)) && SameUpToClose(r2, With(r1, m2))
    ensures SameUpToClose(r2, With(s, Plus(m1, m2)))
  {
    assert s.nodes + (m1.nodes + m2.nodes) == s.nodes + m1.nodes + m2.nodes;
    assert s.edges + (m1.edges + m2.edges) == s.edges + m1.edges + m2.edges;
    assert s.references + (m1.references + m2.references) == s.references + m1.references + m2.references;
  }

  /** Parsing the printed form gives back exactly its tree and its event owners. */
  lemma {:induction false} ParsePrint(s: State, items: seq<Item>, lineNum: nat)
    requires s.stack != [] && !s.inMultiLine && WellFormed(items)
    ensures SameUpToClose(Run(s, Print(items), lineNum), With(s, Means(items, Top(s), lineNum)))
    decreases items
  {
    if items == [] {
      assert With(s, Meaning([], [], [])) == s;
    } else {
      assert WellFormed(items[1..]) && WellFormedOne(items[0]);
      ParsePrintOne(s, items[0], lineNum);
      ParsePrint(Run(s, PrintOne(items[0]), lineNum), items[1..], lineNum + |PrintOne(items[0])|);
      ComposeRuns(s, PrintOne(items[0]), Print(items[1..]), MeansOne(items[0], Top(s), lineNum),
                  Means(items[1..], Top(s), lineNum + |PrintOne(items[0])|), lineNum);
    }
  }

  lemma ComposeRuns(s: State, a: seq<Line>, b: seq<Line>, m1: Meaning, m2: Meaning, lineNum: nat)
    requires s.stack != [] && SameUpToClose(Run(s, a, lineNum), With(s, m1))
    requires var r1 := Run(s, a, lineNum); SameUpToClose(Run(r1, b, lineNum + |a|), With(r1, m2))
    ensures SameUpToClose(Run(s, a + b, lineNum), With(s, Plus(m1, m2)))
  {
    RunAppend(s, a, b, lineNum);
    Compose(s, Run(s, a, lineNum), Run(s, a + b, lineNum), m1, m2);
  }

  ghost predicate WellFormedOne(item: Item) {
    match item
    case Object(_, _, inner) => WellFormed(inner)
    case MultiLine(close, body, last) => Closes(last, close) && forall l :: l in body ==> !Closes(l, close)
    case Property(line) => Quiet(line)
    case Event(_) => true
  }

  lemma {:induction false} ParsePrintOne(s: State, item: Item, lineNum: nat)
    requires s.stack != [] && !s.inMultiLine && WellFormedOne(item)
    ensures SameUpToClose(Run(s, PrintOne(item), lineNum), With(s, MeansOne(item, Top(s), lineNum)))
    decreases item
  {
    match item
    case Object(name, typeName, inner) =>
      ParsePrint(Enter(s, name, typeName, lineNum), inner, lineNum + 1);
      ObjectParses(s, name, typeName, inner, lineNum);
    case Event(handler) => RunOne(s, PLAIN.(event := Some(handler)), lineNum);
    case MultiLine(close, body, last) => MultiLineParses(s, close, body, last, lineNum);
    case Property(line) => RunOne(s, line, lineNum);
  }

  function Enter(s: State, name: string, typeName: string, lineNum: nat): State
    requires s.stack != []
  {
    StepLine(s, PLAIN.(declares := Some((name, typeName))), lineNum)
  }

  lemma ObjectParses(s: State, name: string, typeName: string, inner: seq<Item>, lineNum: nat)
    requires s.stack != [] && !s.inMultiLine
    requires var entered := Enter(s, name, typeName, lineNum);
      SameUpToClose(Run(entered, Print(inner), lineNum + 1),
                    With(entered, Means(inner, Component(name, lineNum), lineNum + 1)))
    ensures SameUpToClose(Run(s, PrintOne(Object(name, typeName, inner)), lineNum),
                          With(s, MeansOne(Object(name, typeName, inner), Top(s), lineNum)))
  {
    var entered, id := Enter(s, name, typeName, lineNum), Component(name, lineNum);
    var filled := Run(entered, Print(inner), lineNum + 1);
    RunObject(s, name, typeName, inner, lineNum);
    var m0, m1 := Meaning([Node(id, name, typeName)], [Edge(Top(s), id)], []), Means(inner, id, lineNum + 1);
    EndPops(s, With(s, m0), entered, filled, id, m1);
    Compose(s, With(s, m0), filled.(stack := s.stack), m0, m1);
  }

  lemma RunObject(s: State, name: string, typeName: string, inner: seq<Item>, lineNum: nat)
    requires s.stack != [] && !s.inMultiLine
    ensures Run(s, PrintOne(Object(name, typeName, inner)), lineNum) ==
      StepLine(Run(Enter(s, name, typeName, lineNum), Print(inner), lineNum + 1), PLAIN.(isEnd := true),
               lineNum + 1 + |Print(inner)|)
  {
    var open, end := PLAIN.(declares := Some((name, typeName))), PLAIN.(isEnd := true);
    RunAppend(s, [open] + Print(inner), [end], lineNum);
    RunAppend(s, [open], Print(inner), lineNum);
    RunOne(s, open, lineNum);
    RunOne(Run(Enter(s, name, typeName, lineNum), Print(inner), lineNum + 1), end, lineNum + 1 + |Print(inner)|);
  }

  /** The `end` of an object takes off the stack what its first line put there. */
  lemma EndPops(s: State, parent: State, entered: State, filled: State, id: Id, m: Meaning)
    requires s.stack != [] && !s.inMultiLine && parent.stack == s.stack && !parent.inMultiLine
    requires entered == parent.(stack := s.stack + [id])
    requires SameUpToClose(filled, With(entered, m))
    ensures forall n :: StepLine(filled, PLAIN.(isEnd := true), n) == filled.(stack := s.stack)
    ensures SameUpToClose(filled.(stack := s.stack), With(parent, m))
  {
    assert filled.stack[..|filled.stack| - 1] == s.stack;
  }

  lemma MultiLineParses(s: State, close: Close, body: seq<Line>, last: Line, lineNum: nat)
    requires s.stack != [] && !s.inMultiLine && Closes(last, close) && forall l :: l in body ==> !Closes(l, close)
    ensures SameUpToClose(Run(s, PrintOne(MultiLine(close, body, last)), lineNum), With(s, Meaning([], [], [])))
  {
    var open := if close.Paren? then PLAIN.(opensParen := true) else PLAIN.(opensAngle := true);
    RunAppend(s, [open] + body, [last], lineNum);
    RunAppend(s, [open], body, lineNum);
    RunOne(s, open, lineNum);
    var inside := StepLine(s, open, lineNum);
    SkipBody(inside, body, lineNum + 1);
    RunOne(inside, last, lineNum + 1 + |body|);
  }

  /** The whole file. */
  lemma FormRoundTrip(items: seq<Item>)
    requires WellFormed(items)
    ensures var r := Run(START, Print(items), 1);
      Meaning(r.nodes, r.edges, r.references) == Means(items, FileNode, 1)
  {
    ParsePrint(START, items, 1);
  }
}
