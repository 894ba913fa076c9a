/**
  The DOT text that the recognizer's genGraph writes: a node section with one
  line per state and an edge section with one line per transition, edges into
  a final state grouped in a same-rank block. The current state and the last
  fired transition are highlighted.
 */
module DotGraph {
  import opened Wrappers
  import opened JavaString
  import opened Automaton
  import GraphVizBuffer

  /** The highlight colour, quoted as DOT wants it. */
  const Highlight: string := "\"#a9d18e\""

  /** The marker of a final state's node. */
  const FinalMarker: string := "doublecircle"
  /** The marker of the current state's node. */
  const CurrentMarker: string := "fillcolor=" + Highlight
  /** The marker of the last fired transition's edge. */
  const LastMarker: string := "color=" + Highlight

  const NodesHeader: string := "  # NODES\n"
  const PointNode: string := "  o [style=solid," + "color=black," + "fillcolor=black," + "shape=point];\n"
  const TransitionsHeader: string := "  # TRANSITIONS\n"
  const RankOpen: string := "  {rank=same\n"
  const RankClose: string := "  }\n"

  /** The edge from the point node into the initial state. */
  const EntryLine: string := "  o -> " + Name(Initial) + ";\n"

  /** The declaration of state s, given the current state: it opens with the state's name and closes with ";". */
  function NodeLine(s: State, current: State): (r: string)
    ensures |r| >= 4 && r[..3] == "  " + Name(s) && r[|r| - 1] == ';'
  {
    if s in Finals then
      if s == current then "  " + Name(s) + "[shape = " + FinalMarker + "," + CurrentMarker + "];"
      else "  " + Name(s) + "[shape = " + FinalMarker + "];"
    else if s == current then "  " + Name(s) + "[" + CurrentMarker + "];"
    else "  " + Name(s) + ";"
  }

  /** substring(indexOf("with") + 5) is in range. */
  predicate LabelDefined(name: string) {
    0 <= IndexOf(name, "with") + 5 <= |name|
  }

  /** The text after "with " in a transition's name: a tail of the name, without its first four characters. */
  function Label(name: string): (r: string)
    requires LabelDefined(name)
    ensures |r| <= |name| - 4 && r == name[|name| - |r|..]
  {
    name[IndexOf(name, "with") + 5..]
  }

  /** The edge of transition t, given the last fired transition: it opens with the source and closes with the label. */
  function EdgeLine(t: Transition, last: Option<Transition>): (r: string)
    requires LabelDefined(t.name)
    ensures |r| >= 3 && r[..3] == "  " + Name(t.source)
    ensures |r| >= |Label(t.name)| + 2 && r[|r| - |Label(t.name)| - 2..] == Label(t.name) + "];"
  {
    EdgeText(Name(t.source), Name(t.target), Label(t.name), last == Some(t))
  }

  /** An edge from source to target with the given label, coloured when highlighted: it opens with the source and closes with the label. */
  function EdgeText(source: string, target: string, edgeLabel: string, highlighted: bool): (r: string)
    ensures |r| >= |source| + 2 && r[..|source| + 2] == "  " + source
    ensures |r| >= |edgeLabel| + 2 && r[|r| - |edgeLabel| - 2..] == edgeLabel + "];"
  {
    var head := "  " + source;
    var tail := edgeLabel + "];";
    var r := if highlighted then head + (" -> " + target + " [" + LastMarker + ",label = ") + tail
      else head + (" -> " + target + " [label = ") + tail;
    assert r[..|head|] == head;
    assert r[|r| - |tail|..] == tail;
    r
  }

  /** The node lines, one per state of order, each written with a trailing line break. */
  function NodeLines(order: seq<State>, current: State): seq<string>
    decreases |order|
  {
    if order == [] then []
    else NodeLines(order[..|order| - 1], current) + [NodeLine(order[|order| - 1], current) + "\n"]
  }

  /** The transitions of order whose target is not final, in order. */
  function MainEdges(order: seq<Transition>): (r: seq<Transition>)
    ensures forall t :: t in r ==> t in order && t.target !in Finals
    decreases |order|
  {
    if order == [] then []
    else
      var t := order[|order| - 1];
      MainEdges(order[..|order| - 1]) + if t.target !in Finals then [t] else []
  }

  /** The transitions of order whose target is final, in order. */
  function RankEdges(order: seq<Transition>): (r: seq<Transition>)
    ensures forall t :: t in r ==> t in order && t.target in Finals
    decreases |order|
  {
    if order == [] then []
    else
      var t := order[|order| - 1];
      RankEdges(order[..|order| - 1]) + if t.target in Finals then [t] else []
  }

  /** The edge lines of ts, each written with a trailing line break. */
  function EdgeLines(ts: seq<Transition>, last: Option<Transition>): seq<string>
    requires forall t :: t in ts ==> LabelDefined(t.name)
    decreases |ts|
  {
    if ts == [] then []
    else EdgeLines(ts[..|ts| - 1], last) + [EdgeLine(ts[|ts| - 1], last) + "\n"]
  }

  function NodeSection(stateOrder: seq<State>, current: State): seq<string> {
    [NodesHeader, PointNode] + NodeLines(stateOrder, current)
  }

  function EdgeSection(transitionOrder: seq<Transition>, last: Option<Transition>): seq<string>
    requires forall t :: t in transitionOrder ==> LabelDefined(t.name)
  {
    [TransitionsHeader, EntryLine]
      + EdgeLines(MainEdges(transitionOrder), last)
      + [RankOpen]
      + EdgeLines(RankEdges(transitionOrder), last)
      + [RankClose]
  }

  /** The arguments genGraph passes to addln, in order. */
  function DotLines(stateOrder: seq<State>, transitionOrder: seq<Transition>, current: State, last: Option<Transition>): seq<string>
    requires forall t :: t in transitionOrder ==> LabelDefined(t.name)
  {
    NodeSection(stateOrder, current) + EdgeSection(transitionOrder, last) + [GraphVizBuffer.GraphClosing]
  }

  /** The lines a loop over items writes: render(x) for each x that keep admits, in order. */
  function Rendered<T>(items: seq<T>, keep: T -> bool, render: T --> string): seq<string>
    requires forall x :: x in items && keep(x) ==> render.requires(x)
    decreases |items|
  {
    if items == [] then []
    else
      var x := items[|items| - 1];
      Rendered(items[..|items| - 1], keep, render) + if keep(x) then [render(x)] else []
  }

  /** Every state is drawn. */
  const AllStates: State -> bool := s => true

  /** The genGraph node line of a state, with its line break. */
  function NodeRender(current: State): State -> string {
    s => NodeLine(s, current) + "\n"
  }

  /** Transitions drawn before the rank block: those whose target is not final. */
  const IntoOther: Transition -> bool := (t: Transition) => t.target !in Finals

  /** Transitions drawn inside the rank block: those whose target is final. */
  const IntoFinal: Transition -> bool := (t: Transition) => t.target in Finals

  /** The genGraph edge line of a transition, with its line break. */
  function EdgeRender(last: Option<Transition>): Transition --> string {
    (t: Transition) requires LabelDefined(t.name) => EdgeLine(t, last) + "\n"
  }

  /** The state loop of genGraph writes the node lines. */
  lemma {:induction false} RenderedNodes(order: seq<State>, current: State)
    ensures Rendered(order, AllStates, NodeRender(current)) == NodeLines(order, current)
    decreases |order|
  {
    if order != [] {
      RenderedNodes(order[..|order| - 1], current);
    }
  }

  /** The items that keep admits, in order. */
  function Filter<T>(items: seq<T>, keep: T -> bool): (r: seq<T>)
    ensures forall x :: x in r ==> x in items && keep(x)
    decreases |items|
  {
    if items == [] then []
    else
      var x := items[|items| - 1];
      Filter(items[..|items| - 1], keep) + if keep(x) then [x] else []
  }

  /** render applied to each item, in order. */
  function MapLines<T>(items: seq<T>, render: T --> string): seq<string>
    requires forall x :: x in items ==> render.requires(x)
    decreases |items|
  {
    if items == [] then [] else MapLines(items[..|items| - 1], render) + [render(items[|items| - 1])]
  }

  /** A loop with a guard writes the rendering of the items the guard admits. */
  lemma {:induction false} RenderedIsMappedFilter<T>(items: seq<T>, keep: T -> bool, render: T --> string)
    requires forall x :: x in items && keep(x) ==> render.requires(x)
    ensures Rendered(items, keep, render) == MapLines(Filter(items, keep), render)
    decreases |items|
  {
    if items != [] {
      var init, x := items[..|items| - 1], items[|items| - 1];
      assert forall y :: y in init ==> y in items;
      RenderedIsMappedFilter(init, keep, render);
      var kept := Filter(init, keep);
      if keep(x) {
        assert Filter(items, keep) == kept + [x];
        assert (kept + [x])[..|kept|] == kept;
        assert MapLines(kept + [x], render) == MapLines(kept, render) + [render(x)];
      } else {
        assert Filter(items, keep) == kept;
      }
    }
  }

  lemma {:induction false} MainEdgesFilter(order: seq<Transition>)
    ensures MainEdges(order) == Filter(order, IntoOther)
    decreases |order|
  {
    if order != [] {
      MainEdgesFilter(order[..|order| - 1]);
    }
  }

  lemma {:induction false} RankEdgesFilter(order: seq<Transition>)
    ensures RankEdges(order) == Filter(order, IntoFinal)
    decreases |order|
  {
    if order != [] {
      RankEdgesFilter(order[..|order| - 1]);
    }
  }

  lemma {:induction false} EdgeLinesMapped(ts: seq<Transition>, last: Option<Transition>)
    requires forall t :: t in ts ==> LabelDefined(t.name)
    ensures EdgeLines(ts, last) == MapLines(ts, EdgeRender(last))
    decreases |ts|
  {
    if ts != [] {
      EdgeLinesMapped(ts[..|ts| - 1], last);
    }
  }

  lemma {:induction false} NodeLinesMapped(order: seq<State>, current: State)
    ensures NodeLines(order, current) == MapLines(order, NodeRender(current))
    decreases |order|
  {
    if order != [] {
      NodeLinesMapped(order[..|order| - 1], current);
    }
  }

  /** MapLines keeps the order and the length of its items. */
  lemma {:induction false} MapLinesIndex<T>(items: seq<T>, render: T --> string)
    requires forall x :: x in items ==> render.requires(x)
    ensures |MapLines(items, render)| == |items|
    ensures forall k :: 0 <= k < |items| ==> MapLines(items, render)[k] == render(items[k])
    decreases |items|
  {
    if items != [] {
      var init := items[..|items| - 1];
      assert forall y :: y in init ==> y in items;
      MapLinesIndex(init, render);
    }
  }

  /** When no other item renders like x, the rendering of x occurs as often as x does. */
  lemma {:induction false} MapLinesOccurrences<T>(items: seq<T>, render: T --> string, x: T)
    requires render.requires(x)
    requires forall y :: y in items ==> render.requires(y) && (y != x ==> render(y) != render(x))
    ensures multiset(MapLines(items, render))[render(x)] == multiset(items)[x]
    decreases |items|
  {
    if items != [] {
      var init, y := items[..|items| - 1], items[|items| - 1];
      assert items == init + [y];
      assert forall z :: z in init ==> z in items;
      MapLinesOccurrences(init, render, x);
    }
  }

  /** The first transition loop of genGraph writes the edge lines of the main list. */
  lemma RenderedMainEdges(order: seq<Transition>, last: Option<Transition>)
    requires forall t :: t in order ==> LabelDefined(t.name)
    ensures Rendered(order, IntoOther, EdgeRender(last)) == EdgeLines(MainEdges(order), last)
  {
    RenderedIsMappedFilter(order, IntoOther, EdgeRender(last));
    MainEdgesFilter(order);
    EdgeLinesMapped(MainEdges(order), last);
  }

  /** The second transition loop of genGraph writes the edge lines of the rank block. */
  lemma RenderedRankEdges(order: seq<Transition>, last: Option<Transition>)
    requires forall t :: t in order ==> LabelDefined(t.name)
    ensures Rendered(order, IntoFinal, EdgeRender(last)) == EdgeLines(RankEdges(order), last)
  {
    RenderedIsMappedFilter(order, IntoFinal, EdgeRender(last));
    RankEdgesFilter(order);
    EdgeLinesMapped(RankEdges(order), last);
  }

  lemma Regroup<T>(a: seq<T>, b: seq<T>, c: seq<T>, d: seq<T>, e: seq<T>)
    ensures a + b + c + d + e == (a + b) + (c + d + e)
  {
  }

  /** The edge section is its head (header, entry edge, main list) followed by the rank block. */
  lemma EdgeSectionSplit(order: seq<Transition>, last: Option<Transition>)
    requires forall t :: t in order ==> LabelDefined(t.name)
    ensures EdgeSection(order, last)
      == ([TransitionsHeader, EntryLine] + EdgeLines(MainEdges(order), last))
         + ([RankOpen] + EdgeLines(RankEdges(order), last) + [RankClose])
  {
    Regroup([TransitionsHeader, EntryLine], EdgeLines(MainEdges(order), last), [RankOpen],
            EdgeLines(RankEdges(order), last), [RankClose]);
  }

  /** No element occurs twice. */
  predicate Distinct<T(==)>(order: seq<T>) {
    forall i, j :: 0 <= i < j < |order| ==> order[i] != order[j]
  }

  /** How a hash set of states is iterated: each state once, in some order. */
  ghost predicate EnumeratesStates(order: seq<State>) {
    Distinct(order) && forall s :: s in order <==> s in States
  }

  /** How the set of registered transitions is iterated: each once, in some order. */
  ghost predicate EnumeratesTransitions(order: seq<Transition>) {
    Distinct(order) && forall t :: t in order <==> t in Transitions
  }

  /** The number of lines that contain marker. */
  function CountMarked(lines: seq<string>, marker: string): nat
    decreases |lines|
  {
    if lines == [] then 0
    else CountMarked(lines[..|lines| - 1], marker) + if Contains(lines[|lines| - 1], marker) then 1 else 0
  }

  // ---------------------------------------------------------------------------
  // Properties of single lines

  lemma OccursBetween(a: string, b: string, c: string)
    ensures OccursAt(b, a + b + c, |a|)
  {
    assert (a + b + c)[|a|..|a| + |b|] == b;
  }

  /** A node line names its state, is double-circled iff the state is final and filled iff it is current. */
  lemma NodeLineMarkers(s: State, current: State)
    ensures NodeLine(s, current)[..3] == "  " + Name(s)
    ensures Contains(NodeLine(s, current), FinalMarker) <==> s in Finals
    ensures Contains(NodeLine(s, current) + "\n", FinalMarker) <==> s in Finals
    ensures Contains(NodeLine(s, current) + "\n", CurrentMarker) <==> s == current
  {
    var n := "  " + Name(s);
    var line := NodeLine(s, current);
    if s in Finals && s == current {
      FinalCurrentNode(n);
    } else if s in Finals {
      FinalNode(n);
    } else if s == current {
      CurrentNode(n);
    } else {
      PlainNode(n);
    }
    if s in Finals {
      ContainsExtends(line, "\n", FinalMarker);
    } else {
      MissingCharNotContained(line + "\n", FinalMarker, 'u');
    }
  }

  lemma FinalCurrentNode(n: string)
    requires '#' !in n
    ensures var line := n + "[shape = " + FinalMarker + "," + CurrentMarker + "];";
      Contains(line, FinalMarker) && Contains(line + "\n", CurrentMarker)
  {
    var line := n + "[shape = " + FinalMarker + "," + CurrentMarker + "];";
    OccursBetween(n + "[shape = ", FinalMarker, "," + CurrentMarker + "];");
    assert line == (n + "[shape = ") + FinalMarker + ("," + CurrentMarker + "];");
    OccursBetween(n + "[shape = " + FinalMarker + ",", CurrentMarker, "];\n");
    assert line + "\n" == (n + "[shape = " + FinalMarker + ",") + CurrentMarker + "];\n";
  }

  lemma FinalNode(n: string)
    requires '#' !in n
    ensures var line := n + "[shape = " + FinalMarker + "];";
      Contains(line, FinalMarker) && !Contains(line + "\n", CurrentMarker)
  {
    var line := n + "[shape = " + FinalMarker + "];";
    OccursBetween(n + "[shape = ", FinalMarker, "];");
    MissingCharNotContained(line + "\n", CurrentMarker, '#');
  }

  lemma CurrentNode(n: string)
    requires '#' !in n && 'u' !in n
    ensures var line := n + "[" + CurrentMarker + "];";
      !Contains(line, FinalMarker) && Contains(line + "\n", CurrentMarker)
  {
    var line := n + "[" + CurrentMarker + "];";
    MissingCharNotContained(line, FinalMarker, 'u');
    OccursBetween(n + "[", CurrentMarker, "];\n");
    assert line + "\n" == (n + "[") + CurrentMarker + "];\n";
  }

  lemma PlainNode(n: string)
    requires '#' !in n && 'u' !in n
    ensures var line := n + ";";
      !Contains(line, FinalMarker) && !Contains(line + "\n", CurrentMarker)
  {
    MissingCharNotContained(n + ";", FinalMarker, 'u');
    MissingCharNotContained(n + ";\n", CurrentMarker, '#');
  }

  lemma ContainsExtends(s: string, more: string, t: string)
    requires Contains(s, t)
    ensures Contains(s + more, t)
  {
    var i :| 0 <= i <= |s| && OccursAt(t, s, i);
    assert (s + more)[i..i + |t|] == s[i..i + |t|];
    assert OccursAt(t, s + more, i);
  }

  /** The first character of each event kind's letter in lower case, as the transition names spell it. */
  function LowerLetter(e: EventKind): char {
    match e
    case A => 'a'
    case B => 'b'
    case C => 'c'
  }

  lemma NameLabel(name: string, e: EventKind)
    requires |name| == 13 && name[7..12] == "with " && name[12] == LowerLetter(e)
    requires forall j :: 0 <= j < 7 ==> name[j] != 'w'
    ensures LabelDefined(name) && Label(name) == [LowerLetter(e)]
  {
    assert name[7..11] == name[7..12][..4];
    IndexOfFirst(name, "with", 7);
  }

  /** The label of every registered transition is the letter of its event after "with ". */
  lemma TransitionLabels()
    ensures forall t :: t in Transitions ==> LabelDefined(t.name) && Label(t.name) == [LowerLetter(t.event)]
  {
    forall t | t in Transitions
      ensures LabelDefined(t.name) && Label(t.name) == [LowerLetter(t.event)]
    {
      var i :| 0 <= i < |Transitions| && Transitions[i] == t;
      RegisteredLabel(i);
    }
  }

  lemma RegisteredLabel(i: nat)
    requires i < |Transitions|
    ensures LabelDefined(Transitions[i].name) && Label(Transitions[i].name) == [LowerLetter(Transitions[i].event)]
  {
    if i == 0 { LabelSQ(); }
    else if i == 1 { LabelQP(); }
    else if i == 2 { LabelPP(); }
    else if i == 3 { LabelPQ(); }
    else if i == 4 { LabelQRb(); }
    else { LabelQRc(); }
  }

  lemma LabelSQ() ensures LabelDefined(NameSQ) && Label(NameSQ) == "b" { NameLabel(NameSQ, B); }
  lemma LabelQP() ensures LabelDefined(NameQP) && Label(NameQP) == "a" { NameLabel(NameQP, A); }
  lemma LabelPP() ensures LabelDefined(NamePP) && Label(NamePP) == "a" { NameLabel(NamePP, A); }
  lemma LabelPQ() ensures LabelDefined(NamePQ) && Label(NamePQ) == "b" { NameLabel(NamePQ, B); }
  lemma LabelQRb() ensures LabelDefined(NameQRb) && Label(NameQRb) == "b" { NameLabel(NameQRb, B); }
  lemma LabelQRc() ensures LabelDefined(NameQRc) && Label(NameQRc) == "c" { NameLabel(NameQRc, C); }

  lemma EdgeTextMarker(source: string, target: string, edgeLabel: string, highlighted: bool)
    requires '"' !in source && '"' !in target && '"' !in edgeLabel
    ensures Contains(EdgeText(source, target, edgeLabel, highlighted) + "\n", LastMarker) <==> highlighted
  {
    var head := "  " + source + " -> " + target + " [";
    var tail := ",label = " + edgeLabel + "];\n";
    if highlighted {
      assert EdgeText(source, target, edgeLabel, highlighted) + "\n" == head + LastMarker + tail;
      OccursBetween(head, LastMarker, tail);
    } else {
      MissingCharNotContained(EdgeText(source, target, edgeLabel, highlighted) + "\n", LastMarker, '"');
    }
  }

  lemma EdgeTextEnds(source: string, target: string, x: char, highlighted: bool)
    requires |source| == 1
    ensures var line := EdgeText(source, target, [x], highlighted);
      |line| >= 5 && line[2] == source[0] && line[|line| - 3] == x
  {
  }

  /** The transition's label is its event's letter. */
  predicate WellLabelled(t: Transition) {
    LabelDefined(t.name) && Label(t.name) == [LowerLetter(t.event)]
  }

  /** Two transitions with different keys. */
  predicate KeysDiffer(t: Transition, u: Transition) {
    t.source != u.source || t.event != u.event
  }

  /** The registered transitions are well labelled and differ in key when they differ at all. */
  lemma RegisteredTransitions()
    ensures forall t :: t in Transitions ==> WellLabelled(t)
    ensures forall t, u :: t in Transitions && u in Transitions && !KeysDiffer(t, u) ==> t == u
  {
    TransitionLabels();
    RegisteredKeys();
  }

  lemma RegisteredKeys()
    ensures forall t, u :: t in Transitions && u in Transitions && !KeysDiffer(t, u) ==> t == u
  {
    KeysUnique();
    forall t, u | t in Transitions && u in Transitions && !KeysDiffer(t, u)
      ensures t == u
    {
      var i :| 0 <= i < |Transitions| && Transitions[i] == t;
      var j :| 0 <= j < |Transitions| && Transitions[j] == u;
      assert KeyedAt(i, Transitions[j].source, Transitions[j].event);
    }
  }

  /** An edge line is coloured iff its transition is the last fired one. */
  lemma EdgeLineMarker(t: Transition, last: Option<Transition>)
    requires WellLabelled(t)
    ensures Contains(EdgeLine(t, last) + "\n", LastMarker) <==> last == Some(t)
  {
    EdgeTextMarker(Name(t.source), Name(t.target), Label(t.name), last == Some(t));
  }

  /** An edge line names its transition's source at index 2 and its event's letter before "];". */
  lemma EdgeLineNamesTransition(t: Transition, last: Option<Transition>)
    requires WellLabelled(t)
    ensures var line := EdgeLine(t, last);
      |line| >= 5 && line[2] == Name(t.source)[0] && line[|line| - 3] == LowerLetter(t.event)
  {
    EdgeTextEnds(Name(t.source), Name(t.target), LowerLetter(t.event), last == Some(t));
  }

  /** Transitions with different keys have different edge lines. */
  lemma EdgeLinesDistinct(t: Transition, u: Transition, last: Option<Transition>)
    requires WellLabelled(t) && WellLabelled(u) && KeysDiffer(t, u)
    ensures EdgeLine(t, last) + "\n" != EdgeLine(u, last) + "\n"
  {
    EdgeLineNamesTransition(t, last);
    EdgeLineNamesTransition(u, last);
    var a, b := EdgeLine(t, last), EdgeLine(u, last);
    assert (a + "\n")[2] == a[2] && (b + "\n")[2] == b[2];
    if |a| == |b| {
      assert (a + "\n")[|a| - 3] == a[|a| - 3];
      assert (b + "\n")[|b| - 3] == b[|b| - 3];
    }
  }

  // ---------------------------------------------------------------------------
  // Properties of the sections

  lemma {:induction false} DistinctCount<T>(order: seq<T>, x: T)
    requires Distinct(order)
    ensures multiset(order)[x] == if x in order then 1 else 0
    decreases |order|
  {
    if order != [] {
      var init, y := order[..|order| - 1], order[|order| - 1];
      assert order == init + [y];
      DistinctCount(init, x);
      assert y !in init;
    }
  }

  lemma {:induction false} CountMarkedAppend(a: seq<string>, b: seq<string>, marker: string)
    ensures CountMarked(a + b, marker) == CountMarked(a, marker) + CountMarked(b, marker)
    decreases |b|
  {
    if b != [] {
      assert (a + b)[..|a + b| - 1] == a + b[..|b| - 1];
      CountMarkedAppend(a, b[..|b| - 1], marker);
    } else {
      assert a + b == a;
    }
  }

  lemma NodeLinesDistinct(s: State, s': State, current: State)
    requires s != s'
    ensures NodeLine(s, current) + "\n" != NodeLine(s', current) + "\n"
  {
    NodeLineMarkers(s, current);
    NodeLineMarkers(s', current);
    assert (NodeLine(s, current) + "\n")[2] == Name(s)[0];
    assert (NodeLine(s', current) + "\n")[2] == Name(s')[0];
  }

  /** The node lines follow order, one line per state. */
  lemma NodeLinesFollowOrder(order: seq<State>, current: State)
    ensures |NodeLines(order, current)| == |order|
    ensures forall k :: 0 <= k < |order| ==> NodeLines(order, current)[k] == NodeLine(order[k], current) + "\n"
  {
    NodeLinesMapped(order, current);
    MapLinesIndex(order, NodeRender(current));
  }

  /** Each state's line occurs as often as the state does in order, and the markers count the current and final states. */
  lemma NodeLinesCount(order: seq<State>, current: State, s: State)
    ensures multiset(NodeLines(order, current))[NodeLine(s, current) + "\n"] == multiset(order)[s]
    ensures CountMarked(NodeLines(order, current), CurrentMarker) == multiset(order)[current]
    ensures CountMarked(NodeLines(order, current), FinalMarker) == multiset(order)[R]
  {
    NodeLineOccurrences(order, current, s);
    NodeMarksCount(order, current);
  }

  lemma NodeLineOccurrences(order: seq<State>, current: State, s: State)
    ensures multiset(NodeLines(order, current))[NodeLine(s, current) + "\n"] == multiset(order)[s]
  {
    NodeLinesMapped(order, current);
    forall y | y in order && y != s
      ensures NodeRender(current)(y) != NodeRender(current)(s)
    {
      NodeLinesDistinct(y, s, current);
    }
    MapLinesOccurrences(order, NodeRender(current), s);
  }

  lemma {:induction false} NodeMarksCount(order: seq<State>, current: State)
    ensures CountMarked(NodeLines(order, current), CurrentMarker) == multiset(order)[current]
    ensures CountMarked(NodeLines(order, current), FinalMarker) == multiset(order)[R]
    decreases |order|
  {
    if order != [] {
      var init, y := order[..|order| - 1], order[|order| - 1];
      assert order == init + [y];
      NodeMarksCount(init, current);
      NodeLineMarkers(y, current);
    }
  }

  lemma NodeHeadersUnmarked()
    ensures CountMarked([NodesHeader, PointNode], CurrentMarker) == 0
    ensures CountMarked([NodesHeader, PointNode], FinalMarker) == 0
  {
    NodesHeaderUnmarked();
    PointNodeUnmarked();
    CountMarkedPair(NodesHeader, PointNode, CurrentMarker);
    CountMarkedPair(NodesHeader, PointNode, FinalMarker);
  }

  lemma NodesHeaderUnmarked()
    ensures !Contains(NodesHeader, CurrentMarker) && !Contains(NodesHeader, FinalMarker)
  {
    MissingCharNotContained(NodesHeader, CurrentMarker, '"');
    MissingCharNotContained(NodesHeader, FinalMarker, 'u');
  }

  lemma PointNodeUnmarked()
    ensures !Contains(PointNode, CurrentMarker) && !Contains(PointNode, FinalMarker)
  {
    PointNodeUnfilled();
    PointNodeSingle();
  }

  lemma PointNodeUnfilled()
    ensures !Contains(PointNode, CurrentMarker)
  {
    MissingCharNotContained(PointNode, CurrentMarker, '"');
  }

  lemma PointNodeSingle()
    ensures !Contains(PointNode, FinalMarker)
  {
    MissingCharNotContained(PointNode, FinalMarker, 'u');
  }

  lemma CountMarkedPair(a: string, b: string, marker: string)
    ensures CountMarked([a, b], marker) == (if Contains(a, marker) then 1 else 0) + (if Contains(b, marker) then 1 else 0)
  {
    assert [a, b][..1] == [a];
    assert [a][..0] == [];
    assert CountMarked([a], marker) == if Contains(a, marker) then 1 else 0;
  }

  lemma NodeSectionLineOnce(order: seq<State>, current: State, s: State)
    requires EnumeratesStates(order) && s in States
    ensures multiset(NodeSection(order, current))[NodeLine(s, current) + "\n"] == 1
  {
    NodeLinesCount(order, current, s);
    DistinctCount(order, s);
    NodeLineIsNoHeader(s, current);
    var line := NodeLine(s, current) + "\n";
    assert NodeSection(order, current) == [NodesHeader, PointNode] + NodeLines(order, current);
    assert multiset([NodesHeader, PointNode])[line] == 0;
  }

  lemma NodeLineIsNoHeader(s: State, current: State)
    ensures NodeLine(s, current) + "\n" != NodesHeader
    ensures NodeLine(s, current) + "\n" != PointNode
  {
    NodeLineMarkers(s, current);
    var line := NodeLine(s, current) + "\n";
    assert line[2] == Name(s)[0];
    assert NodesHeader[2] == '#';
    assert PointNode[2] == 'o';
  }

  /**
    The node section: the header, the point node o, then the states' lines;
    each state has exactly one line, exactly one line is filled (the current
    state's) and exactly one is double-circled (the final state's).
   */
  lemma NodeSectionShape(order: seq<State>, current: State)
    requires EnumeratesStates(order)
    ensures NodeSection(order, current)[..2] == [NodesHeader, PointNode]
    ensures |NodeSection(order, current)| == 2 + |order|
    ensures forall k :: 0 <= k < |order| ==> NodeSection(order, current)[k + 2] == NodeLine(order[k], current) + "\n"
    ensures forall s :: s in States ==> multiset(NodeSection(order, current))[NodeLine(s, current) + "\n"] == 1
    ensures CountMarked(NodeSection(order, current), CurrentMarker) == 1
    ensures CountMarked(NodeSection(order, current), FinalMarker) == 1
  {
    NodeSectionLayout(order, current);
    forall s | s in States ensures multiset(NodeSection(order, current))[NodeLine(s, current) + "\n"] == 1 {
      NodeSectionLineOnce(order, current, s);
    }
    NodeSectionMarks(order, current);
  }

  lemma NodeSectionLayout(order: seq<State>, current: State)
    ensures NodeSection(order, current)[..2] == [NodesHeader, PointNode]
    ensures |NodeSection(order, current)| == 2 + |order|
    ensures forall k :: 0 <= k < |order| ==> NodeSection(order, current)[k + 2] == NodeLine(order[k], current) + "\n"
  {
    NodeLinesFollowOrder(order, current);
  }

  lemma NodeSectionMarks(order: seq<State>, current: State)
    requires EnumeratesStates(order)
    ensures CountMarked(NodeSection(order, current), CurrentMarker) == 1
    ensures CountMarked(NodeSection(order, current), FinalMarker) == 1
  {
    var lines := NodeLines(order, current);
    NodeMarksCount(order, current);
    DistinctCount(order, current);
    DistinctCount(order, R);
    NodeHeadersUnmarked();
    CountMarkedAppend([NodesHeader, PointNode], lines, CurrentMarker);
    CountMarkedAppend([NodesHeader, PointNode], lines, FinalMarker);
  }

  /** Each transition lands in the main list or the rank block according to its target, as often as order holds it. */
  lemma {:induction false} FilterCounts(order: seq<Transition>, t: Transition)
    ensures multiset(MainEdges(order))[t] == if t.target in Finals then 0 else multiset(order)[t]
    ensures multiset(RankEdges(order))[t] == if t.target in Finals then multiset(order)[t] else 0
    decreases |order|
  {
    if order != [] {
      var init := order[..|order| - 1];
      assert order == init + [order[|order| - 1]];
      FilterCounts(init, t);
    }
  }

  /** A transition's edge line occurs as often as the transition, and the coloured lines count the last fired one. */
  lemma EdgeLinesCount(ts: seq<Transition>, last: Option<Transition>, t: Transition)
    requires forall u :: u in ts ==> LabelDefined(u.name)
    requires forall u :: u in ts ==> WellLabelled(u) && (u != t ==> KeysDiffer(u, t))
    requires WellLabelled(t)
    ensures multiset(EdgeLines(ts, last))[EdgeLine(t, last) + "\n"] == multiset(ts)[t]
    ensures CountMarked(EdgeLines(ts, last), LastMarker) == if last.Some? then multiset(ts)[last.value] else 0
  {
    EdgeLineOccurrences(ts, last, t);
    EdgeMarksCount(ts, last);
  }

  lemma EdgeLineOccurrences(ts: seq<Transition>, last: Option<Transition>, t: Transition)
    requires forall u :: u in ts ==> LabelDefined(u.name)
    requires forall u :: u in ts ==> WellLabelled(u) && (u != t ==> KeysDiffer(u, t))
    requires WellLabelled(t)
    ensures multiset(EdgeLines(ts, last))[EdgeLine(t, last) + "\n"] == multiset(ts)[t]
  {
    EdgeLinesMapped(ts, last);
    forall u | u in ts && u != t
      ensures EdgeRender(last)(u) != EdgeRender(last)(t)
    {
      EdgeLinesDistinct(u, t, last);
    }
    MapLinesOccurrences(ts, EdgeRender(last), t);
  }

  lemma {:induction false} EdgeMarksCount(ts: seq<Transition>, last: Option<Transition>)
    requires forall u :: u in ts ==> LabelDefined(u.name) && WellLabelled(u)
    ensures CountMarked(EdgeLines(ts, last), LastMarker) == if last.Some? then multiset(ts)[last.value] else 0
    decreases |ts|
  {
    if ts != [] {
      var init, y := ts[..|ts| - 1], ts[|ts| - 1];
      assert ts == init + [y];
      EdgeMarksCount(init, last);
      EdgeLineMarker(y, last);
    }
  }

  lemma EdgeHeadersUnmarked()
    ensures !Contains(TransitionsHeader, LastMarker) && !Contains(EntryLine, LastMarker)
    ensures !Contains(RankOpen, LastMarker) && !Contains(RankClose, LastMarker)
  {
    MissingCharNotContained(TransitionsHeader, LastMarker, '"');
    MissingCharNotContained(EntryLine, LastMarker, '"');
    MissingCharNotContained(RankOpen, LastMarker, '"');
    MissingCharNotContained(RankClose, LastMarker, '"');
  }

  lemma CountMarkedOne(a: string, marker: string)
    ensures CountMarked([a], marker) == if Contains(a, marker) then 1 else 0
  {
    assert [a][..0] == [];
  }

  /** Every transition of order is well labelled, and no two share a key. */
  ghost predicate Coherent(order: seq<Transition>) {
    && (forall u :: u in order ==> LabelDefined(u.name) && WellLabelled(u))
    && (forall u, v :: u in order && v in order && !KeysDiffer(u, v) ==> u == v)
  }

  lemma EnumerationCoherent(order: seq<Transition>)
    requires EnumeratesTransitions(order)
    ensures Coherent(order)
  {
    RegisteredTransitions();
  }

  lemma EdgeSectionLineOnce(order: seq<Transition>, last: Option<Transition>, t: Transition)
    requires Distinct(order) && Coherent(order) && t in order
    ensures LabelDefined(t.name)
    ensures multiset(EdgeLines(MainEdges(order), last))[EdgeLine(t, last) + "\n"] == (if t.target in Finals then 0 else 1)
    ensures multiset(EdgeLines(RankEdges(order), last))[EdgeLine(t, last) + "\n"] == (if t.target in Finals then 1 else 0)
  {
    FilterCounts(order, t);
    DistinctCount(order, t);
    EdgeLinesCount(MainEdges(order), last, t);
    EdgeLinesCount(RankEdges(order), last, t);
  }

  lemma EdgeSectionMarked(order: seq<Transition>, last: Option<Transition>)
    requires Distinct(order) && Coherent(order)
    requires last.Some? ==> last.value in order
    ensures CountMarked(EdgeSection(order, last), LastMarker) == if last.Some? then 1 else 0
  {
    var main, rank := MainEdges(order), RankEdges(order);
    var mainLines, rankLines := EdgeLines(main, last), EdgeLines(rank, last);
    if last.Some? {
      FilterCounts(order, last.value);
      DistinctCount(order, last.value);
      EdgeLinesCount(main, last, last.value);
      EdgeLinesCount(rank, last, last.value);
    } else {
      assert CountMarked(mainLines, LastMarker) == 0 by { EdgeLinesMarkedNone(main); }
      assert CountMarked(rankLines, LastMarker) == 0 by { EdgeLinesMarkedNone(rank); }
    }
    EdgeHeadersUnmarked();
    CountMarkedPair(TransitionsHeader, EntryLine, LastMarker);
    CountMarkedOne(RankOpen, LastMarker);
    CountMarkedOne(RankClose, LastMarker);
    var head := [TransitionsHeader, EntryLine];
    CountMarkedAppend(head, mainLines, LastMarker);
    CountMarkedAppend(head + mainLines, [RankOpen], LastMarker);
    CountMarkedAppend(head + mainLines + [RankOpen], rankLines, LastMarker);
    CountMarkedAppend(head + mainLines + [RankOpen] + rankLines, [RankClose], LastMarker);
  }

  lemma {:induction false} EdgeLinesMarkedNone(ts: seq<Transition>)
    requires forall u :: u in ts ==> LabelDefined(u.name) && WellLabelled(u)
    ensures CountMarked(EdgeLines(ts, None), LastMarker) == 0
    decreases |ts|
  {
    if ts != [] {
      EdgeLinesMarkedNone(ts[..|ts| - 1]);
      EdgeLineMarker(ts[|ts| - 1], None);
    }
  }

  /** The edge section opens with its header and the entry edge from the point node into S. */
  lemma EdgeSectionHead(order: seq<Transition>, last: Option<Transition>)
    requires forall t :: t in order ==> LabelDefined(t.name)
    ensures EdgeSection(order, last)[..2] == [TransitionsHeader, EntryLine]
    ensures EntryLine == "  o -> S;\n"
  {
    var main, rank := EdgeLines(MainEdges(order), last), EdgeLines(RankEdges(order), last);
    Regroup([TransitionsHeader, EntryLine], main, [RankOpen], rank, [RankClose]);
    PairHead(TransitionsHeader, EntryLine, main + [RankOpen] + rank + [RankClose]);
    EntryLineText();
  }

  lemma PairHead<T>(a: T, b: T, rest: seq<T>)
    ensures ([a, b] + rest)[..2] == [a, b]
  {
  }

  lemma EntryLineText()
    ensures EntryLine == "  o -> S;\n"
  {
  }

  /**
    The edge section after its head: every transition exactly once, in the main list when its target is not final
    and in the rank block when it is; exactly one line is coloured once a
    transition has fired, none before.
   */
  lemma EdgeSectionShape(order: seq<Transition>, last: Option<Transition>)
    requires EnumeratesTransitions(order)
    requires last.Some? ==> last.value in Transitions
    ensures forall t :: t in order ==> LabelDefined(t.name)
    ensures forall t :: t in order ==>
      && multiset(EdgeLines(MainEdges(order), last))[EdgeLine(t, last) + "\n"] == (if t.target in Finals then 0 else 1)
      && multiset(EdgeLines(RankEdges(order), last))[EdgeLine(t, last) + "\n"] == (if t.target in Finals then 1 else 0)
    ensures CountMarked(EdgeSection(order, last), LastMarker) == if last.Some? then 1 else 0
  {
    EnumerationCoherent(order);
    forall t | t in order
      ensures multiset(EdgeLines(MainEdges(order), last))[EdgeLine(t, last) + "\n"] == (if t.target in Finals then 0 else 1)
      ensures multiset(EdgeLines(RankEdges(order), last))[EdgeLine(t, last) + "\n"] == (if t.target in Finals then 1 else 0)
    {
      EdgeSectionLineOnce(order, last, t);
    }
    EdgeSectionMarked(order, last);
  }
}
