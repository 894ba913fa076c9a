/**
  The recognizer object: the fixed automaton of module Automaton driven by
  text tokens, with the accepted path kept for display and the DOT text of
  its diagram written through a GraphViz buffer.
 */
module Recognizer {
  import opened Wrappers
  import opened JavaString
  import opened Automaton
  import opened DotGraph
  import opened GraphVizBuffer

  /** What processInput reports on the console, as a value. */
  datatype InputOutcome =
    | Unsupported                   // the token names no event
    | InvalidForState(state: State) // no transition leaves the current state on that event
    | Processed(path: string)       // the transition fired; the new path

  /** The event a token names once trimmed and upper-cased, if any; only one-character tokens name one. */
  function Classify(input: string): (r: Option<EventKind>)
    ensures r.Some? ==> |Trim(input)| == 1
  {
    EventOf(ToUpper(Trim(input)))
  }

  /** The switch on the normalised token: only a single capital A, B or C names an event. */
  function EventOf(key: string): (r: Option<EventKind>)
    ensures r.Some? ==> |key| == 1 && 'A' <= key[0] <= 'C'
    ensures r.None? ==> key != "A" && key != "B" && key != "C"
  {
    if key == "A" then Some(A)
    else if key == "B" then Some(B)
    else if key == "C" then Some(C)
    else None
  }

  /** A token names an event iff its trimmed text is that event's letter in either case. */
  lemma ClassifyCases(input: string)
    ensures Classify(input) == Some(A) <==> Trim(input) == "A" || Trim(input) == "a"
    ensures Classify(input) == Some(B) <==> Trim(input) == "B" || Trim(input) == "b"
    ensures Classify(input) == Some(C) <==> Trim(input) == "C" || Trim(input) == "c"
  {
    var t := Trim(input);
    UpperIsLetter(t, 'A');
    UpperIsLetter(t, 'B');
    UpperIsLetter(t, 'C');
    assert ('A' as int + 32) as char == 'a';
    assert ('B' as int + 32) as char == 'b';
    assert ('C' as int + 32) as char == 'c';
  }

  /** Leading and trailing blanks and control characters never change the event a token names. */
  lemma ClassifyIgnoresPadding(pre: string, token: string, post: string)
    requires forall i :: 0 <= i < |pre| ==> IsTrimmable(pre[i])
    requires forall i :: 0 <= i < |post| ==> IsTrimmable(post[i])
    requires token != [] ==> !IsTrimmable(token[0]) && !IsTrimmable(token[|token| - 1])
    ensures Classify(pre + token + post) == Classify(token)
  {
    TrimIgnoresPadding(pre, token, post);
  }

  /** The display path for the accepted symbols: a space before the first, "-" before each later one. */
  function PathText(symbols: seq<char>): string
    decreases |symbols|
  {
    if symbols == [] then ""
    else
      var before := PathText(symbols[..|symbols| - 1]);
      before + [if before == "" then ' ' else '-', symbols[|symbols| - 1]]
  }

  /** The path holds each symbol at an odd index, preceded by ' ' for the first and '-' for the others. */
  lemma {:induction false} PathTextShape(symbols: seq<char>)
    ensures |PathText(symbols)| == 2 * |symbols|
    ensures forall k :: 0 <= k < |symbols| ==>
      PathText(symbols)[2 * k] == (if k == 0 then ' ' else '-') && PathText(symbols)[2 * k + 1] == symbols[k]
    decreases |symbols|
  {
    if symbols != [] {
      var init := symbols[..|symbols| - 1];
      PathTextShape(init);
      var before := PathText(init);
      assert PathText(symbols) == before + [if before == "" then ' ' else '-', symbols[|symbols| - 1]];
      forall k | 0 <= k < |symbols|
        ensures PathText(symbols)[2 * k] == (if k == 0 then ' ' else '-') && PathText(symbols)[2 * k + 1] == symbols[k]
      {
        if k < |init| {
          assert PathText(symbols)[2 * k] == before[2 * k];
          assert PathText(symbols)[2 * k + 1] == before[2 * k + 1];
        }
      }
    }
  }

  /** Every transition into the final state carries the Recognized handler, and no other does. */
  lemma RecognizesIffIntoFinal(s: State, e: EventKind)
    requires (s, e) in Table
    ensures TransitionFor(s, e).value.recognizes <==> Table[(s, e)] in Finals
    ensures Table[(s, e)] in Finals ==> s == Q && e != A
  {
    RecognizedOnlyIntoFinal();
  }

  function SymbolsOf(symbol: EventKind -> char, w: seq<EventKind>): (r: seq<char>)
    ensures |r| == |w| && forall i :: 0 <= i < |w| ==> r[i] == symbol(w[i])
  {
    seq(|w|, i requires 0 <= i < |w| => symbol(w[i]))
  }

  /** Accepting one more event appends its symbol. */
  lemma SymbolsOfSnoc(symbol: EventKind -> char, w: seq<EventKind>, e: EventKind)
    ensures SymbolsOf(symbol, w + [e]) == SymbolsOf(symbol, w) + [symbol(e)]
  {
    var r, l := SymbolsOf(symbol, w + [e]), SymbolsOf(symbol, w) + [symbol(e)];
    assert |r| == |l|;
    forall i | 0 <= i < |r|
      ensures r[i] == l[i]
    {
      if i < |w| {
        assert (w + [e])[i] == w[i];
      }
    }
  }

  /**
    The recognizer's invariant: the current state is where the fired events
    lead from S, the path records them, the last transition is the one fired
    last, and the handler has run once iff the final state is reached.
   */
  ghost predicate Consistent(symbol: EventKind -> char, current: State, last: Option<Transition>,
                             path: string, recognized: nat, accepted: seq<EventKind>)
  {
    && Run(Initial, accepted) == Some(current)
    && path == PathText(SymbolsOf(symbol, accepted))
    && (last == None <==> accepted == [])
    && (last.Some? ==>
          && last.value in Transitions
          && last.value.target == current
          && last.value.event == accepted[|accepted| - 1])
    && recognized == if current in Finals then 1 else 0
  }

  /** Firing the transition for (current, e) and extending the path keeps the invariant. */
  lemma StepKeepsConsistent(symbol: EventKind -> char, current: State, last: Option<Transition>,
                            path: string, recognized: nat, accepted: seq<EventKind>, e: EventKind)
    requires Consistent(symbol, current, last, path, recognized, accepted)
    requires (current, e) in Table
    ensures Consistent(symbol, Table[(current, e)], TransitionFor(current, e),
                       path + [if |path| == 0 then ' ' else '-', symbol(e)],
                       recognized + (if TransitionFor(current, e).value.recognizes then 1 else 0),
                       accepted + [e])
    ensures TransitionFor(current, e).value.recognizes <==> current == Q && e != A
  {
    RecognizesIffIntoFinal(current, e);
    TableEdges(e);
    RunSnoc(Initial, accepted, e);
    PathStep(symbol, accepted, e);
  }

  /** buildPath after one more accepted event gives the path text of the longer word. */
  lemma PathStep(symbol: EventKind -> char, accepted: seq<EventKind>, e: EventKind)
    ensures var path := PathText(SymbolsOf(symbol, accepted));
      PathText(SymbolsOf(symbol, accepted + [e])) == path + [if |path| == 0 then ' ' else '-', symbol(e)]
  {
    var symbols := SymbolsOf(symbol, accepted);
    SymbolsOfSnoc(symbol, accepted, e);
    assert (symbols + [symbol(e)])[..|symbols|] == symbols;
    PathTextShape(symbols);
  }

  class RecognizerFsm {
    /** The first character of each event's name, which the path records. */
    const symbol: EventKind -> char
    var current: State
    var lastTransition: Option<Transition>
    var path: string
    /** How many times the Recognized handler has run. */
    var recognized: nat
    /** The events of the transitions fired so far. */
    ghost var accepted: seq<EventKind>

    /** The object's fields and its accepted events satisfy Consistent. */
    ghost predicate Valid()
      reads this
    {
      Consistent(symbol, current, lastTransition, path, recognized, accepted)
    }

    /** A fresh recognizer at S with an empty path. */
    constructor (symbol: EventKind -> char)
      ensures Valid()
      ensures this.symbol == symbol
      ensures current == Initial && lastTransition == None && path == "" && recognized == 0 && accepted == []
    {
      this.symbol := symbol;
      current := Initial;
      lastTransition := None;
      path := "";
      recognized := 0;
      accepted := [];
    }

    /** The machine is in a final state, which is to say in R. */
    function AtFinalState(): (b: bool)
      reads this
      ensures b <==> current == R
    {
      current in Finals
    }

    /**
      Whether a registered transition leaves the current state on e. The state
      argument is not consulted: the scan compares with the machine's current
      state.
     */
    method TransitionExists(s: State, e: EventKind) returns (found: bool)
      ensures found <==> (current, e) in Table
      ensures found <==> exists i :: KeyedAt(i, current, e)
    {
      found := false;
      var i := 0;
      while i < |Transitions|
        invariant 0 <= i <= |Transitions|
        invariant forall j :: 0 <= j < i ==> !KeyedAt(j, current, e)
      {
        var t := Transitions[i];
        if current == t.source && t.event == e {
          assert KeyedAt(i, current, e);
          found := true;
          break;
        }
        i := i + 1;
      }
      TransitionsAgreeWithTable();
    }

    /** The path with one more symbol: a space before the first, "-" before later ones. */
    function BuildPath(e: EventKind): (r: string)
      reads this
      ensures |r| == |path| + 2 && r[..|path|] == path
      ensures r[|path|] == (if path == "" then ' ' else '-') && r[|path| + 1] == symbol(e)
    {
      var separator := if |path| == 0 then ' ' else '-';
      path + [separator, symbol(e)]
    }

    /**
      The library's fire: when a registered transition leaves the current
      state on e, run its handler, move to its target and remember it.
     */
    method Fire(e: EventKind)
      modifies this
      ensures path == old(path)
      ensures match TransitionFor(old(current), e)
        case None => unchanged(this)
        case Some(t) =>
          && current == t.target
          && lastTransition == Some(t)
          && recognized == old(recognized) + (if t.recognizes then 1 else 0)
          && accepted == old(accepted) + [e]
    {
      match TransitionFor(current, e)
      case None =>
      case Some(t) =>
        if t.recognizes {
          recognized := recognized + 1;
        }
        current := t.target;
        lastTransition := Some(t);
        accepted := accepted + [e];
    }

    /**
      Handles one input token: an unsupported token or an event with no
      transition from the current state changes nothing; otherwise the
      transition fires and the path grows by the event's symbol.
     */
    method ProcessInput(input: string) returns (outcome: InputOutcome)
      requires Valid()
      modifies this
      ensures Valid()
      ensures Classify(input) == None ==> outcome == Unsupported && unchanged(this)
      ensures Classify(input).Some? && (old(current), Classify(input).value) !in Table ==>
        outcome == InvalidForState(old(current)) && unchanged(this)
      ensures Classify(input).Some? && (old(current), Classify(input).value) in Table ==>
        var e := Classify(input).value;
        && current == Table[(old(current), e)]
        && lastTransition == TransitionFor(old(current), e)
        && path == old(BuildPath(e))
        && recognized == old(recognized) + (if old(current) == Q && e != A then 1 else 0)
        && accepted == old(accepted) + [e]
        && outcome == Processed(path)
    {
      var event := Classify(input);
      if event.None? {
        return Unsupported;
      }
      var e := event.value;
      var found := TransitionExists(current, e);
      if !found {
        return InvalidForState(current);
      }
      StepKeepsConsistent(symbol, current, lastTransition, path, recognized, accepted, e);
      Fire(e);
      path := BuildPath(e);
      outcome := Processed(path);
    }

    /**
      The DOT text genGraph writes: the buffer's contents followed by the node
      and edge sections and the closing brace. The orders stand for the
      iteration orders of the state and transition sets. Afterwards the buffer
      holds a fresh graph.
     */
    method GenGraph(gv: GraphViz, stateOrder: seq<State>, transitionOrder: seq<Transition>) returns (dot: string)
      requires forall t :: t in transitionOrder ==> LabelDefined(t.name)
      modifies gv
      ensures dot == old(gv.graph) + LinesText(DotLines(stateOrder, transitionOrder, current, lastTransition))
      ensures gv.graph == "digraph G {\n\n" + gv.configs + "\n"
      ensures gv.configs == old(gv.configs)
    {
      ghost var g0 := gv.graph;
      WriteNodeSection(gv, stateOrder);
      WriteEdgeSection(gv, transitionOrder);
      var closing := gv.EndGraph();
      gv.AddLine(closing);
      dot := gv.GetDotSource();
      AfterDocument(g0, NodeSection(stateOrder, current), EdgeSection(transitionOrder, lastTransition), closing);
      gv.SetNewGraph();
    }

    /** The node part of genGraph: the header, the point node and one line per state. */
    method WriteNodeSection(gv: GraphViz, stateOrder: seq<State>)
      modifies gv
      ensures gv.graph == old(gv.graph) + LinesText(NodeSection(stateOrder, current))
      ensures gv.configs == old(gv.configs)
    {
      AppendHeaded(gv, NodesHeader, PointNode, stateOrder, AllStates, NodeRender(current));
      RenderedNodes(stateOrder, current);
    }

    /**
      The edge part of genGraph: the header, the entry edge, the transitions into
      non-final states, then the rank block holding the transitions into final ones.
     */
    method WriteEdgeSection(gv: GraphViz, transitionOrder: seq<Transition>)
      requires forall t :: t in transitionOrder ==> LabelDefined(t.name)
      modifies gv
      ensures gv.graph == old(gv.graph) + LinesText(EdgeSection(transitionOrder, lastTransition))
      ensures gv.configs == old(gv.configs)
    {
      ghost var g0 := gv.graph;
      AppendHeaded(gv, TransitionsHeader, EntryLine, transitionOrder, IntoOther, EdgeRender(lastTransition));
      AppendBlock(gv, RankOpen, RankClose, transitionOrder, IntoFinal, EdgeRender(lastTransition));
      RenderedMainEdges(transitionOrder, lastTransition);
      RenderedRankEdges(transitionOrder, lastTransition);
      ghost var head := [TransitionsHeader, EntryLine] + EdgeLines(MainEdges(transitionOrder), lastTransition);
      ghost var block := [RankOpen] + EdgeLines(RankEdges(transitionOrder), lastTransition) + [RankClose];
      EdgeSectionSplit(transitionOrder, lastTransition);
      AfterLinesAppend(g0, head, block);
    }
  }

  /** Two addln calls and then a loop: the opening lines of either section of genGraph. */
  method AppendHeaded<T>(gv: GraphViz, first: string, second: string, items: seq<T>, keep: T -> bool, render: T --> string)
    requires forall x :: x in items && keep(x) ==> render.requires(x)
    modifies gv
    ensures gv.graph == old(gv.graph) + LinesText([first, second] + Rendered(items, keep, render))
    ensures gv.configs == old(gv.configs)
  {
    ghost var g0 := gv.graph;
    gv.AddLine(first);
    gv.AddLine(second);
    AppendEach(gv, items, keep, render);
    ghost var rendered := Rendered(items, keep, render);
    LinesTextSnoc([], first);
    assert [] + [first] == [first];
    AfterLinesSnoc(g0, [first], second);
    assert [first] + [second] == [first, second];
    AfterLinesAppend(g0, [first, second], rendered);
  }

  /** An opening line, a loop and a closing line: the rank block of genGraph. */
  method AppendBlock<T>(gv: GraphViz, open: string, close: string, items: seq<T>, keep: T -> bool, render: T --> string)
    requires forall x :: x in items && keep(x) ==> render.requires(x)
    modifies gv
    ensures gv.graph == old(gv.graph) + LinesText([open] + Rendered(items, keep, render) + [close])
    ensures gv.configs == old(gv.configs)
  {
    ghost var g0 := gv.graph;
    gv.AddLine(open);
    AppendEach(gv, items, keep, render);
    gv.AddLine(close);
    ghost var rendered := Rendered(items, keep, render);
    LinesTextSnoc([], open);
    assert [] + [open] == [open];
    AfterLinesAppend(g0, [open], rendered);
    AfterLinesSnoc(g0, [open] + rendered, close);
  }

  /** One loop of genGraph: for each item that keep admits, in order, addln of its rendered line. */
  method AppendEach<T>(gv: GraphViz, items: seq<T>, keep: T -> bool, render: T --> string)
    requires forall x :: x in items && keep(x) ==> render.requires(x)
    modifies gv
    ensures gv.graph == old(gv.graph) + LinesText(Rendered(items, keep, render))
    ensures gv.configs == old(gv.configs)
  {
    var i := 0;
    while i < |items|
      invariant 0 <= i <= |items|
      invariant gv.graph == old(gv.graph) + LinesText(Rendered(items[..i], keep, render))
      invariant gv.configs == old(gv.configs)
    {
      var x := items[i];
      assert items[..i + 1] == items[..i] + [x];
      assert items[..i + 1][..i] == items[..i];
      ghost var done := Rendered(items[..i], keep, render);
      if keep(x) {
        var line := render(x);
        AfterLinesSnoc(old(gv.graph), done, line);
        gv.AddLine(line);
        assert Rendered(items[..i + 1], keep, render) == done + [line];
      } else {
        assert Rendered(items[..i + 1], keep, render) == done;
      }
      i := i + 1;
    }
    assert items[..i] == items;
  }

  /** A recognizer is in its final state exactly when the events it has accepted spell b(a+b)*(b|c). */
  lemma AcceptsIffInLanguage(m: RecognizerFsm)
    requires m.Valid()
    ensures m.AtFinalState() <==> InLanguage(m.accepted)
  {
    RecognizedLanguage(m.accepted);
  }

  /** The path shows the accepted events' symbols in order, each after one separator character. */
  lemma PathRecordsAccepted(m: RecognizerFsm)
    requires m.Valid()
    ensures |m.path| == 2 * |m.accepted|
    ensures forall k :: 0 <= k < |m.accepted| ==>
      m.path[2 * k] == (if k == 0 then ' ' else '-') && m.path[2 * k + 1] == m.symbol(m.accepted[k])
  {
    PathTextShape(SymbolsOf(m.symbol, m.accepted));
  }

  /**
    The diagram of a machine marks its current state and nothing else as
    filled, and colours one edge, the last one fired, once anything has fired.
   */
  lemma DiagramOfMachine(m: RecognizerFsm, stateOrder: seq<State>, transitionOrder: seq<Transition>)
    requires m.Valid()
    requires EnumeratesStates(stateOrder) && EnumeratesTransitions(transitionOrder)
    ensures forall t :: t in transitionOrder ==> LabelDefined(t.name)
    ensures CountMarked(NodeSection(stateOrder, m.current), CurrentMarker) == 1
    ensures Contains(NodeLine(m.current, m.current) + "\n", CurrentMarker)
    ensures CountMarked(EdgeSection(transitionOrder, m.lastTransition), LastMarker) == if m.accepted == [] then 0 else 1
    ensures m.lastTransition.Some? ==> Contains(EdgeLine(m.lastTransition.value, m.lastTransition) + "\n", LastMarker)
  {
    NodeSectionShape(stateOrder, m.current);
    NodeLineMarkers(m.current, m.current);
    EdgeSectionShape(transitionOrder, m.lastTransition);
    if m.lastTransition.Some? {
      RegisteredTransitions();
      EdgeLineMarker(m.lastTransition.value, m.lastTransition);
    }
  }
}
