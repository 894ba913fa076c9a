# FSM-Normal recognizer in Dafny

This project models a small Java program: a finite-state recognizer and the Graphviz text it writes to draw itself.

The recognizer (`RecognizerFSM`) has four states, S (initial), Q, P and R (final), and six transitions over the events A, B and C. It reads text tokens one at a time:
- Each token is trimmed, upper-cased and classified as an event.
- The recognizer checks by a linear scan whether a transition leaves the current state on that event.
- If one does, the transition fires and a display path grows by one symbol.

`genGraph` writes a DOT description of the machine into a `GraphViz` string buffer. The current state is filled with the highlight colour, the last-fired edge is coloured, and the edges into the final state are grouped in a same-rank block.

The model is organised in these modules:
- `Wrappers`: `Option`.
- `JavaString`: the `String` operations the code relies on (`trim`, `toUpperCase`, `indexOf`), and a substring-containment predicate used to state the DOT markers.
- `Automaton`: the fixed machine as a list of registered transitions plus an explicit transition table. It proves that the machine accepts exactly b(a⁺b)*(b|c).
- `GraphVizBuffer`: the `GraphViz` buffer as a class with `graph` and `configs` fields.
- `DotGraph`: the DOT text, line by line, and its properties.
- `Recognizer`: the `RecognizerFSM` object as a class with `current`, `lastTransition`, `path` and a `recognized` counter.

Loops and state updates are modelled imperatively:
- the scan in `TransitionExists` is a loop, with its `break`;
- `GraphViz.SetupGraph` is the `configs` loop;
- `Fire`, `ProcessInput` and `GenGraph` change the recognizer's or the buffer's state, and `GenGraph` runs one loop per state and transition list, appending to the buffer.

Each method's postcondition relates the new state to specification functions. Lemmas then prove the properties of those functions: the accepted language, the path format, and exactly one filled node and at most one coloured edge.

## Model

| member | source | states |
|---|---|---|
| JavaString.TrimLeading | fsm-normal/src/main/java/org/rossedth/fsm/RecognizerFSM.java:101 | the result is a suffix of the input, every removed character is at most U+0020, and the result does not start with such a character |
| JavaString.TrimTrailing | fsm-normal/src/main/java/org/rossedth/fsm/RecognizerFSM.java:101 | the mirror image: a prefix, removed characters trimmable, last character not trimmable |
| JavaString.Trim | fsm-normal/src/main/java/org/rossedth/fsm/RecognizerFSM.java:101 | a trimmed string neither starts nor ends with a character at most U+0020 |
| JavaString.TrimIgnoresPadding | fsm-normal/src/main/java/org/rossedth/fsm/RecognizerFSM.java:101 | padding of characters at most U+0020 around a string with non-blank ends leaves its trim unchanged |
| JavaString.TrimPadding | fsm-normal/src/main/java/org/rossedth/fsm/RecognizerFSM.java:101 | trim of pre + core + post is core whenever pre and post are blanks and core has non-blank ends, including an empty core |
| JavaString.ToUpper | fsm-normal/src/main/java/org/rossedth/fsm/RecognizerFSM.java:101 | the model's ASCII upper-casing keeps the length, turns each a–z into the same letter in capitals, keeps every other character in place, and so leaves no a–z |
| JavaString.UpperIsLetter | fsm-normal/src/main/java/org/rossedth/fsm/RecognizerFSM.java:101-107 | under the model's ASCII upper-casing, a string upper-cases to the one-letter string "X" exactly when it is "X" or "x"; for the letters A, B and C the switch tests this holds for Java's upper-casing too |
| JavaString.IndexFrom | fsm-normal/src/main/java/org/rossedth/fsm/RecognizerFSM.java:193 | indexOf returns -1 or an index where the pattern occurs, and the pattern occurs at no earlier index |
| JavaString.IndexOfFirst | fsm-normal/src/main/java/org/rossedth/fsm/RecognizerFSM.java:193 | indexOf finds an occurrence at k when the pattern's first character appears nowhere before k |
| Automaton.Name | fsm-normal/src/main/java/org/rossedth/fsm/RecognizerFSM.java:25-28 | each state's getName() is its one-letter name: "S", "Q", "P" or "R", and no two states share one |
| Automaton.TransitionsAgreeWithTable | fsm-normal/src/main/java/org/rossedth/fsm/RecognizerFSM.java:39-94 | the six registered transitions and the table describe the same machine: six keys, each key used by exactly one transition, each transition's target equal to the table entry |
| Automaton.KeysUnique | fsm-normal/src/main/java/org/rossedth/fsm/RecognizerFSM.java:86-92 | no two registered transitions share a (source, event) key |
| Automaton.TableCovered | fsm-normal/src/main/java/org/rossedth/fsm/RecognizerFSM.java:86-92 | every table key belongs to a registered transition |
| Automaton.RecognizedOnlyIntoFinal | fsm-normal/src/main/java/org/rossedth/fsm/RecognizerFSM.java:67-81 | a transition carries the Recognized handler iff it goes from Q into the final state |
| Automaton.TableEdges | fsm-normal/src/main/java/org/rossedth/fsm/RecognizerFSM.java:39-93 | no transition leaves R; from S only B has one; Q on B or C leads to R |
| Automaton.FindIn | fsm-normal/src/main/java/org/rossedth/fsm/RecognizerFSM.java:138-146 | the search returns a transition of the list with the requested key, or None only when no transition of the list has it |
| Automaton.FindInFirst | fsm-normal/src/main/java/org/rossedth/fsm/RecognizerFSM.java:138-146 | the transition found is the first of the list with its key, as the front-to-back scan meets it |
| Automaton.TransitionFor | fsm-normal/src/main/java/org/rossedth/fsm/RecognizerFSM.java:112-113 | a transition fires from s on e exactly when (s, e) is in the table; it is a registered one with that key and its target is the table's |
| Automaton.RunSnoc | fsm-normal/src/main/java/org/rossedth/fsm/RecognizerFSM.java:112-113 | running w then e is running w and taking one more step |
| Automaton.RunFromQ | fsm-normal/src/main/java/org/rossedth/fsm/RecognizerFSM.java:46-81 | from Q a word reaches R exactly when it is b, c, or a⁺b followed by a word that reaches R from Q |
| Automaton.RunFromP | fsm-normal/src/main/java/org/rossedth/fsm/RecognizerFSM.java:53-65 | from P a word reaches R exactly when it is a*b followed by a word that reaches R from Q |
| Automaton.RecognizedLanguage | fsm-normal/src/main/java/org/rossedth/fsm/RecognizerFSM.java:21-94 | from S the machine ends in R iff the events spell b(a⁺b)*(b\|c), in both directions |
| GraphVizBuffer.LinesTextAppend | fsm-normal/src/main/java/org/rossedth/fsm/GraphViz.java:87-89 | the text of addln over a + b is the text over a followed by the text over b |
| GraphVizBuffer.ConcatAppend | fsm-normal/src/main/java/org/rossedth/fsm/GraphViz.java:253-257 | joining a + b is joining a then joining b |
| GraphVizBuffer.ConcatHasNoBreak | fsm-normal/src/main/java/org/rossedth/fsm/GraphViz.java:253-257 | lines read without terminators join into a configs string with no line break |
| GraphVizBuffer.GraphViz.constructor | fsm-normal/src/main/java/org/rossedth/fsm/GraphViz.java:55-67 | a new buffer and configs string are both empty |
| GraphVizBuffer.GraphViz.GetDotSource | fsm-normal/src/main/java/org/rossedth/fsm/GraphViz.java:73-75 | returns the buffer's contents and changes nothing |
| GraphVizBuffer.GraphViz.GetConfigurations | fsm-normal/src/main/java/org/rossedth/fsm/GraphViz.java:262-264 | returns configs and changes nothing |
| GraphVizBuffer.GraphViz.Add | fsm-normal/src/main/java/org/rossedth/fsm/GraphViz.java:80-82 | appends the line with no line break; configs is unchanged |
| GraphVizBuffer.GraphViz.AddLine | fsm-normal/src/main/java/org/rossedth/fsm/GraphViz.java:87-89 | appends exactly line + "\n"; configs is unchanged |
| GraphVizBuffer.GraphViz.AddNewline | fsm-normal/src/main/java/org/rossedth/fsm/GraphViz.java:94-96 | appends exactly one line break; configs is unchanged |
| GraphVizBuffer.GraphViz.StartGraph | fsm-normal/src/main/java/org/rossedth/fsm/GraphViz.java:234-236 | returns "digraph G {\n" and has no effect on the buffer |
| GraphVizBuffer.GraphViz.EndGraph | fsm-normal/src/main/java/org/rossedth/fsm/GraphViz.java:242-244 | returns "}" and has no effect on the buffer |
| GraphVizBuffer.GraphViz.SetupGraph | fsm-normal/src/main/java/org/rossedth/fsm/GraphViz.java:246-261 | configs becomes its old value followed by the lines joined without terminators, and the buffer gains exactly that configs |
| GraphVizBuffer.GraphViz.SetNewGraph | fsm-normal/src/main/java/org/rossedth/fsm/GraphViz.java:266-271 | all earlier content is discarded; the buffer is "digraph G {\n\n" + configs + "\n" and configs is unchanged |
| DotGraph.NodeLine | fsm-normal/src/main/java/org/rossedth/fsm/RecognizerFSM.java:164-177 | a node line opens with two spaces and the state's name and closes with ";" |
| DotGraph.Label | fsm-normal/src/main/java/org/rossedth/fsm/RecognizerFSM.java:193 | the label is a tail of the transition's name, missing at least its first four characters |
| DotGraph.EdgeText | fsm-normal/src/main/java/org/rossedth/fsm/RecognizerFSM.java:197-201 | an edge line opens with two spaces and its source and closes with its label and "];", highlighted or not |
| DotGraph.EdgeLine | fsm-normal/src/main/java/org/rossedth/fsm/RecognizerFSM.java:191-202 | a transition's edge line opens with its source's name and closes with its label and "];" |
| DotGraph.MainEdges | fsm-normal/src/main/java/org/rossedth/fsm/RecognizerFSM.java:190-204 | the main edge list holds only transitions of the order whose target is not final |
| DotGraph.RankEdges | fsm-normal/src/main/java/org/rossedth/fsm/RecognizerFSM.java:206-220 | the rank block holds only transitions of the order whose target is final |
| DotGraph.RenderedNodes | fsm-normal/src/main/java/org/rossedth/fsm/RecognizerFSM.java:163-179 | the state loop writes the node lines, one per state, in iteration order |
| DotGraph.RenderedMainEdges | fsm-normal/src/main/java/org/rossedth/fsm/RecognizerFSM.java:190-204 | the first transition loop, with its guard, writes the edge lines of the transitions into non-final states |
| DotGraph.RenderedRankEdges | fsm-normal/src/main/java/org/rossedth/fsm/RecognizerFSM.java:207-220 | the second transition loop writes the edge lines of the transitions into final states |
| DotGraph.NodeLineMarkers | fsm-normal/src/main/java/org/rossedth/fsm/RecognizerFSM.java:164-177 | a node line starts with two spaces and the state's name; it contains doublecircle iff the state is final and fillcolor="#a9d18e" iff it is the current state |
| DotGraph.TransitionLabels | fsm-normal/src/main/java/org/rossedth/fsm/RecognizerFSM.java:193 | for every registered transition the substring after "with " is in range and is the event's letter, e.g. "b" for "S to Q with b" |
| DotGraph.NameLabel | fsm-normal/src/main/java/org/rossedth/fsm/RecognizerFSM.java:193 | a name of the form "X to Y with z" has label "z" |
| DotGraph.EdgeTextMarker | fsm-normal/src/main/java/org/rossedth/fsm/RecognizerFSM.java:197-202 | an edge line contains color="#a9d18e" iff it is written highlighted |
| DotGraph.EdgeLineMarker | fsm-normal/src/main/java/org/rossedth/fsm/RecognizerFSM.java:197-202 | a transition's edge line is coloured iff it is the last fired transition |
| DotGraph.EdgeLineNamesTransition | fsm-normal/src/main/java/org/rossedth/fsm/RecognizerFSM.java:191-201 | an edge line shows its source's name and ends with its event's letter before "];" |
| DotGraph.EdgeLinesDistinct | fsm-normal/src/main/java/org/rossedth/fsm/RecognizerFSM.java:190-204 | transitions with different keys get different edge lines |
| DotGraph.RegisteredTransitions | fsm-normal/src/main/java/org/rossedth/fsm/RecognizerFSM.java:39-92 | every registered transition is well labelled, and two registered transitions with the same key are the same |
| DotGraph.NodeLinesDistinct | fsm-normal/src/main/java/org/rossedth/fsm/RecognizerFSM.java:164-178 | different states get different node lines |
| DotGraph.NodeLinesFollowOrder | fsm-normal/src/main/java/org/rossedth/fsm/RecognizerFSM.java:163-179 | the node lines are one per state of the iteration, in that order |
| DotGraph.NodeLinesCount | fsm-normal/src/main/java/org/rossedth/fsm/RecognizerFSM.java:163-179 | a state's line occurs as often as the state is visited; filled lines count visits of the current state and double-circled lines visits of R |
| DotGraph.NodeHeadersUnmarked | fsm-normal/src/main/java/org/rossedth/fsm/RecognizerFSM.java:159-162 | the "# NODES" header and the point node o carry neither marker |
| DotGraph.NodeSectionLineOnce | fsm-normal/src/main/java/org/rossedth/fsm/RecognizerFSM.java:159-179 | when the iteration enumerates the states, each state's line occurs exactly once in the node section |
| DotGraph.NodeLineIsNoHeader | fsm-normal/src/main/java/org/rossedth/fsm/RecognizerFSM.java:159-178 | no node line equals the header or the point node |
| DotGraph.NodeSectionShape | fsm-normal/src/main/java/org/rossedth/fsm/RecognizerFSM.java:159-179 | the node section is the header, the point node, then one line per state; every state has exactly one line; exactly one line is filled and exactly one double-circled |
| DotGraph.FilterCounts | fsm-normal/src/main/java/org/rossedth/fsm/RecognizerFSM.java:190-220 | a transition goes to the main list or to the rank block according to its target, as often as the iteration yields it |
| DotGraph.EdgeLinesCount | fsm-normal/src/main/java/org/rossedth/fsm/RecognizerFSM.java:190-220 | a transition's edge line occurs as often as the transition does, and the coloured lines count occurrences of the last transition |
| DotGraph.EdgeHeadersUnmarked | fsm-normal/src/main/java/org/rossedth/fsm/RecognizerFSM.java:182-221 | the header, the entry edge and both rank-block delimiters are never coloured |
| DotGraph.EdgeSectionLineOnce | fsm-normal/src/main/java/org/rossedth/fsm/RecognizerFSM.java:190-220 | each transition of the iteration is drawn exactly once: in the main list when its target is not final, otherwise in the rank block |
| DotGraph.EdgeSectionMarked | fsm-normal/src/main/java/org/rossedth/fsm/RecognizerFSM.java:182-221 | exactly one edge line is coloured when a transition has fired, none before |
| DotGraph.EdgeLinesMarkedNone | fsm-normal/src/main/java/org/rossedth/fsm/RecognizerFSM.java:197-217 | with no last transition no edge line is coloured |
| DotGraph.EdgeSectionHead | fsm-normal/src/main/java/org/rossedth/fsm/RecognizerFSM.java:182-188 | the edge section opens with its header and the entry edge "  o -> S;" |
| DotGraph.EdgeSectionShape | fsm-normal/src/main/java/org/rossedth/fsm/RecognizerFSM.java:182-221 | every transition appears exactly once, placed by its target, and exactly one edge is coloured once something has fired |
| Recognizer.Classify | fsm-normal/src/main/java/org/rossedth/fsm/RecognizerFSM.java:101-109 | only a token whose trimmed text is one character can name an event |
| Recognizer.EventOf | fsm-normal/src/main/java/org/rossedth/fsm/RecognizerFSM.java:102-109 | the switch yields an event only for a single capital A, B or C, and nothing for "A", "B" or "C" is missed |
| Recognizer.ClassifyCases | fsm-normal/src/main/java/org/rossedth/fsm/RecognizerFSM.java:101-108 | a token names event X exactly when its trimmed text is "X" or "x"; every other token is unsupported |
| Recognizer.ClassifyIgnoresPadding | fsm-normal/src/main/java/org/rossedth/fsm/RecognizerFSM.java:101 | blanks and control characters around a token never change the event it names |
| Recognizer.PathTextShape | fsm-normal/src/main/java/org/rossedth/fsm/RecognizerFSM.java:243-252 | the path has two characters per symbol: a space before the first symbol, "-" before each later one, so b, a, b give " b-a-b" |
| Recognizer.RecognizesIffIntoFinal | fsm-normal/src/main/java/org/rossedth/fsm/RecognizerFSM.java:67-81 | the transition that fires carries the handler iff it enters the final state, which only Q on B or C does |
| Recognizer.SymbolsOfSnoc | fsm-normal/src/main/java/org/rossedth/fsm/RecognizerFSM.java:251 | accepting one more event appends exactly its symbol to the recorded symbols |
| Recognizer.PathStep | fsm-normal/src/main/java/org/rossedth/fsm/RecognizerFSM.java:243-252 | buildPath after one more accepted event yields the path text of the longer word: a ' ' before the first symbol, '-' before later ones |
| Recognizer.StepKeepsConsistent | fsm-normal/src/main/java/org/rossedth/fsm/RecognizerFSM.java:111-115 | firing a table transition and extending the path keeps the invariant between state, path, last transition, handler count and accepted events |
| Recognizer.RecognizerFsm.constructor | fsm-normal/src/main/java/org/rossedth/fsm/RecognizerFSM.java:21-97 | a new recognizer is at S with no last transition, an empty path and no handler run, and its invariant holds |
| Recognizer.RecognizerFsm.AtFinalState | fsm-normal/src/main/java/org/rossedth/fsm/RecognizerFSM.java:128-133 | true iff the current state is R |
| Recognizer.RecognizerFsm.TransitionExists | fsm-normal/src/main/java/org/rossedth/fsm/RecognizerFSM.java:135-148 | true iff some registered transition leaves the current state (not the argument) on e, equivalently iff (current, e) is in the table |
| Recognizer.RecognizerFsm.BuildPath | fsm-normal/src/main/java/org/rossedth/fsm/RecognizerFSM.java:243-252 | the old path is a prefix, followed by ' ' if it was empty and '-' otherwise, then the event's symbol; the length grows by 2 |
| Recognizer.RecognizerFsm.Fire | fsm-normal/src/main/java/org/rossedth/fsm/RecognizerFSM.java:113 | with a transition for (current, e) the state becomes its target, it becomes the last transition and its handler runs; without one nothing changes |
| Recognizer.RecognizerFsm.ProcessInput | fsm-normal/src/main/java/org/rossedth/fsm/RecognizerFSM.java:99-122 | an unsupported token changes nothing; an event with no transition from the current state changes nothing and reports that state; otherwise the state becomes the table target, the transition becomes the last one, the path becomes buildPath(e) and the handler runs iff Q goes to R |
| Recognizer.RecognizerFsm.GenGraph | fsm-normal/src/main/java/org/rossedth/fsm/RecognizerFSM.java:157-235 | the text written is the buffer's old content followed by the node section, the edge section and "}", one addln each; afterwards the buffer holds a fresh graph and configs is unchanged |
| Recognizer.RecognizerFsm.WriteNodeSection | fsm-normal/src/main/java/org/rossedth/fsm/RecognizerFSM.java:159-179 | appends the node header, the point node and one node line per state |
| Recognizer.RecognizerFsm.WriteEdgeSection | fsm-normal/src/main/java/org/rossedth/fsm/RecognizerFSM.java:182-221 | appends the edge header, the entry edge, the main edge lines and the rank block |
| Recognizer.AppendHeaded | fsm-normal/src/main/java/org/rossedth/fsm/RecognizerFSM.java:159-179 | two addln calls then the loop: the buffer gains exactly the two opening lines and the rendered items, configs unchanged |
| Recognizer.AppendBlock | fsm-normal/src/main/java/org/rossedth/fsm/RecognizerFSM.java:206-221 | the rank block: the buffer gains exactly the opening line, the rendered items and the closing line, configs unchanged |
| Recognizer.AppendEach | fsm-normal/src/main/java/org/rossedth/fsm/RecognizerFSM.java:190-204 | a guarded loop appends, in order, the rendered line of every item that passes the guard |
| Recognizer.AcceptsIffInLanguage | fsm-normal/src/main/java/org/rossedth/fsm/RecognizerFSM.java:128-133 | a recognizer is in its final state exactly when the events it has accepted spell b(a⁺b)*(b\|c) |
| Recognizer.PathRecordsAccepted | fsm-normal/src/main/java/org/rossedth/fsm/RecognizerFSM.java:243-252 | the path shows the accepted events' symbols in order, each after one separator character |
| Recognizer.DiagramOfMachine | fsm-normal/src/main/java/org/rossedth/fsm/RecognizerFSM.java:157-221 | the diagram of a machine fills exactly one node, the current state's, and colours exactly the last fired edge once something has fired, none before |

## Left out

- The `org.jeasy.states` library is not part of this model. `FiniteStateMachineBuilder`, `fire`, `getCurrentState` and `getLastTransition` are replaced by the constant transition list, the explicit table and the fields of `RecognizerFsm`. `Fire` is the library's firing reduced to table lookup, handler and state update. The library's logging and exceptions are never exercised by the code and are not modelled.
- `getFSM` returns the library object and is not modelled.
- `printCurrentState` is console output plus a call of `genGraph`, and is not modelled beyond `GenGraph`.
- Console messages (`System.out.println`) are not printed. `ProcessInput` returns them as an `InputOutcome` value.
- The `FSM.dot` file write in `genGraph`, and its `IOException`, are left out. `GenGraph` returns the DOT text that would be written.
- The `Recognized` handler only prints. It becomes the `recognized` counter, which grows by one per firing of a transition into R.
- `AEvent`, `BEvent` and `CEvent` are not part of this model. The first character of each event's name is the recognizer's `symbol` parameter.
- The `HashSet` iteration orders of states and transitions are unspecified. `GenGraph` takes them as `stateOrder` and `transitionOrder`. The DOT facts are stated per element and per section for any orders that enumerate the sets.
- `TransitionExists` scans the transitions in registration order. Its result does not depend on the order.
- Object identity (`s == fsm.getCurrentState()`, `getLastTransition() == t`) is value equality. The six transitions all differ (`DotGraph.RegisteredTransitions`).
- `GraphViz.getGraph`, `get_img_stream`, `writeGraphToFile`, `saveToPNG`, `writeDotSourceToFile` and the `DOT` path run the external renderer and handle files. They are not modelled.
- In `setup_graph`, the resource reading is not modelled. `SetupGraph` takes the lines the reader would yield.
- `App.java` is a console loop and is not modelled.
- JavaString.ToUpper: upper-cases only the ASCII letters a–z. Java's toUpperCase also maps non-ASCII characters, can lengthen a string ("ß" becomes "SS"), and maps "ı" (U+0131) to "I" and "ſ" (U+017F) to "S". None of these produces "A", "B" or "C", so the switch on the upper-cased token classifies every token as Java does.
- JavaString.Trim: trims characters up to U+0020, as `String.trim` does. No Unicode whitespace beyond that is considered.
- Recognizer.RecognizerFsm.GenGraph: requires that every label substring is in range, that is, `indexOf("with") + 5` is within the name. Otherwise Java's `substring` throws. Every registered name satisfies it (`DotGraph.TransitionLabels`).
- Recognizer.RecognizerFsm.TransitionExists: ignores its state argument, as the Java method does.
- `buildPath` writes a space before a symbol when the path is empty and "-" otherwise, so after b, a, b the path is " b-a-b" with a leading space.
