/**
  The text buffer of the GraphViz helper: the DOT source being assembled and the
  configuration lines loaded once at start-up. Running the external `dot`
  renderer and all file handling are not part of this model.
 */
module GraphVizBuffer {

  /** The text that opens a graph. */
  const GraphOpening: string := "digraph G {\n"

  /** The text that closes a graph. */
  const GraphClosing: string := "}"

  /** The lines joined with nothing between them, accumulated from the first to the last. */
  function Concat(lines: seq<string>): string
    decreases |lines|
  {
    if lines == [] then "" else Concat(lines[..|lines| - 1]) + lines[|lines| - 1]
  }

  /** The text that addln(l) for each l of lines, in order, appends. */
  function LinesText(lines: seq<string>): string
    decreases |lines|
  {
    if lines == [] then "" else LinesText(lines[..|lines| - 1]) + lines[|lines| - 1] + "\n"
  }

  lemma {:induction false} ConcatAppend(a: seq<string>, b: seq<string>)
    ensures Concat(a + b) == Concat(a) + Concat(b)
    decreases |b|
  {
    if b == [] {
      assert a + b == a;
    } else {
      var init, x := b[..|b| - 1], b[|b| - 1];
      assert (a + b)[..|a + b| - 1] == a + init;
      assert (a + b)[|a + b| - 1] == x;
      ConcatAppend(a, init);
      assert Concat(a + b) == Concat(a + init) + x;
      assert Concat(b) == Concat(init) + x;
    }
  }

  lemma {:induction false} LinesTextAppend(a: seq<string>, b: seq<string>)
    ensures LinesText(a + b) == LinesText(a) + LinesText(b)
    decreases |b|
  {
    if b == [] {
      assert a + b == a;
    } else {
      assert (a + b)[..|a + b| - 1] == a + b[..|b| - 1];
      LinesTextAppend(a, b[..|b| - 1]);
    }
  }

  lemma LinesTextSnoc(lines: seq<string>, line: string)
    ensures LinesText(lines + [line]) == LinesText(lines) + line + "\n"
  {
    assert (lines + [line])[..|lines|] == lines;
  }

  /** Text g followed by the lines and one more line, grouped as successive appends. */
  lemma AfterLinesSnoc(g: string, lines: seq<string>, line: string)
    ensures g + LinesText(lines + [line]) == g + LinesText(lines) + line + "\n"
  {
    LinesTextSnoc(lines, line);
  }

  /** The text genGraph leaves: the node lines, the edge lines and the closing line after g. */
  lemma AfterDocument(g: string, nodes: seq<string>, edges: seq<string>, closing: string)
    ensures g + LinesText(nodes + edges + [closing]) == g + LinesText(nodes) + LinesText(edges) + closing + "\n"
  {
    AfterLinesSnoc(g, nodes + edges, closing);
    AfterLinesAppend(g, nodes, edges);
  }

  /** Text g followed by the lines of a and then those of b, grouped as successive appends. */
  lemma AfterLinesAppend(g: string, a: seq<string>, b: seq<string>)
    ensures g + LinesText(a + b) == g + LinesText(a) + LinesText(b)
  {
    LinesTextAppend(a, b);
  }

  /** Joining lines read without their terminators keeps the text free of line breaks. */
  lemma {:induction false} ConcatHasNoBreak(lines: seq<string>, c: char)
    requires forall i :: 0 <= i < |lines| ==> c !in lines[i]
    ensures c !in Concat(lines)
    decreases |lines|
  {
    if lines != [] {
      ConcatHasNoBreak(lines[..|lines| - 1], c);
    }
  }

  class GraphViz {
    /** The DOT source built so far (a StringBuffer in the Java class). */
    var graph: string
    /** The configuration lines, joined. */
    var configs: string

    constructor ()
      ensures graph == "" && configs == ""
    {
      graph := "";
      configs := "";
    }

    /** The buffer's contents; nothing changes. */
    method GetDotSource() returns (source: string)
      ensures source == graph
    {
      source := graph;
    }

    /** The joined configuration lines; nothing changes. */
    method GetConfigurations() returns (c: string)
      ensures c == configs
    {
      c := configs;
    }

    /** Appends line with no line break. */
    method Add(line: string)
      modifies this
      ensures graph == old(graph) + line
      ensures configs == old(configs)
    {
      graph := graph + line;
    }

    /** Appends line followed by one line break. */
    method AddLine(line: string)
      modifies this
      ensures graph == old(graph) + line + "\n"
      ensures configs == old(configs)
    {
      graph := graph + (line + "\n");
    }

    /** Appends a single line break. */
    method AddNewline()
      modifies this
      ensures graph == old(graph) + "\n"
      ensures configs == old(configs)
    {
      graph := graph + ['\n'];
    }

    /** The text that opens a graph; the buffer is not touched. */
    method StartGraph() returns (opening: string)
      ensures opening == "digraph G {\n"
    {
      opening := GraphOpening;
    }

    /** The text that closes a graph; the buffer is not touched. */
    method EndGraph() returns (closing: string)
      ensures closing == "}"
    {
      closing := GraphClosing;
    }

    /**
      Joins the configuration lines onto configs, then appends configs to the
      buffer. The lines stand for what the resource reader yields, terminators
      already dropped.
     */
    method SetupGraph(lines: seq<string>)
      modifies this
      ensures configs == old(configs) + Concat(lines)
      ensures graph == old(graph) + configs
    {
      var i := 0;
      while i < |lines|
        invariant 0 <= i <= |lines|
        invariant configs == old(configs) + Concat(lines[..i])
        invariant graph == old(graph)
      {
        assert lines[..i + 1][..i] == lines[..i];
        configs := configs + lines[i];
        i := i + 1;
      }
      assert lines[..i] == lines;
      graph := graph + configs;
    }

    /** Discards the buffer and starts a new graph holding the opening text and configs. */
    method SetNewGraph()
      modifies this
      ensures graph == "digraph G {\n\n" + configs + "\n"
      ensures configs == old(configs)
    {
      graph := "";
      var opening := StartGraph();
      AddLine(opening);
      AddLine(configs);
    }
  }
}
