/** `write_graph_to_file` (experiments/run_experiments.py:64-70) as the text
    it writes: the header `n len(edges)`, one `u v w` line per edge in list
    order, then the source, each line ending with a newline. How `:.4f`
    prints a weight is the parameter `fmt`. */
module GraphFile {
  import opened Text
  import opened Generator

  /** The header line: the node count and the number of edges written. */
  function Header(n: int, count: int): string {
    IntToString(n) + " " + IntToString(count)
  }

  /** The line of one edge. */
  function EdgeLine(e: WEdge, fmt: real -> string): string {
    IntToString(e.0) + " " + IntToString(e.1) + " " + fmt(e.2)
  }

  /** The edge lines in list order. */
  function EdgeLines(edges: seq<WEdge>, fmt: real -> string): seq<string> {
    seq(|edges|, i requires 0 <= i < |edges| => EdgeLine(edges[i], fmt))
  }

  /** A text without newlines. */
  predicate OneLine(s: string) {
    '\n' !in s
  }

  /** The lines of the file. */
  function GraphLines(n: int, edges: seq<WEdge>, source: int, fmt: real -> string): seq<string> {
    [Header(n, |edges|)] + EdgeLines(edges, fmt) + [IntToString(source)]
  }

  /** The lines, each followed by a newline, as successive `f.write` calls
      leave them. */
  function Written(lines: seq<string>): string
    decreases |lines|
  {
    if lines == [] then "" else Written(lines[..|lines| - 1]) + lines[|lines| - 1] + "\n"
  }

  /** The contents of the file. */
  function GraphText(n: int, edges: seq<WEdge>, source: int, fmt: real -> string): string {
    Written(GraphLines(n, edges, source, fmt))
  }

  /** `write_graph_to_file(filepath, n, edges, source)`, returning what it
      writes to the file. */
  method WriteGraph(n: int, edges: seq<WEdge>, source: int, fmt: real -> string) returns (text: string)
    ensures text == GraphText(n, edges, source, fmt)
  {
    var header := Header(n, |edges|);
    text := header + "\n";
    WrittenHeader(header, edges, fmt);
    for i := 0 to |edges|
      invariant text == Written([header] + EdgeLines(edges[..i], fmt))
    {
      var line := EdgeLine(edges[i], fmt);
      WrittenEdge(header, edges, i, fmt);
      text := text + line + "\n";
    }
    var last := IntToString(source);
    WrittenGraph(n, edges, source, fmt);
    text := text + last + "\n";
  }

  /** Before any edge, the file holds the header line. */
  lemma WrittenHeader(header: string, edges: seq<WEdge>, fmt: real -> string)
    ensures Written([header] + EdgeLines(edges[..0], fmt)) == header + "\n"
  {
    assert [header] + EdgeLines(edges[..0], fmt) == [] + [header];
    WrittenStep([], header);
  }

  /** Writing edge `i` appends its line. */
  lemma WrittenEdge(header: string, edges: seq<WEdge>, i: nat, fmt: real -> string)
    requires i < |edges|
    ensures Written([header] + EdgeLines(edges[..i + 1], fmt)) ==
            Written([header] + EdgeLines(edges[..i], fmt)) + EdgeLine(edges[i], fmt) + "\n"
  {
    var lines := [header] + EdgeLines(edges[..i], fmt);
    EdgeLinesStep(edges, i, fmt);
    assert [header] + EdgeLines(edges[..i + 1], fmt) == lines + [EdgeLine(edges[i], fmt)];
    WrittenStep(lines, EdgeLine(edges[i], fmt));
  }

  /** Once every edge line is written, the source line completes the file. */
  lemma WrittenGraph(n: int, edges: seq<WEdge>, source: int, fmt: real -> string)
    ensures Written([Header(n, |edges|)] + EdgeLines(edges[..|edges|], fmt)) + IntToString(source) + "\n" ==
            GraphText(n, edges, source, fmt)
  {
    WrittenStep([Header(n, |edges|)] + EdgeLines(edges[..|edges|], fmt), IntToString(source));
    assert edges[..|edges|] == edges;
  }

  /** Writing one more line appends it and a newline. */
  lemma WrittenStep(lines: seq<string>, line: string)
    ensures Written(lines + [line]) == Written(lines) + line + "\n"
  {
    assert (lines + [line])[..|lines|] == lines;
  }

  /** The edge lines of one more edge end with that edge's line. */
  lemma EdgeLinesStep(edges: seq<WEdge>, i: nat, fmt: real -> string)
    requires i < |edges|
    ensures EdgeLines(edges[..i + 1], fmt) == EdgeLines(edges[..i], fmt) + [EdgeLine(edges[i], fmt)]
  {
    var a, b := EdgeLines(edges[..i + 1], fmt), EdgeLines(edges[..i], fmt) + [EdgeLine(edges[i], fmt)];
    forall k | 0 <= k < |a| ensures a[k] == b[k] {
      assert edges[..i + 1][k] == edges[k];
    }
    assert a == b;
  }

  /** Written lines are the lines joined at newlines, plus a final newline. */
  lemma {:induction false} WrittenIsJoin(lines: seq<string>)
    requires |lines| > 0
    ensures Written(lines) == Join(lines, '\n') + "\n"
    decreases |lines|
  {
    var init := lines[..|lines| - 1];
    if |init| > 0 {
      WrittenIsJoin(init);
      JoinAppend(init, lines[|lines| - 1], '\n');
      assert init + [lines[|lines| - 1]] == lines;
    }
  }

  /** An edge line holds a newline only if the weight's text does. */
  lemma EdgeLineIsOneLine(e: WEdge, fmt: real -> string)
    requires OneLine(fmt(e.2))
    ensures OneLine(EdgeLine(e, fmt))
  {
    IntToStringHasNo(e.0, '\n');
    IntToStringHasNo(e.1, '\n');
  }

  /** The header and the source line hold no newline. */
  lemma HeaderIsOneLine(n: int, count: int, source: int)
    ensures OneLine(Header(n, count)) && OneLine(IntToString(source))
  {
    IntToStringHasNo(n, '\n');
    IntToStringHasNo(count, '\n');
    IntToStringHasNo(source, '\n');
  }

  /** No weight text holds a newline: no line does. */
  lemma LinesAreOneLine(n: int, edges: seq<WEdge>, source: int, fmt: real -> string)
    requires forall w :: OneLine(fmt(w))
    ensures forall i :: 0 <= i < |GraphLines(n, edges, source, fmt)| ==> OneLine(GraphLines(n, edges, source, fmt)[i])
  {
    var body := EdgeLines(edges, fmt);
    HeaderIsOneLine(n, |edges|, source);
    forall i | 0 <= i < |body| ensures OneLine(body[i]) {
      var w := edges[i].2;
      assert OneLine(fmt(w));
      EdgeLineIsOneLine(edges[i], fmt);
    }
    AllOneLine(Header(n, |edges|), body, IntToString(source));
  }

  /** A header, a body and a last line without newlines. */
  lemma AllOneLine(first: string, body: seq<string>, last: string)
    requires OneLine(first) && OneLine(last) && forall i :: 0 <= i < |body| ==> OneLine(body[i])
    ensures forall i :: 0 <= i < |[first] + body + [last]| ==> OneLine(([first] + body + [last])[i])
  {
    var all := [first] + body + [last];
    forall i | 0 <= i < |all| ensures OneLine(all[i]) {
      if 0 < i < |all| - 1 {
        assert all[i] == body[i - 1];
      }
    }
  }

  /** Cutting the file at newlines gives its lines and the empty rest after
      the last newline. */
  lemma GraphFileSplits(n: int, edges: seq<WEdge>, source: int, fmt: real -> string)
    requires forall w :: OneLine(fmt(w))
    ensures Split(GraphText(n, edges, source, fmt), '\n') == GraphLines(n, edges, source, fmt) + [""]
  {
    var lines := GraphLines(n, edges, source, fmt);
    WrittenIsJoin(lines);
    JoinAppend(lines, "", '\n');
    assert GraphText(n, edges, source, fmt) == Join(lines + [""], '\n');
    LinesAreOneLine(n, edges, source, fmt);
    assert forall i :: 0 <= i < |lines + [""]| ==> '\n' !in (lines + [""])[i] by {
      forall i | 0 <= i < |lines + [""]| ensures '\n' !in (lines + [""])[i] {
        if i < |lines| {
          assert OneLine(lines[i]);
        }
      }
    }
    SplitJoin(lines + [""], '\n');
  }

  /** The file's lines are the header counting the edges actually listed,
      the edge lines in list order, the source, and the empty rest after the
      last newline. */
  lemma GraphFileLines(n: int, edges: seq<WEdge>, source: int, fmt: real -> string)
    requires forall w :: OneLine(fmt(w))
    ensures var lines := Split(GraphText(n, edges, source, fmt), '\n');
            |lines| == |edges| + 3 &&
            lines[0] == Header(n, |edges|) &&
            (forall i :: 0 <= i < |edges| ==> lines[i + 1] == EdgeLine(edges[i], fmt)) &&
            lines[|edges| + 1] == IntToString(source) &&
            lines[|edges| + 2] == ""
  {
    var lines := Split(GraphText(n, edges, source, fmt), '\n');
    var body := EdgeLines(edges, fmt);
    GraphFileSplits(n, edges, source, fmt);
    assert lines == [Header(n, |edges|)] + body + [IntToString(source)] + [""];
    LinesShape(Header(n, |edges|), body, IntToString(source));
    forall i | 0 <= i < |edges| ensures lines[i + 1] == EdgeLine(edges[i], fmt) {
      assert body[i] == EdgeLine(edges[i], fmt);
    }
  }

  /** A first line, a body and a last line, followed by the empty rest,
      position by position. */
  lemma LinesShape(first: string, body: seq<string>, last: string)
    ensures var lines := [first] + body + [last] + [""];
            |lines| == |body| + 3 && lines[0] == first &&
            (forall i :: 0 <= i < |body| ==> lines[i + 1] == body[i]) &&
            lines[|body| + 1] == last && lines[|body| + 2] == ""
  {
  }

  /** The header reads back as `n` and the number of edges listed (not the
      requested `m`), and the last line as the source. */
  lemma HeaderReadsBack(n: int, edges: seq<WEdge>, source: int)
    ensures Split(Header(n, |edges|), ' ') == [IntToString(n), IntToString(|edges|)]
    ensures ParseInt(IntToString(n)) == Some(n) && ParseInt(IntToString(|edges|)) == Some(|edges|)
    ensures ParseInt(IntToString(source)) == Some(source)
  {
    IntToStringHasNo(n, ' ');
    IntToStringHasNo(|edges|, ' ');
    SplitFirst(IntToString(n), IntToString(|edges|), ' ');
    SplitPlain(IntToString(|edges|), ' ');
    IntToStringRoundTrip(n);
    IntToStringRoundTrip(|edges|);
    IntToStringRoundTrip(source);
  }

  /** An edge line reads back as its two ends and the weight's text when the
      weight's text holds no space. */
  lemma EdgeLineReadsBack(e: WEdge, fmt: real -> string)
    requires ' ' !in fmt(e.2)
    ensures Split(EdgeLine(e, fmt), ' ') == [IntToString(e.0), IntToString(e.1), fmt(e.2)]
    ensures ParseInt(IntToString(e.0)) == Some(e.0) && ParseInt(IntToString(e.1)) == Some(e.1)
  {
    IntToStringHasNo(e.0, ' ');
    IntToStringHasNo(e.1, ' ');
    var a, b, c := IntToString(e.0), IntToString(e.1), fmt(e.2);
    assert EdgeLine(e, fmt) == a + [' '] + (b + [' '] + c);
    SplitFirst(a, b + [' '] + c, ' ');
    SplitFirst(b, c, ' ');
    SplitPlain(c, ' ');
    IntToStringRoundTrip(e.0);
    IntToStringRoundTrip(e.1);
  }
}
