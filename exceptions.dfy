/** The parser error of topchem: the fields a failed parse leaves behind, the
    context line cut around the failure offset with a pointer under it, and the
    multi-line diagnostic built from them. */
module Exceptions {
  import opened Wrappers
  import opened PyStr

  /** Default number of characters read on each side of the failure. */
  const DefaultSpan: int := 60
  /** The marker the pointer ends with. */
  const Marker: string := "^~~~"
  /** The tab stop str.expandtabs uses by default. */
  const TabSize: int := 8
  /** The line that introduces the list of expected inputs. */
  const ExpectedTitle: string := "Expected input:"

  function Max(a: int, b: int): int { if a >= b then a else b }
  function Min(a: int, b: int): int { if a <= b then a else b }

  // ---------------------------------------------------------------------------
  // Context window
  // ---------------------------------------------------------------------------

  /** `before`: the text at most span characters before pos, cut after its
      last line feed. */
  function ContextBefore(stream: string, pos: int, span: int): (r: string)
    ensures '\n' !in r
  {
    var window := Slice(stream, Max(pos - span, 0), pos);
    AfterLastIsLastPiece(window, '\n');
    AfterLast(window, '\n')
  }

  /** `after`: the text at most span characters from pos on, cut before its
      first line feed. */
  function ContextAfter(stream: string, pos: int, span: int): (r: string)
    ensures '\n' !in r
  {
    var window := Slice(stream, pos, pos + span);
    BeforeFirstIsFirstPiece(window, '\n');
    BeforeFirst(window, '\n')
  }

  /** Where the context line starts, for an offset inside the stream: just
      after the last line feed before the offset, but no further back than
      span characters. */
  function LineStart(stream: string, pos: int, span: int): (r: int)
    requires 0 <= pos <= |stream| && 0 <= span
    ensures 0 <= r <= pos && pos - span <= r
  {
    Max(Max(pos - span, 0), LastIndex(stream, '\n', pos) + 1)
  }

  /** Where the context line ends, for an offset inside the stream: at the
      first line feed from the offset on, but no further than span characters
      on. */
  function LineEnd(stream: string, pos: int, span: int): (r: int)
    requires 0 <= pos <= |stream| && 0 <= span
    ensures pos <= r <= |stream| && r <= pos + span
  {
    Min(Min(pos + span, |stream|), FirstIndex(stream, '\n', pos))
  }

  /** `before` is the stream from the line start up to the offset. */
  lemma BeforeFromLineStart(stream: string, pos: int, span: int)
    requires 0 <= pos <= |stream| && 0 <= span
    ensures ContextBefore(stream, pos, span) == stream[LineStart(stream, pos, span)..pos]
  {
    var a := Max(pos - span, 0);
    SliceTo(stream, a, pos);
    assert Slice(stream, a, pos) == stream[a..pos];
    AfterLastOfSlice(stream, '\n', a, pos);
    var m := LastIndex(stream, '\n', pos);
    assert LineStart(stream, pos, span) == if m + 1 >= a then m + 1 else a;
  }

  /** `after` is the stream from the offset up to the line end. */
  lemma AfterToLineEnd(stream: string, pos: int, span: int)
    requires 0 <= pos <= |stream| && 0 <= span
    ensures ContextAfter(stream, pos, span) == stream[pos..LineEnd(stream, pos, span)]
  {
    SliceFrom(stream, pos, pos + span);
    BeforeFirstOfSlice(stream, '\n', pos, Min(pos + span, |stream|));
  }

  /** The context line is the longest stretch around the offset, at most span
      characters on either side, that crosses no line feed: it holds none,
      and each end is either the window's edge (or the stream's) or a line
      feed. */
  lemma LineBounds(stream: string, pos: int, span: int)
    requires 0 <= pos <= |stream| && 0 <= span
    ensures forall k :: LineStart(stream, pos, span) <= k < LineEnd(stream, pos, span) ==> stream[k] != '\n'
    ensures LineStart(stream, pos, span) == Max(pos - span, 0)
            || stream[LineStart(stream, pos, span) - 1] == '\n'
    ensures LineEnd(stream, pos, span) == Min(pos + span, |stream|)
            || stream[LineEnd(stream, pos, span)] == '\n'
  {
    LastIndexIsLast(stream, '\n', pos);
    FirstIndexIsFirst(stream, '\n', pos);
  }

  /** For an offset inside the stream, `before` and `after` meet at the
      offset: the context line is the stream from the line start to the line
      end. */
  lemma ContextIsSlice(stream: string, pos: int, span: int)
    requires 0 <= pos <= |stream| && 0 <= span
    ensures ContextBefore(stream, pos, span) + ContextAfter(stream, pos, span)
            == stream[LineStart(stream, pos, span)..LineEnd(stream, pos, span)]
  {
    BeforeFromLineStart(stream, pos, span);
    AfterToLineEnd(stream, pos, span);
    SliceJoin(stream, LineStart(stream, pos, span), pos, LineEnd(stream, pos, span));
  }

  /** The pointer under a context line whose part before the failure is
      `before`: as many spaces as `before` is wide once its tabs are
      expanded, then the marker. */
  function Pointer(before: string): (p: string)
    ensures |p| >= |Marker| && p[|p| - |Marker|..] == Marker
    ensures forall i :: 0 <= i < |p| - |Marker| ==> p[i] == ' '
    ensures '\n' !in p
  {
    var n := |ExpandTabs(before, TabSize)|;
    assert (Spaces(n) + Marker)[n..] == Marker;
    Spaces(n) + Marker
  }

  /** Without a tab in `before` the pointer is indented by exactly its length. */
  lemma PointerWithoutTabs(before: string)
    requires '\t' !in before
    ensures Pointer(before) == Spaces(|before|) + Marker
  {
    NoTabUnchanged(before, TabSize, 0);
  }

  /** On one display line the pointer is indented to the column that
      expanding the tabs of `before` ends at. */
  lemma PointerIndentIsColumn(before: string)
    requires '\n' !in before && '\r' !in before
    ensures |Pointer(before)| - |Marker| == EndColumn(before, TabSize, 0)
  {
    ColumnIsWidth(before, TabSize, 0);
  }

  /** Tabs only widen: the indentation is never less than the length of
      `before`. */
  lemma PointerNotShorter(before: string)
    ensures |Pointer(before)| - |Marker| >= |before|
  {
    ExpansionNotShorter(before, TabSize, 0);
  }

  /** A lone tab before the failure leaves `before` as that tab and the rest
      of the line as `after` ... */
  lemma LeadingTabContext()
    ensures ContextBefore("\t;c\n", 1, DefaultSpan) == "\t"
    ensures ContextAfter("\t;c\n", 1, DefaultSpan) == ";c"
  {
    var before := ContextBefore("\t;c\n", 1, DefaultSpan);
    assert |before| == 1;
    var after := ContextAfter("\t;c\n", 1, DefaultSpan);
    assert "\t;c\n"[1..4] == ";c\n";
    assert |after| == 2;
  }

  /** ... and the pointer for that lone tab is indented by one full tab
      stop. */
  lemma LeadingTabPointer()
    ensures Pointer("\t") == Spaces(8) + Marker
  {
    assert ExpandTabs("\t", TabSize) == Spaces(8) + ExpandTabsFrom([], TabSize, 8);
  }


  /** With the sentinel offset -1 (no position known) on a stream that ends in
      a line feed, as every parsed content does, the slices wrap around from the
      end: for every span that is not negative, nothing follows the failure,
      and what precedes it is what follows the last line feed before the final
      one, however long (empty when the stream ends in two line feeds). */
  lemma SentinelContext(stream: string, span: int)
    requires |stream| >= 1 && stream[|stream| - 1] == '\n'
    requires span >= 0
    ensures ContextAfter(stream, -1, span) == []
    ensures ContextBefore(stream, -1, span) == AfterLast(stream[..|stream| - 1], '\n')
  {
    var n := |stream|;
    assert Slice(stream, Max(-1 - span, 0), -1) == stream[..n - 1];
    var w := Slice(stream, -1, -1 + span);
    assert w == [] || w == stream[n - 1..];
    assert stream[n - 1..] == "\n";
  }

  // ---------------------------------------------------------------------------
  // Message
  // ---------------------------------------------------------------------------

  /** First line of the diagnostic. */
  function Header(parserType: string, fileName: string, line: int, column: int): (r: string)
    ensures '\n' !in parserType && '\n' !in fileName ==> '\n' !in r
  {
    assert '\n' !in " error while reading " && '\n' !in " at line " && '\n' !in ", column ";
    parserType + " error while reading " + fileName
    + " at line " + IntToDecimal(line) + ", column " + IntToDecimal(column) + ":"
  }

  /** The label in front of the context line: the line number, then ": ".
      It is one line and at least three characters wide. */
  function LineLabel(line: int): (r: string)
    ensures |r| >= 3 && '\n' !in r
  {
    IntToDecimal(line) + ": "
  }

  /** The label ends in ": ", and what precedes that reads back as the line
      number. */
  lemma LabelReadsBack(line: int)
    ensures var r := LineLabel(line);
      r[|r| - 2..] == ": " && ParseDecimal(r[..|r| - 2]) == line
  {
    var digits := IntToDecimal(line);
    IntToDecimalRoundTrip(line);
    assert (digits + ": ")[..|digits|] == digits;
  }

  /** One "- entry" line per expected input, in order. */
  function Bullets(expected: seq<string>): (r: seq<string>)
    ensures |r| == |expected|
    ensures forall i :: 0 <= i < |r| ==> r[i] == "- " + expected[i]
  {
    if expected == [] then []
    else Bullets(expected[..|expected| - 1]) + ["- " + expected[|expected| - 1]]
  }

  /** The first three lines: header, labelled context line, and the pointer
      indented by the label width. */
  function MessageHead(parserType: string, fileName: string, line: int, column: int,
                       context: (string, string)): seq<string>
  {
    [Header(parserType, fileName, line, column),
     LineLabel(line) + context.0,
     Spaces(|LineLabel(line)|) + context.1]
  }

  /** The expected inputs under a title, or nothing when there are none. */
  function ExpectedLines(expected: seq<string>): seq<string>
  {
    if expected == [] then [] else [ExpectedTitle] + Bullets(expected)
  }

  /** The lines of the diagnostic, in order. */
  function MessageLines(parserType: string, fileName: string, line: int, column: int,
                        context: (string, string), expected: seq<string>): (r: seq<string>)
    ensures |r| == if expected == [] then 3 else 4 + |expected|
  {
    MessageHead(parserType, fileName, line, column, context) + ExpectedLines(expected)
  }

  /** The diagnostic has 3 lines without expected inputs and 4 plus one per
      expected input with them: header, labelled context line, pointer under
      it, then the title and one "- entry" line per expected input. */
  lemma MessageLayout(parserType: string, fileName: string, line: int, column: int,
                      context: (string, string), expected: seq<string>)
    ensures var r := MessageLines(parserType, fileName, line, column, context, expected);
      && |r| == (if expected == [] then 3 else 4 + |expected|)
      && r[0] == Header(parserType, fileName, line, column)
      && r[1] == LineLabel(line) + context.0
      && r[2] == Spaces(|LineLabel(line)|) + context.1
      && (expected != [] ==> r[3] == ExpectedTitle)
      && (forall i :: 0 <= i < |expected| ==> r[4 + i] == "- " + expected[i])
  {
  }

  /** No line of `lines` holds a line feed. */
  predicate NoLineFeeds(lines: seq<string>)
  {
    forall i :: 0 <= i < |lines| ==> '\n' !in lines[i]
  }

  /** Two lists of lines without line feeds make one. */
  lemma NoLineFeedsConcat(a: seq<string>, b: seq<string>)
    requires NoLineFeeds(a) && NoLineFeeds(b)
    ensures NoLineFeeds(a + b)
  {
    assert forall i :: |a| <= i < |a + b| ==> (a + b)[i] == b[i - |a|];
  }

  /** The first three lines hold no line feed when the parser name, the file
      name and the context hold none. */
  lemma HeadHasNoLineFeeds(parserType: string, fileName: string, line: int, column: int,
                           context: (string, string))
    requires '\n' !in parserType && '\n' !in fileName
    requires '\n' !in context.0 && '\n' !in context.1
    ensures NoLineFeeds(MessageHead(parserType, fileName, line, column, context))
  {
    var lab := LineLabel(line);
    assert '\n' !in lab + context.0;
    assert '\n' !in Spaces(|lab|) + context.1;
  }

  /** The title and the bullets hold no line feed when no expected input
      does. */
  lemma ExpectedLinesHaveNoLineFeeds(expected: seq<string>)
    requires NoLineFeeds(expected)
    ensures NoLineFeeds(ExpectedLines(expected))
  {
    var tail := ExpectedLines(expected);
    forall i | 0 <= i < |tail|
      ensures '\n' !in tail[i]
    {
      if i >= 1 {
        assert tail[i] == Bullets(expected)[i - 1] == "- " + expected[i - 1];
        assert '\n' !in "- " && '\n' !in expected[i - 1];
      }
    }
  }

  /** When no field holds a line feed, splitting the rendered diagnostic at
      line feeds gives back exactly its lines. */
  lemma RenderedLines(parserType: string, fileName: string, line: int, column: int,
                      context: (string, string), expected: seq<string>)
    requires '\n' !in parserType && '\n' !in fileName
    requires '\n' !in context.0 && '\n' !in context.1
    requires NoLineFeeds(expected)
    ensures var lines := MessageLines(parserType, fileName, line, column, context, expected);
      Split(Join(lines, "\n"), '\n') == lines
  {
    var head := MessageHead(parserType, fileName, line, column, context);
    var tail := ExpectedLines(expected);
    HeadHasNoLineFeeds(parserType, fileName, line, column, context);
    ExpectedLinesHaveNoLineFeeds(expected);
    NoLineFeedsConcat(head, tail);
    SplitJoin(head + tail, '\n');
  }

  /** One pass of the loop that appends the expected inputs: adding the next
      bullet extends the bullets of the prefix read so far. */
  lemma BulletStep(head: seq<string>, expected: seq<string>, i: int)
    requires 0 <= i < |expected|
    ensures head + ([ExpectedTitle] + Bullets(expected[..i])) + ["- " + expected[i]]
            == head + ([ExpectedTitle] + Bullets(expected[..i + 1]))
  {
    assert expected[..i + 1][..i] == expected[..i];
  }

  /** Without tabs in `before`, a pointer line indented by some label puts
      the marker right after label and `before`, with only spaces ahead of it. */
  lemma MarkerColumn(lab: string, before: string)
    requires '\t' !in before
    ensures var marked := Spaces(|lab|) + Pointer(before);
      var col := |lab| + |before|;
      col < |marked| && marked[col] == '^' && forall i :: 0 <= i < col ==> marked[i] == ' '
  {
    PointerWithoutTabs(before);
    var col := |lab| + |before|;
    var marked := Spaces(|lab|) + Pointer(before);
    assert marked == Spaces(col) + Marker by {
      assert Pointer(before) == Spaces(|before|) + Marker;
      assert Spaces(|lab|) + Spaces(|before|) == Spaces(col);
    }
    assert Marker[0] == '^';
  }

  /** Helper of FailureShown (sequence indexing only): behind a label, the
      first character of `after` comes right after the label and `before`. */
  lemma ShownColumn(lab: string, before: string, after: string)
    requires |after| >= 1
    ensures var shown := lab + (before + after);
      |lab| + |before| < |shown| && shown[|lab| + |before|] == after[0]
  {
  }

  /** For an offset inside the stream that does not hold a line feed, the
      context line behind a label shows the character at the offset right
      after the label and `before`. */
  lemma FailureShown(stream: string, pos: int, span: int, lab: string)
    requires 0 <= pos < |stream| && stream[pos] != '\n' && span >= 1
    ensures var before := ContextBefore(stream, pos, span);
      var shown := lab + (before + ContextAfter(stream, pos, span));
      |lab| + |before| < |shown| && shown[|lab| + |before|] == stream[pos]
  {
    AfterToLineEnd(stream, pos, span);
    assert pos < LineEnd(stream, pos, span);
    ShownColumn(lab, ContextBefore(stream, pos, span), ContextAfter(stream, pos, span));
  }

  /** On a context line without tabs before the failure, the marker sits at
      the string index of the character at the failure offset (a display
      column too when no carriage return precedes it): both lines start
      with the label's width, and the pointer's indentation equals the length
      of the text before the failure, with only spaces ahead of the marker. */
  lemma CaretUnderFailure(stream: string, pos: int, span: int, lab: string)
    requires 0 <= pos < |stream| && stream[pos] != '\n' && span >= 1
    requires '\t' !in ContextBefore(stream, pos, span)
    ensures var before := ContextBefore(stream, pos, span);
      var shown := lab + (before + ContextAfter(stream, pos, span));
      var marked := Spaces(|lab|) + Pointer(before);
      var col := |lab| + |before|;
      col < |shown| && shown[col] == stream[pos]
      && col < |marked| && marked[col] == '^'
  {
    FailureShown(stream, pos, span, lab);
    MarkerColumn(lab, ContextBefore(stream, pos, span));
  }

  /** The label of line 1. */
  lemma FirstLineLabel()
    ensures LineLabel(1) == "1: "
  {
    assert IntToDecimal(1) == "1";
  }

  /** With a tab before the failure the caret misses: on line 1 of "\t;c\n"
      with the failure at ';' (so `before` is the tab alone), the labelled line
      "1: \t;c" shows ';' at display column 8, since the tab runs from column 3
      to the stop at 8, while the pointer line, whose tab expansion ignores the
      label, puts '^' at column 11 and a space at column 8. */
  lemma TabMisalignsCaret()
    ensures EndColumn(LineLabel(1) + "\t", TabSize, 0) == 8
    ensures var marked := Spaces(|LineLabel(1)|) + Pointer("\t");
      |marked| > 11 && marked[8] == ' ' && marked[11] == '^'
  {
    FirstLineLabel();
    var shown := "1: \t";
    assert LineLabel(1) + "\t" == shown;
    assert shown[1..] == ": \t" && ": \t"[1..] == " \t" && " \t"[1..] == "\t" && "\t"[1..] == [];
    assert EndColumn(shown, 8, 0) == EndColumn("\t", 8, 3);
    LeadingTabPointer();
    var marked := Spaces(3) + (Spaces(8) + Marker);
    assert marked[8] == Spaces(8)[5] && marked[11] == Marker[0];
  }

  /** The body of `__str__` once the context is read: the header, the
      labelled context line and the pointer under it, then, when there are
      expected inputs, the title and one bullet per input, appended one by
      one and joined with line feeds. */
  method Render(parserType: string, fileName: string, line: int, column: int,
                context: (string, string), expected: seq<string>) returns (s: string)
    ensures s == Join(MessageLines(parserType, fileName, line, column, context, expected), "\n")
    ensures '\n' !in parserType && '\n' !in fileName && '\n' !in context.0 && '\n' !in context.1
            && NoLineFeeds(expected) ==>
      Split(s, '\n') == MessageLines(parserType, fileName, line, column, context, expected)
  {
    var message := [Header(parserType, fileName, line, column)];
    var lineLabel := LineLabel(line);
    message := message + [lineLabel + context.0];
    message := message + [Spaces(|lineLabel|) + context.1];
    ghost var head := message;
    assert head == MessageHead(parserType, fileName, line, column, context);
    if expected != [] {
      message := message + [ExpectedTitle];
      assert expected[..0] == [];
      for i := 0 to |expected|
        invariant message == head + ([ExpectedTitle] + Bullets(expected[..i]))
      {
        BulletStep(head, expected, i);
        message := message + ["- " + expected[i]];
      }
      assert expected[..|expected|] == expected;
    } else {
      assert message == head + [];
    }
    assert message == MessageLines(parserType, fileName, line, column, context, expected);
    s := Join(message, "\n");
    if '\n' !in parserType && '\n' !in fileName && '\n' !in context.0 && '\n' !in context.1
       && NoLineFeeds(expected) {
      RenderedLines(parserType, fileName, line, column, context, expected);
    }
  }

  // ---------------------------------------------------------------------------
  // The error object
  // ---------------------------------------------------------------------------

  /** A parser failure with the text it happened in; the fields are set once by
      the constructor and never change. */
  class TopchemParserError {
    const stream: string
    const posInStream: int
    const line: int
    const column: int
    const parserType: string
    const fileName: string
    const expected: seq<string>

    /** Stores the fields; a missing list of expected inputs becomes the empty
        list, a given one is kept as it is. */
    constructor (stream: string, posInStream: int, line: int, column: int, parserType: string,
                 fileName: string := "", expected: Option<seq<string>> := None)
      ensures this.stream == stream && this.posInStream == posInStream
      ensures this.line == line && this.column == column
      ensures this.parserType == parserType && this.fileName == fileName
      ensures expected.None? ==> this.expected == []
      ensures expected.Some? ==> this.expected == expected.value
    {
      this.stream := stream;
      this.posInStream := posInStream;
      this.line := line;
      this.column := column;
      this.parserType := parserType;
      this.fileName := fileName;
      this.expected := if expected.None? then [] else expected.value;
    }

    /** The context line around the failure and the pointer for it. The
        context line holds no line feed and, for an offset inside the stream,
        runs from the line start to the line end around it; the pointer is
        spaces as wide as the part before the offset once its tabs are
        expanded, then the marker. */
    function GetContext(span: int := DefaultSpan): (r: (string, string))
      ensures '\n' !in r.0 && '\n' !in r.1
      ensures 0 <= posInStream <= |stream| && 0 <= span ==>
        r.0 == stream[LineStart(stream, posInStream, span)..LineEnd(stream, posInStream, span)]
        && r.1 == Pointer(stream[LineStart(stream, posInStream, span)..posInStream])
    {
      var before := ContextBefore(stream, posInStream, span);
      var after := ContextAfter(stream, posInStream, span);
      if 0 <= posInStream <= |stream| && 0 <= span then
        ContextIsSlice(stream, posInStream, span);
        BeforeFromLineStart(stream, posInStream, span);
        (before + after, Pointer(before))
      else
        (before + after, Pointer(before))
    }

    /** The diagnostic text: its lines joined with line feeds. When no field
        holds a line feed, the text splits back into exactly those lines. */
    method ToString() returns (s: string)
      ensures s == Join(MessageLines(parserType, fileName, line, column, GetContext(), expected), "\n")
      ensures '\n' !in parserType && '\n' !in fileName && NoLineFeeds(expected) ==>
        Split(s, '\n') == MessageLines(parserType, fileName, line, column, GetContext(), expected)
    {
      var context := GetContext();
      s := Render(parserType, fileName, line, column, context, expected);
    }
  }
}
