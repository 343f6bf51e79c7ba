/** The glue of the GROMACS topology reader around its parser: the table that
    explains grammar terminals in plain words, the lookup with a fallback, and
    the mapping of a parser failure onto the fields of a TopchemParserError. */
module TopParser {
  import opened Wrappers
  import opened PyStr
  import Exceptions

  /** Grammar terminals and their explanations, in the order of the dict
      literal. */
  const TerminalsExplained: seq<(string, string)> := [
    ("SIGNED_INT", "Integer with optional sign: `1234`, `-1234`"),
    ("SIGNED_FLOAT", "Float, may be in sientific format: `.1`, `-1.`, `0.2e+05`"),
    ("CNAME", "C-style identifier: `A1`, `_undersored_0`"),
    ("ID", "Allowed non-number identifier (atom names/types and so on): `-N1*+'`"),
    ("_IGNORE", @"Non-linebreaking spaces: space, tab; escaped newline: `\\s*\r?\n`; empty lines: `\s+\r?\n`"),
    ("_INCLUDE", "`#include`"),
    ("_DEFINE", "`#define`"),
    ("_UNDEF", "`#undef`"),
    ("_IFDEF", "`#ifdef`"),
    ("_IFNDEF", "`#ifndef`"),
    ("_ELSE", "`#else`"),
    ("_ENDIF", "`#endif`"),
    ("PATH", @"Any string, may be interpreted as posix path: `a`, `/a`, `/// \\/.\//`"),
    ("PPCOMMENT", "Preprocessor comment: `//comment`, `/*comment*/`"),
    ("COMMENT", "Topology comment: `;comment`"),
    ("_NEWLINE", @"New line: `\r?\n`"),
    ("LSQB", "Left square bracket: `[`"),
    ("RSQB", "Right square bracket: `]`")
  ]

  /** The name the parser reports itself under (spelled as in the reader). */
  const ParserType: string := "Lark Toopology Parser"

  /** dict.get on a dict literal given as its (key, value) pairs: the value of
      the last pair with that key, or None when no pair has it. */
  function Get(table: seq<(string, string)>, key: string): (r: Option<string>)
    ensures r.None? <==> forall i :: 0 <= i < |table| ==> table[i].0 != key
    ensures r.Some? ==> exists i :: 0 <= i < |table| && table[i] == (key, r.value)
                                    && forall j :: i < j < |table| ==> table[j].0 != key
  {
    if table == [] then None
    else if table[|table| - 1].0 == key then Some(table[|table| - 1].1)
    else Get(table[..|table| - 1], key)
  }

  /** No two pairs share a key. */
  predicate DistinctKeys(table: seq<(string, string)>)
  {
    forall i, j :: 0 <= i < j < |table| ==> table[i].0 != table[j].0
  }

  /** With distinct keys, every key finds its own value. */
  lemma GetKey(table: seq<(string, string)>, i: int)
    requires DistinctKeys(table) && 0 <= i < |table|
    ensures Get(table, table[i].0) == Some(table[i].1)
  {
    var r := Get(table, table[i].0);
    var k :| 0 <= k < |table| && table[k] == (table[i].0, r.value)
             && forall j :: k < j < |table| ==> table[j].0 != table[i].0;
    assert k == i;
  }

  /** Every terminal appears once in the table. */
  lemma TerminalsAreDistinct()
    ensures DistinctKeys(TerminalsExplained)
  {
    forall i, j | 0 <= i < j < |TerminalsExplained|
      ensures TerminalsExplained[i].0 != TerminalsExplained[j].0
    {
      var a, b := TerminalsExplained[i].0, TerminalsExplained[j].0;
      assert |a| != |b| || a[0] != b[0] || a[1] != b[1] || a[2] != b[2] || a[3] != b[3];
    }
  }

  /** _explain_terminal: the explanation of a terminal, or the terminal
      itself when the table does not know it. */
  function ExplainTerminal(terminal: string): (r: string)
    ensures r == terminal || exists i :: 0 <= i < |TerminalsExplained| && TerminalsExplained[i] == (terminal, r)
  {
    match Get(TerminalsExplained, terminal)
    case Some(explanation) => explanation
    case None => terminal
  }

  /** A terminal of the table is explained by its own entry. */
  lemma ExplainKnownTerminal(i: int)
    requires 0 <= i < |TerminalsExplained|
    ensures ExplainTerminal(TerminalsExplained[i].0) == TerminalsExplained[i].1
  {
    TerminalsAreDistinct();
    GetKey(TerminalsExplained, i);
  }

  /** A terminal the table does not know is passed through unchanged. */
  lemma ExplainUnknownTerminal(terminal: string)
    requires forall i :: 0 <= i < |TerminalsExplained| ==> TerminalsExplained[i].0 != terminal
    ensures ExplainTerminal(terminal) == terminal
  {
  }

  /** The closing bracket of a section header. */
  lemma ExplainRightBracket()
    ensures ExplainTerminal("RSQB") == "Right square bracket: `]`"
  {
    ExplainKnownTerminal(17);
  }

  /** [_explain_terminal(t) for t in terminals]: same length, same order. */
  function ExplainAll(terminals: seq<string>): (r: seq<string>)
    ensures |r| == |terminals|
    ensures forall i :: 0 <= i < |r| ==> r[i] == ExplainTerminal(terminals[i])
  {
    if terminals == [] then []
    else [ExplainTerminal(terminals[0])] + ExplainAll(terminals[1..])
  }

  /** A failure of the parser: the terminals it expected (a token error) or
      allowed (a character error), when it reports them, the offset of the
      failure when known, and its line and column. */
  datatype UnexpectedInput = UnexpectedInput(
    expected: Option<seq<string>>,
    allowed: Option<seq<string>>,
    posInStream: Option<int>,
    line: int,
    column: int)

  /** The explained list of what the parser would have accepted: taken from
      `expected` when the failure has it, else from `allowed`, else none. */
  function ExpectedExplanations(uin: UnexpectedInput): (r: Option<seq<string>>)
    ensures r.Some? <==> uin.expected.Some? || uin.allowed.Some?
    ensures r.Some? ==>
      var source := if uin.expected.Some? then uin.expected.value else uin.allowed.value;
      |r.value| == |source| && forall i :: 0 <= i < |source| ==> r.value[i] == ExplainTerminal(source[i])
  {
    if uin.expected.Some? then Some(ExplainAll(uin.expected.value))
    else if uin.allowed.Some? then Some(ExplainAll(uin.allowed.value))
    else None
  }

  /** The offset handed to the error: the reported one, or -1 when there is
      none. */
  function NormalisedPos(pos: Option<int>): (r: int)
    ensures pos.Some? ==> r == pos.value
    ensures pos.None? ==> r == -1
  {
    if pos.None? then -1 else pos.value
  }

  /** The sentinel never stands for a real offset: the normalised offset is
      not negative exactly when an offset that is not negative was reported,
      and then it is that offset. */
  lemma SentinelIsNotAnOffset(pos: Option<int>)
    ensures NormalisedPos(pos) >= 0 <==> pos.Some? && pos.value >= 0
    ensures NormalisedPos(pos) >= 0 ==> pos == Some(NormalisedPos(pos))
  {
  }

  /** The content read from the file with a line feed added at the end. */
  function WithTrailingNewline(text: string): (content: string)
    ensures |content| == |text| + 1 && content[..|text|] == text && content[|text|] == '\n'
  {
    text + "\n"
  }

  /** The content splits into the lines of the text and one empty last
      line. */
  lemma ContentLines(text: string)
    ensures Split(WithTrailingNewline(text), '\n') == Split(text, '\n') + [[]]
  {
    SplitTrailingSeparator(text, '\n');
  }

  /** When the parser reports no offset, the error shows what follows the last
      line feed of the file text: nothing when the text ends with a line feed,
      otherwise its unterminated last line, however long; nothing is shown
      after the failure point. */
  lemma SentinelShowsLastLine(text: string, span: int)
    requires span >= 0
    ensures Exceptions.ContextBefore(WithTrailingNewline(text), NormalisedPos(None), span)
            == AfterLast(text, '\n')
    ensures Exceptions.ContextAfter(WithTrailingNewline(text), NormalisedPos(None), span) == []
  {
    Exceptions.SentinelContext(WithTrailingNewline(text), span);
  }

  /** A file that ends with a line feed shows an empty context line. */
  lemma SentinelOnTerminatedFile()
    ensures Exceptions.ContextBefore(WithTrailingNewline("a\nb\n"), NormalisedPos(None), 60) == []
  {
    SentinelShowsLastLine("a\nb\n", 60);
    assert LastIndex("a\nb\n", '\n', 4) == 3;
  }

  /** A file whose last line is unterminated shows that line. */
  lemma SentinelOnUnterminatedFile()
    ensures Exceptions.ContextBefore(WithTrailingNewline("a\nb"), NormalisedPos(None), 60) == "b"
  {
    SentinelShowsLastLine("a\nb", 60);
    assert LastIndex("a\nb", '\n', 3) == 1;
  }

  /** What the parser does with some content: a tree, or a failure. */
  datatype ParseOutcome<T> = Parsed(tree: T) | Unexpected(error: UnexpectedInput)

  /** parse_topology on the text of a file: add the trailing line feed, run
      the parser, and on failure build the error from the failure's fields,
      the content and the file name. */
  method ParseTopology<T>(text: string, fileName: string, parse: string -> ParseOutcome<T>)
    returns (r: Result<T, Exceptions.TopchemParserError>)
    ensures parse(WithTrailingNewline(text)).Parsed? ==>
      r == Success(parse(WithTrailingNewline(text)).tree)
    ensures parse(WithTrailingNewline(text)).Unexpected? ==>
      var uin := parse(WithTrailingNewline(text)).error;
      && r.Failure? && fresh(r.error)
      && r.error.stream == WithTrailingNewline(text)
      && r.error.posInStream == NormalisedPos(uin.posInStream)
      && r.error.line == uin.line && r.error.column == uin.column
      && r.error.parserType == ParserType && r.error.fileName == fileName
      && r.error.expected == match ExpectedExplanations(uin) case Some(e) => e case None => []
  {
    var content := text + "\n";
    var outcome := parse(content);
    match outcome
    case Parsed(tree) =>
      r := Success(tree);
    case Unexpected(uin) =>
      var expected: Option<seq<string>>;
      if uin.expected.Some? {
        expected := Some(ExplainAll(uin.expected.value));
      } else if uin.allowed.Some? {
        expected := Some(ExplainAll(uin.allowed.value));
      } else {
        expected := None;
      }
      var posInStream: int;
      if uin.posInStream.None? {
        posInStream := -1;
      } else {
        posInStream := uin.posInStream.value;
      }
      var parserError := new Exceptions.TopchemParserError(content, posInStream, uin.line, uin.column,
                                                           ParserType, fileName, expected);
      r := Failure(parserError);
  }
}
