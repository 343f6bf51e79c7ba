# topchem parser errors, modelled in Dafny

topchem reads GROMACS topology files (`*.top`, `*.itp`) with a Lark grammar.
When the grammar rejects the input, the reader raises a `TopchemParserError`.
That error carries the whole input, the failure offset, line and column, the
parser's name, the file name, and a list of what would have been accepted.
Printed, it gives a diagnostic of this shape:

```
Lark Toopology Parser error while reading a.top at line 3, column 8:
3: [ atoms
          ^~~~
Expected input:
- Right square bracket: `]`
```

The second line is the "context line". It is cut out of the input around the
failure offset, never across a line feed. For an offset inside the input it
reaches at most 60 characters to each side. When the parser reports no offset,
the offset -1 is used instead; Python's slices then count from the end, and
the context line is what follows the file's last line feed: empty when the
file ends with a line feed, otherwise its unterminated last line, however
long. The third line is the "pointer". It is as many spaces as the label and
the tab-expanded text before the failure are wide, followed by the marker
`^~~~`. The explanations of expected inputs come from a fixed table of grammar
terminals. A terminal the table does not know is shown by its own name.

The project has four modules:

- `Wrappers` (`wrappers.dfy`) holds `Option` (Python's `None` or a value) and
  `Result` (a call that returns or raises).
- `PyStr` (`pystr.dfy`) models the Python `str` operations the error is built
  from, on strings as sequences of code points:
  - slicing with negative and out-of-range bounds;
  - `rsplit("\n", 1)[-1]` and `split("\n", 1)[0]`;
  - `expandtabs`, `" " * n` and `"\n".join`;
  - `split`, as the inverse of `join`;
  - the decimal rendering of integers in f-strings.

  Each of these comes with lemmas that give it an independent description.
- `Exceptions` (`exceptions.dfy`) models the error class. Its fields are
  immutable after the constructor. `get_context` is a function. `__str__` is a
  method: it reads the context and hands it to `Render`, which appends the lines
  one by one in a loop, as the source does. `Render` is proved against the
  specification function `MessageLines`.
- `TopParser` (`parser.dfy`) models the terminal table, `_explain_terminal` and
  the part of `parse_topology` that runs the parser and turns a failure into a
  `TopchemParserError`. The grammar itself is a parameter: a function from the
  content to a tree or a failure.

## Model

| member | source | states |
|---|---|---|
| PyStr.SliceBound | topchem/exceptions.py:47-48 | A slice bound is normalised as Python does: kept when inside the string, counted from the end when negative, the length when past the end, and 0 when before the start even counted from the end |
| PyStr.Slice | topchem/exceptions.py:47-48 | `s[i:j]` is never longer than `s`, and its k-th element is the element of `s` at the normalised start plus k |
| PyStr.SliceLength | topchem/exceptions.py:47-48 | `s[i:j]` is as long as the normalised end minus the normalised start, or empty when they cross; with Slice's elementwise clause this fixes every slice, `stream[0:-1]` and `stream[-1:59]` included |
| PyStr.SliceTo | topchem/exceptions.py:47 | `stream[start:pos]` with `0 <= start` and pos inside the stream is the plain sub-sequence from start to pos, or empty when start is past pos |
| PyStr.SliceFrom | topchem/exceptions.py:48 | `stream[pos:end]` with pos inside the stream and `end >= 0` runs from pos to end, clipped to the stream's length, or is empty when end is before pos |
| PyStr.LastIndexIsLast | topchem/exceptions.py:47 | The search for the last line feed finds a line feed, and no line feed lies after it |
| PyStr.FirstIndexIsFirst | topchem/exceptions.py:48 | The search for the first line feed from an offset finds a line feed or the end, and no line feed lies between the offset and it |
| PyStr.AfterLastIsLastPiece | topchem/exceptions.py:47 | `rsplit("\n", 1)[-1]` holds no line feed, is the whole string when there is none, and otherwise is what follows the last one |
| PyStr.BeforeFirstIsFirstPiece | topchem/exceptions.py:48 | `split("\n", 1)[0]` holds no line feed, is the whole string when there is none, and otherwise is what precedes the first one |
| PyStr.AfterLastOfSlice | topchem/exceptions.py:47 | The last piece of a slice starts after the last line feed before the slice's end, or at the slice's start when there is none inside it |
| PyStr.BeforeFirstOfSlice | topchem/exceptions.py:48 | The first piece of a slice ends at the first line feed from the slice's start, or at the slice's end when there is none inside it |
| PyStr.Spaces | topchem/exceptions.py:50 | `" " * n` has length n and holds only spaces |
| PyStr.ExpandTabsAppend | topchem/exceptions.py:50 | `expandtabs` is compositional: the second part expands from the column the first part ends at |
| PyStr.CarriageReturnResets | topchem/exceptions.py:50 | After a carriage return, `expandtabs` starts again from column 0 |
| PyStr.NoTabUnchanged | topchem/exceptions.py:50 | A string without tabs is left unchanged by `expandtabs` |
| PyStr.ExpansionNotShorter | topchem/exceptions.py:50 | With a positive tab size, `expandtabs` never shortens a string |
| PyStr.ColumnIsWidth | topchem/exceptions.py:50 | On one display line, the column reached equals the start column plus the expanded width |
| PyStr.TabAdvancesToNextStop | topchem/exceptions.py:50 | A tab moves the expanded width strictly forward to the next multiple of 8 |
| PyStr.ExpandTabs | topchem/exceptions.py:50 | `s.expandtabs()` leaves a string without tabs unchanged and, with a positive tab size, never makes a string shorter |
| PyStr.Split | topchem/exceptions.py:69 | Splitting at a separator gives at least one piece, and no piece holds the separator |
| PyStr.SplitJoin | topchem/exceptions.py:69 | Joining pieces free of the separator and splitting again gives the pieces back |
| PyStr.JoinSplit | topchem/exceptions.py:69 | Splitting a string and joining it again gives the string back |
| PyStr.Join | topchem/exceptions.py:69 | `"\n".join(parts)` of an empty list is empty; otherwise its length is that of all parts plus one separator between each two |
| PyStr.SplitTrailingSeparator | topchem/gromacs/top/parser.py:80 | Appending a separator closes the last piece and adds one empty piece |
| PyStr.NatToDecimal | topchem/exceptions.py:55-56 | The decimal rendering is non-empty digits with no leading zero |
| PyStr.IntToDecimal | topchem/exceptions.py:60 | The rendering of the line number is non-empty and holds no line feed |
| PyStr.IntToDecimalRoundTrip | topchem/exceptions.py:55-56 | The rendered integer reads back as the same integer, so the line and column shown are the stored ones |
| Exceptions.LineStart | topchem/exceptions.py:45-47 | The context line starts at or before the offset, at most span characters before it, and not before the stream's start |
| Exceptions.LineEnd | topchem/exceptions.py:46-48 | The context line ends at or after the offset, at most span characters after it, and not past the stream's end |
| Exceptions.ContextBefore | topchem/exceptions.py:45-47 | `before` holds no line feed, for every offset and span |
| Exceptions.ContextAfter | topchem/exceptions.py:46-48 | `after` holds no line feed, for every offset and span |
| Exceptions.BeforeFromLineStart | topchem/exceptions.py:45-47 | For an offset inside the stream, `before` is the stream from the line start to the offset |
| Exceptions.AfterToLineEnd | topchem/exceptions.py:46-48 | For an offset inside the stream, `after` is the stream from the offset to the line end |
| Exceptions.LineBounds | topchem/exceptions.py:45-48 | The context line holds no line feed. Each end is either the edge of the window (or of the stream) or next to a line feed, so it is the longest such stretch |
| Exceptions.ContextIsSlice | topchem/exceptions.py:47-49 | `before + after` is the contiguous stream from the line start to the line end |
| Exceptions.Pointer | topchem/exceptions.py:50 | The pointer is spaces followed by `^~~~` and holds no line feed |
| Exceptions.PointerWithoutTabs | topchem/exceptions.py:50 | Without tabs before the failure, the pointer is indented by exactly the length of `before` |
| Exceptions.PointerIndentIsColumn | topchem/exceptions.py:50 | When `before` is one display line (no line feed, no carriage return), the pointer's indentation is the display column that `expandtabs` reaches at its end |
| Exceptions.PointerNotShorter | topchem/exceptions.py:50 | The pointer's indentation is never less than the length of `before` |
| Exceptions.LeadingTabContext | topchem/exceptions.py:47-48 | On `"\t;c\n"` at offset 1, `before` is the lone tab and `after` is the rest of the line, `;c` |
| Exceptions.LeadingTabPointer | topchem/exceptions.py:50 | The pointer for a lone tab is indented by 8 spaces |
| Exceptions.SentinelContext | topchem/exceptions.py:44-48 | With offset -1 on a stream that ends in a line feed, `after` is empty and `before` is what follows the last line feed before the final one (empty when the stream ends in two line feeds), for every non-negative span |
| Exceptions.Header | topchem/exceptions.py:54-57 | The header holds no line feed when the parser name and file name hold none |
| Exceptions.LineLabel | topchem/exceptions.py:60 | The label is at least three characters wide and holds no line feed |
| Exceptions.LabelReadsBack | topchem/exceptions.py:60 | The label ends in `": "`, and what precedes that reads back as the line number |
| Exceptions.Bullets | topchem/exceptions.py:66-67 | One `- entry` line per expected input, in the same order |
| Exceptions.MessageLines | topchem/exceptions.py:54-67 | The diagnostic has 3 lines with no expected inputs, else 4 plus one per input |
| Exceptions.MessageLayout | topchem/exceptions.py:54-67 | The diagnostic has 3 lines with no expected inputs, else 4 plus one per input: header, labelled context line, pointer indented by the label width, title, then the bullets |
| Exceptions.HeadHasNoLineFeeds | topchem/exceptions.py:54-62 | The header, the labelled context line and the pointer line hold no line feed when the parser name, the file name and the context hold none |
| Exceptions.ExpectedLinesHaveNoLineFeeds | topchem/exceptions.py:64-67 | The title and the bullets hold no line feed when no expected input does |
| Exceptions.RenderedLines | topchem/exceptions.py:69 | When no field holds a line feed, splitting the joined text at line feeds gives back exactly the diagnostic's lines |
| Exceptions.BulletStep | topchem/exceptions.py:66-67 | One pass of the loop extends the bullets of the prefix read so far by the next entry |
| Exceptions.MarkerColumn | topchem/exceptions.py:60-62 | Without tabs before the failure, the marker's `^` sits at the label width plus the length of `before`, with only spaces ahead of it |
| Exceptions.FailureShown | topchem/exceptions.py:45-49 | For an offset inside the stream that is not on a line feed, the labelled context line shows the failing character right after the label and `before` |
| Exceptions.CaretUnderFailure | topchem/exceptions.py:45-62 | Without tabs before the failure, the `^` of the pointer line is at the same string index as the failing character of the labelled context line (the same display column only when, in addition, no carriage return precedes it) |
| Exceptions.TabMisalignsCaret | topchem/exceptions.py:50-62 | With a tab before the failure the caret misses: on line 1 of `"\t;c\n"` with the failure at `;`, the labelled line shows `;` at display column 8, but the pointer line has a space there and puts `^` at column 11 |
| Exceptions.TopchemParserError.constructor | topchem/exceptions.py:18-34 | Stores every field unchanged. A missing list of expected inputs becomes the empty list |
| Exceptions.TopchemParserError.GetContext | topchem/exceptions.py:36-51 | The context line and pointer hold no line feed. For an offset inside the stream, the context line is the stream from the line start to the line end, and the pointer is the expanded width of the part before the offset in spaces, then the marker |
| Exceptions.Render | topchem/exceptions.py:54-69 | Appending the header, the labelled context line, the pointer line, then the title and one bullet per expected input, in a loop, builds exactly the diagnostic's lines. The result is those lines joined by line feeds. When no part holds a line feed, it splits back into exactly those lines |
| Exceptions.TopchemParserError.ToString | topchem/exceptions.py:53-69 | The text is the diagnostic's lines, with the context this error computes, joined by line feeds. When no field holds a line feed, it splits back into exactly those lines |
| TopParser.Get | topchem/gromacs/top/parser.py:60 | The lookup is None exactly when no entry has the key. Otherwise it is the value of an entry with that key, and no later entry has the key |
| TopParser.GetKey | topchem/gromacs/top/parser.py:60 | With distinct keys, every key finds its own value |
| TopParser.TerminalsAreDistinct | topchem/gromacs/top/parser.py:31-53 | The eighteen terminals of the table are pairwise distinct |
| TopParser.ExplainTerminal | topchem/gromacs/top/parser.py:57-64 | The explanation is the terminal itself or the value of a table entry whose key is the terminal |
| TopParser.ExplainKnownTerminal | topchem/gromacs/top/parser.py:57-64 | A terminal of the table is explained by its own entry |
| TopParser.ExplainUnknownTerminal | topchem/gromacs/top/parser.py:61-62 | A terminal the table does not know is returned unchanged |
| TopParser.ExplainRightBracket | topchem/gromacs/top/parser.py:52 | `RSQB` is explained as "Right square bracket: `]`" |
| TopParser.ExplainAll | topchem/gromacs/top/parser.py:86-88 | The explained list has the same length as the terminals, and each entry explains the terminal in the same place |
| TopParser.ExpectedExplanations | topchem/gromacs/top/parser.py:85-90 | There are explanations exactly when the failure reports `expected` or `allowed`. They explain `expected` when it is reported, else `allowed`, one per terminal, in order |
| TopParser.NormalisedPos | topchem/gromacs/top/parser.py:92-95 | A reported offset is passed on as it is; a missing one becomes -1 |
| TopParser.SentinelIsNotAnOffset | topchem/gromacs/top/parser.py:92-95 | The offset passed on is non-negative exactly when a non-negative offset was reported, and then it is that offset |
| TopParser.WithTrailingNewline | topchem/gromacs/top/parser.py:80 | The content is the file text followed by exactly one line feed |
| TopParser.ContentLines | topchem/gromacs/top/parser.py:80 | The content's lines are the text's lines plus one empty last line |
| TopParser.SentinelOnTerminatedFile | topchem/gromacs/top/parser.py:80-95 | With no offset, the file text `"a\nb\n"` shows an empty `before` |
| TopParser.SentinelOnUnterminatedFile | topchem/gromacs/top/parser.py:80-95 | With no offset, the file text `"a\nb"` shows `"b"` as `before` |
| TopParser.SentinelShowsLastLine | topchem/gromacs/top/parser.py:80-95 | When no offset is reported, the error's `before` is what follows the file text's last line feed (empty when the text ends with a line feed, otherwise its unterminated last line) and its `after` is empty |
| TopParser.ParseTopology | topchem/gromacs/top/parser.py:71-107 | A successful parse of the text plus a line feed returns its tree. A failure yields a new error with these fields: that content; the reported offset, or -1; the failure's line and column; the parser name; the file name; and the explanations of `expected`, else of `allowed`, else the empty list |

## Left out

- The Lark grammar and the parser it builds are not part of this model. `parse_topology` takes the parser as a parameter, and its outcome is either a tree or an `UnexpectedInput` value.
- Reading the file (`Path(path)`, `read_text`) is left out. The text and the posix form of the path are inputs.
- `raise ... from uin` is modelled as a `Failure` result. Exception chaining has no counterpart.
- The `hasattr` checks on the failure are modelled as optional `expected` and `allowed` fields.
- Lark hands over `expected` and `allowed` as sets. The model takes their iteration order as given, as a sequence.
- `assert self.pos_in_stream is not None` in `get_context` is left out. The field is always an integer in the model, because `parse_topology` replaces a missing offset by -1 before building the error.
- Exceptions.TopchemParserError.GetContext: the characterisation by line start and line end holds only for an offset inside the stream and a span that is not negative. For other arguments, only the absence of line feeds is stated. `__str__` always uses the default span of 60.
- Exceptions.CaretUnderFailure: stated only when `before` has no tab. With a tab, the pointer counts tab stops from column 0, but the printed context line sits behind the line label. A terminal then places that tab relative to the label, so the caret lines up only when the label's width is a multiple of 8. TabMisalignsCaret shows one such input. The model keeps the pointer as the code computes it.
- `TopchemParserError` as a Python `Exception` subclass (`args`, tracebacks) is not modelled. Only its own fields and methods are.
