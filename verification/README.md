# Journal time sheets and meeting-note TODOs, in Dafny

This project models the two line scanners of a small set of note-keeping
scripts and proves what they compute.

- **The journal interval extractor** (`time_sheet.py`). A developer journal is
  a list of lines. Some are timestamp lines of the form
  `# <date> <time> <tag> <tag> ...`. A timestamp line carrying the start tag
  opens an interval of work. One carrying the end tag closes it. The
  scan pairs these lines into intervals that keep all the journal lines
  between them. It aborts on four errors:
  - an end tag while no interval is open;
  - a start tag while one is open;
  - an interval that ends before it starts;
  - a journal that ends with an interval still open.

  The time sheet then keeps the intervals whose day (the day of the end time)
  lies within optional inclusive bounds.
- **The TODO scanner** (`todo.py`). It cuts a meeting-note file's lines into
  paragraphs. Each paragraph holds exactly one `TODO(...)` line with its
  surrounding context. Blank lines end paragraphs, and so does a second TODO
  line. From the first `TODO(...)` group of each line the scanner reads
  owners and a deadline. It keeps the paragraphs that pass the owner,
  inverse-owner and meeting filters.

Files:

- `wrappers.dfy`: `Option`, `Result` and `Outcome`.
- `seqs.dfy`: Python's `split`/`join`, filtering list comprehensions,
  concatenation and subsequences, for any element type.
- `text.dfy`: Python's `str.strip()` and `str.startswith()`.
- `timesheet.dfy`: the extractor. Timestamp lines, `Interval.validate`, the
  scan as a step function over a prefix of the journal, and the day filter.
- `timesheet_proofs.dfy`: a description of the scan without its loop.
  - The scan succeeds with a list of intervals exactly when the journal is
    made of inert gaps alternating with well-formed intervals.
  - Each of the four errors happens exactly when the offending line sits
    at a characterised position.
- `todo.dfy`: the scanner. TODO lines, paragraph segmentation, metadata and
  the filters.
- `todo_proofs.dfy`: the two regular expressions as match conditions and the
  metadata as sets and "last date wins". The paragraphs are described by the
  segmentation loop's invariant and as the TODO-carrying blank-line
  separated blocks of the file.

How the model is built:

- Every loop is a function of the prefix read so far ("the state after the
  first k lines"). The loop body is a one-line step.
- The date/time parser of the journal (`dateutil.parser.parse`) is a
  parameter `parse: string -> Option<Time>`. `None` stands for a
  `ValueError`. Times are integers (microseconds on a naive time line), so
  they are totally ordered like Python's naive `datetime`s. Journal times
  are taken to be naive (see "## Left out"). A day is the
  floor of a time divided by the microseconds in a day.
- The scan is written over any line recogniser (`Config.stampOf`), and every
  property of it holds for any one. `JournalConfig` is the program's own
  configuration: lines recognised by `ParseTimestampLine` over the parser.
- The deadline parser of the TODO scanner (`strptime` with `%Y-%m-%d`) is a
  parameter `parseDate: string -> Option<Date>`.
- The meeting filter's regular expression is an optional predicate on the
  meeting id.
- Two points on the order of the checks:
  - On a timestamp line with no interval open, the end tag is checked before
    the start tag (time_sheet.py:76-80). With an interval open, the start tag
    is checked first (time_sheet.py:89-93). So a line carrying both tags fails
    with "ending without starting" when no interval is open and with
    "already open" when one is (`TimeSheetProofs.BothTagsAbort`).
  - In the segmentation loop, `active_todo = True` on todo.py:78 is always
    overwritten on todo.py:82. After a paragraph is closed, the flag is
    therefore just whether the new line is a TODO line, and the model's
    `Todo.SegmentStep` says so directly.

## Model

| member | source | states |
|---|---|---|
| TimeSheet.Day | time_sheet.py:35-36 | The day of a point in time is the one whose 24 hours contain it. |
| TimeSheet.IntervalDay | time_sheet.py:35-36 | An interval's day is the day whose 24 hours contain its end time. |
| TimeSheet.ParseTimestampLine | time_sheet.py:55-65 | A line that does not start with `"# "` is not a timestamp line. One that does is a timestamp line exactly when the parser accepts its second and third space-separated tokens joined by a space, and its time is what the parser returns. |
| TimeSheet.StampLineRoundTrip | time_sheet.py:55-65 | A line written `# <date> <time> <tag> ...` (date and time without spaces, tags without spaces or surrounding whitespace) reads back as written: it is a timestamp line exactly when the parser accepts `<date> <time>`, with the parser's time and exactly the tags written, in order. |
| TimeSheet.StampLineRoundTripNewline | time_sheet.py:59-64 | The same line as read from the journal file, ending in a line break, reads back the same way when it has at least one tag: the break is stripped off the last tag. |
| TimeSheet.StampTagsClean | time_sheet.py:64 | The tags of a timestamp line contain no space and have no surrounding whitespace. |
| TimeSheetProofs.JournalStampLine | time_sheet.py:73-93 | In the program's configuration (`TimeSheet.JournalConfig`), a line written `# <date> <time> <tag> ...` opens an interval exactly when the parser accepts `<date> <time>` and the start tag is among the tags written. It closes one exactly when the parser accepts it and the end tag is among them. Its time is the parser's. |
| TimeSheet.Validate | time_sheet.py:38-43 | Validation passes exactly when the interval does not end before it starts. Otherwise it fails with the negative-duration error for that interval. |
| TimeSheet.Scanned | time_sheet.py:72-99 | After any prefix of the journal, every interval emitted starts no later than it ends. An open interval has collected at least its start line. A scan in progress never reports "not terminated". |
| TimeSheetProofs.StepSuccessCases | time_sheet.py:73-99 | One iteration of the loop (`TimeSheet.Step`) that does not fail does the following. With no interval open, a line carrying the start tag (and then not the end tag) opens an interval stamped with its time and holding that line, and any other line carries neither tag and changes nothing. With an interval open, a line carrying the end tag (and then not the start tag, and not stamped before the start) closes it, emitting the interval with that line appended. Any other line carries neither tag and is collected into the open interval. |
| TimeSheetProofs.ScannedLayout | time_sheet.py:72-99 | After any prefix of the journal that has not failed, the state (`TimeSheet.Scanned`) accounts for every line read: the lines before the open interval are inert gaps around the intervals emitted, and the open interval's lines are the rest, a start line followed by inert lines. |
| TimeSheet.ParseIntervals | time_sheet.py:68-102 | Every interval of a successful scan starts no later than it ends. |
| TimeSheet.FilterByDay | time_sheet.py:132-135 | The two successive filters keep exactly the intervals whose day is within the given bounds (either may be absent), in their original order. The result equals a single filter on both bounds and is a subsequence of the input. |
| TimeSheet.FilterByDayIsOneFilter | time_sheet.py:132-135 | Filtering on the start date and then on the end date is one filter on both bounds. An absent bound keeps everything. |
| TimeSheetProofs.ParseIntervalsSound | time_sheet.py:68-102 | A successful scan's journal is inert gaps alternating with its intervals, in input order. Each interval is a start line, lines carrying neither tag, and an end line, with the start and end times of those lines and start <= end. |
| TimeSheetProofs.ParseIntervalsComplete | time_sheet.py:68-102 | Every journal laid out as inert gaps around well-formed intervals scans successfully to exactly those intervals. |
| TimeSheetProofs.ParseIntervalsExactly | time_sheet.py:68-102 | The scan returns a list of intervals exactly when the journal is a layout of that list. |
| TimeSheetProofs.NoBoundaryNoIntervals | time_sheet.py:72-102 | A journal in which no line carries the start or end tag yields an empty list and no error. |
| TimeSheetProofs.IntervalPositions | time_sheet.py:80-99 | Each interval's lines are a contiguous slice of the journal. The slices come in input order and do not overlap. Every line outside them carries neither tag and is dropped. |
| TimeSheetProofs.StepEndWithoutStart | time_sheet.py:74-79 | One step fails with "ending without starting" only with no interval open, on a line carrying the end tag, and the error cites that line and its number. |
| TimeSheetProofs.StepStartWhileOpen | time_sheet.py:87-92 | One step fails with "already open" only with an interval open, on a line carrying the start tag, and the error cites that line and its number. |
| TimeSheetProofs.StepNegativeDuration | time_sheet.py:93-95 | One step fails with a negative duration only when an open interval is closed by an end-tagged line (without the start tag) stamped before the start. The error carries that interval, including the closing line. |
| TimeSheetProofs.EndWithoutStartExactly | time_sheet.py:74-79 | The scan fails with "ending without starting" at 1-based line n exactly when the lines before it scan with nothing open and line n carries the end tag. The error cites line n's text. |
| TimeSheetProofs.StartWhileOpenExactly | time_sheet.py:87-92 | The scan fails with "already open" at 1-based line n exactly when the lines before it leave an interval open and line n carries the start tag. |
| TimeSheetProofs.NegativeDurationExactly | time_sheet.py:93-95 | The scan fails with a negative duration for an interval exactly when, after a prefix that leaves nothing open, a start line, inert lines and an end line stamped before the start form that interval. |
| TimeSheetProofs.UnterminatedExactly | time_sheet.py:100-101 | The scan fails with "not terminated" (returning no intervals) exactly when, after a prefix that leaves nothing open, a start line is followed only by lines carrying neither tag. |
| TimeSheetProofs.BothTagsAbort | time_sheet.py:74-93 | A line carrying both tags always aborts the scan. If nothing failed before it, the error is "ending without starting" with no interval open and "already open" with one open. |
| Text.StripShape | time_sheet.py:64 | `str.strip()` leaves text with no whitespace at either end, found in the input with only whitespace around it. |
| Text.StripKeepsCharacters | time_sheet.py:64 | Stripping never introduces a character the input lacks. |
| Text.StripStripped | time_sheet.py:64 | Stripping already stripped text changes nothing. |
| Todo.LeadingSpaces | todo.py:152 | The ` *` of the TODO pattern: the number of spaces the line starts with, followed by a non-space or the end. |
| Todo.FindFrom | todo.py:139 | The search for `TODO(` and `)`: the first occurrence at or after a position, or none when there is no occurrence there. |
| TodoProofs.CloseBeforeNewlineExactly | todo.py:152 | The `.*\)` tail matches exactly when a `)` occurs before any line break. |
| TodoProofs.LineContainsTodoExactly | todo.py:151-152 | `Todo.LineContainsTodo`: a line is a TODO line exactly when ` *TODO\(.*\)` matches at its start: spaces, `TODO(`, and a later `)` with no line break in between. |
| TodoProofs.ParagraphContainsTodoExactly | todo.py:128-132 | `Todo.ParagraphContainsTodo`: a paragraph contains a TODO exactly when one of its lines is a TODO line. |
| TodoProofs.FirstTodoGroupMatches | todo.py:139 | A found group is the capture of the leftmost match of ` *TODO\(([^\)]*)\)` anywhere in the line. |
| TodoProofs.FirstTodoGroupExactly | todo.py:139-141 | `Todo.FirstTodoGroup`: the group read from a line is `g` exactly when the leftmost match captures `g`. There is none exactly when the pattern does not match anywhere in the line. |
| TodoProofs.GetMetadataReadsAllItems | todo.py:135-148 | Reading a paragraph's metadata line by line is reading the items of all its lines in order, from no owners and no deadline. |
| TodoProofs.NoteItemsOwners | todo.py:142-147 | The items the date parser rejects, the empty string included, are added to the owners, and nothing else is. |
| TodoProofs.NoteItemsDeadline | todo.py:142-145 | The deadline is that of the last item the date parser accepts. It is unchanged when there is none. |
| TodoProofs.GetMetadataExactly | todo.py:135-148 | `Todo.GetMetadata`: a paragraph's owners are exactly its items that are not dates. It has a deadline exactly when one of its items is a date, and then the deadline is that of the last such item. |
| TodoProofs.ContainsTodoIffCount | todo.py:128-132 | A paragraph contains a TODO exactly when it has a positive number of TODO lines. |
| TodoProofs.InvariantBlank | todo.py:71-84 | One iteration (`Todo.SegmentStep`) on a blank line keeps the loop's invariant (below). |
| TodoProofs.InvariantSecondTodo | todo.py:71-86 | One iteration on a TODO line while the buffer holds one keeps the loop's invariant. |
| TodoProofs.InvariantGather | todo.py:83-86 | One iteration on any other line, which joins the buffer, keeps the loop's invariant. |
| TodoProofs.SegmentedInvariant | todo.py:66-87 | After any prefix of the file, the loop state (`Todo.Segmented`) keeps its invariant. Every paragraph emitted is non-empty, free of blank lines, holds exactly one TODO line and carries the meeting id. The buffer holds no blank line and at most one TODO line, and the flag says whether it holds one. The TODO lines read are those of the paragraphs and the buffer. The emitted lines followed by the buffer are a subsequence of the input. |
| TodoProofs.BlankLineClosesParagraph | todo.py:71-82 | A blank line ends the current paragraph. The paragraph is emitted when it holds a TODO line, and the blank line is not kept. |
| TodoProofs.SecondTodoStartsParagraph | todo.py:71-86 | A TODO line arriving while the buffer already holds one emits that buffer and starts a new paragraph made of the line. |
| TodoProofs.EndActsAsBlankLine | todo.py:88-93 | `Todo.Paragraphs`: the last buffer is emitted exactly when it is non-empty and holds a TODO line, just as a final blank line would emit it. |
| TodoProofs.ParagraphsGood | todo.py:66-93 | Every paragraph of a note file (`Todo.Paragraphs`) is non-empty and holds exactly one TODO line. There are as many paragraphs as TODO lines. Their lines, concatenated, are an order-preserving subsequence of the input. |
| TodoProofs.ParagraphsAreTodoBlocks | todo.py:66-93 | The paragraphs' lines, concatenated, are exactly the lines of the blank-line separated blocks that contain a TODO line. |
| Todo.SelectParagraphs | todo.py:97-110 | A paragraph is kept exactly when it passes the filters. With an owner given, it must be among the owners. With an inverse owner given, it must not be. With a meeting filter, the filter must accept the meeting id. Every occurrence of a wanted paragraph is kept, repeated ones included, and nothing else, in the original order. |

## Left out

- `download_meetings.py`, `download-meetings.py` and `meet.py` are not part of this model. They fetch calendars over HTTP, write files or run an interactive prompt.
- The report of `time_sheet.py`'s `main` is left out:
  - argument parsing;
  - locale currency formatting;
  - floating-point hours (`Interval.hours`) and the billing rate;
  - `Interval.__str__` and `summary`;
  - printing.
- Printing `intervals[0]` and `intervals[-1]` raises on an empty result (time_sheet.py:138-139). This is command-line behaviour after the core has run, so it is left out.
- Journal times are taken to be naive. The parser can return a time with a time zone (`# 2020-01-01 09:00Z ...`). Comparing such a time with a naive one raises `TypeError` (time_sheet.py:42). Two times with zones compare in UTC, while `.date()` (time_sheet.py:36) gives the day in each time's own offset. None of this is modelled.
- The date/time parsers (`dateutil.parser.parse` and `datetime.strptime`) are parameters. Their own rules and any `OverflowError` they raise are not modelled.
- The `if not time` test (time_sheet.py:62-63) is not modelled: a parsed `datetime` is never false.
- The `assert self.start` / `assert self.end` checks of `Interval.validate` are not modelled: the scan always sets both before validating.
- The meeting filter's regular expression (`re.search(args.meeting_id, ...)`) is an arbitrary user-supplied pattern, so it is a predicate parameter and not a regular-expression engine.
- Walking the notes directory, the file-name pattern `^\d\d\d\d-\d\d-\d\d.txt$`, and reading files into lines are left out. The model starts from the lines of one file and its meeting id.
- Terminal output of `todo.py` is left out: `bcolors`, `_format_line`, `_print_paragraph`, the numbering and the headers.
- Decoding files into text is not modelled: text is a sequence of characters. `str.strip()` uses Python's full set of whitespace characters.
