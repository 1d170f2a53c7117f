/** The TODO scanner of `todo.py`: recognising TODO lines, cutting a note
    file's lines into paragraphs that each carry one TODO with its context,
    reading owners and a deadline out of a paragraph's `TODO(...)` groups, and
    the owner filters applied before printing.

    The two regular expressions are written out as the searches they perform.
    The deadline parser (`strptime` with `%Y-%m-%d`) is a parameter: a partial
    function from an item to a day number (`None` where it raises `ValueError`).
    The `--meeting_id` regular expression is a parameter too: a predicate on
    the meeting id. */
module Todo {
  import opened Wrappers
  import opened Seqs
  import opened Text
  import opened Calendar

  /** A paragraph: its raw lines and the meeting whose notes it comes from. */
  datatype Paragraph = Paragraph(lines: seq<string>, meetingId: string)

  /** The state of the segmentation loop: the paragraphs emitted so far, the
      lines of the paragraph being gathered (`lines` in the program), and the
      `active_todo` flag. */
  datatype Segmenter = Segmenter(paragraphs: seq<Paragraph>, buffer: seq<string>, activeTodo: bool)

  /** What `_get_metadata_from_todo` reads out of a paragraph. */
  datatype Metadata = Metadata(owners: set<string>, deadline: Option<Date>)

  /** The owner filters and the meeting filter of `main`; `None` where the
      option was not given. */
  datatype Selection = Selection(owner: Option<string>, inverseOwner: Option<string>,
                                 meetingMatches: Option<string -> bool>)

  const TodoOpen: string := "TODO("
  const Blank: string := "\n"

  // ---------------------------------------------------------------------------
  // Recognising TODO lines: `re.match(r" *TODO\(.*\)", line)`

  /** The number of spaces the text starts with. */
  function LeadingSpaces(s: string): (n: nat)
    ensures n <= |s|
    ensures forall i :: 0 <= i < n ==> s[i] == ' '
    ensures n < |s| ==> s[n] != ' '
    decreases |s|
  {
    if |s| > 0 && s[0] == ' ' then 1 + LeadingSpaces(s[1..]) else 0
  }

  /** Whether a `)` comes before any line break (`.*\)` matches a prefix). */
  predicate CloseBeforeNewline(s: string)
    decreases |s|
  {
    if |s| == 0 then false
    else if s[0] == ')' then true
    else if s[0] == '\n' then false
    else CloseBeforeNewline(s[1..])
  }

  /** `_line_contains_todo`: the line is spaces, then `TODO(`, then a `)`
      later on the same line. */
  predicate LineContainsTodo(line: string)
  {
    var k := LeadingSpaces(line);
    StartsWith(line[k..], TodoOpen) && CloseBeforeNewline(line[k + |TodoOpen|..])
  }

  /** `_paragraph_contains_todo`: some line of the paragraph is a TODO line. */
  predicate ParagraphContainsTodo(lines: seq<string>)
    decreases |lines|
  {
    |lines| > 0 && (ParagraphContainsTodo(lines[..|lines| - 1]) || LineContainsTodo(lines[|lines| - 1]))
  }

  /** The number of TODO lines among the given lines. */
  function TodoCount(lines: seq<string>): nat
    decreases |lines|
  {
    if |lines| == 0 then 0
    else TodoCount(lines[..|lines| - 1]) + (if LineContainsTodo(lines[|lines| - 1]) then 1 else 0)
  }

  // ---------------------------------------------------------------------------
  // The paragraph-segmentation loop of `main`

  /** One iteration of the loop, on `line`. A blank line, or a TODO line
      while the buffer already holds one, closes the buffer (emitting it if it
      holds a TODO) and starts a new one with the line, unless it is blank.
      The flag records whether the buffer holds a TODO line; the assignment
      on todo.py line 78 is overwritten on line 82, so after a flush the flag
      is just whether the new line is a TODO line. */
  function SegmentStep(meetingId: string, st: Segmenter, line: string): Segmenter
  {
    if line == Blank || (st.activeTodo && LineContainsTodo(line)) then
      var paragraphs :=
        if ParagraphContainsTodo(st.buffer) then st.paragraphs + [Paragraph(st.buffer, meetingId)]
        else st.paragraphs;
      var buffer := if line != Blank then [line] else [];
      Segmenter(paragraphs, buffer, LineContainsTodo(line))
    else
      Segmenter(st.paragraphs, st.buffer + [line], st.activeTodo || LineContainsTodo(line))
  }

  /** The loop state after the given lines. */
  function Segmented(meetingId: string, lines: seq<string>): Segmenter
    decreases |lines|
  {
    if |lines| == 0 then Segmenter([], [], false)
    else SegmentStep(meetingId, Segmented(meetingId, lines[..|lines| - 1]), lines[|lines| - 1])
  }

  /** The paragraphs of a note file: the loop's paragraphs, then the last
      buffer if it is non-empty and holds a TODO line. */
  function Paragraphs(meetingId: string, lines: seq<string>): seq<Paragraph>
  {
    var st := Segmented(meetingId, lines);
    if |st.buffer| > 0 && ParagraphContainsTodo(st.buffer) then
      st.paragraphs + [Paragraph(st.buffer, meetingId)]
    else st.paragraphs
  }

  /** The lines of each paragraph. */
  function Texts(ps: seq<Paragraph>): (r: seq<seq<string>>)
    ensures |r| == |ps|
    ensures forall k :: 0 <= k < |ps| ==> r[k] == ps[k].lines
  {
    seq(|ps|, k requires 0 <= k < |ps| => ps[k].lines)
  }

  // ---------------------------------------------------------------------------
  // Reading metadata: `re.findall(r" *TODO\(([^\)]*)\)", line)[0]`

  /** `pat` occurs in `s` at index `q`. */
  predicate OccursAt(s: string, pat: string, q: int)
  {
    0 <= q && q + |pat| <= |s| && s[q..q + |pat|] == pat
  }

  /** The first index from `from` on where `pat` occurs in `s`, if any. */
  function FindFrom(s: string, pat: string, from: nat): (r: Option<nat>)
    ensures r.Some? ==> from <= r.value && OccursAt(s, pat, r.value)
    ensures forall q :: from <= q && (r.None? || q < r.value) ==> !OccursAt(s, pat, q)
    decreases |s| - from
  {
    if from + |pat| > |s| then None
    else if s[from..from + |pat|] == pat then Some(from)
    else FindFrom(s, pat, from + 1)
  }

  /** The text captured by the first match of ` *TODO\(([^\)]*)\)` in the
      line: from the first `TODO(` to the first `)` after it. No match when
      there is no `TODO(`, or no `)` after the first one. */
  function FirstTodoGroup(line: string): Option<string>
  {
    match FindFrom(line, TodoOpen, 0)
    case None => None
    case Some(q) =>
      match FindFrom(line, ")", q + |TodoOpen|)
      case None => None
      case Some(c) => Some(line[q + |TodoOpen|..c])
  }

  /** The items of a line's first TODO group: split on commas, each stripped. */
  function LineItems(line: string): seq<string>
  {
    match FirstTodoGroup(line)
    case None => []
    case Some(g) => StripEach(Split(g, ','))
  }

  /** The items of every line of a paragraph, in order. */
  function AllItems(lines: seq<string>): seq<string>
    decreases |lines|
  {
    if |lines| == 0 then [] else AllItems(lines[..|lines| - 1]) + LineItems(lines[|lines| - 1])
  }

  /** One item: a date sets the deadline, anything else is an owner. */
  function NoteItem(parseDate: string -> Option<Date>, md: Metadata, item: string): Metadata
  {
    match parseDate(item)
    case Some(d) => md.(deadline := Some(d))
    case None => md.(owners := md.owners + {item})
  }

  /** The items in order, from `md` on. */
  function NoteItems(parseDate: string -> Option<Date>, md: Metadata, items: seq<string>): Metadata
    decreases |items|
  {
    if |items| == 0 then md
    else NoteItem(parseDate, NoteItems(parseDate, md, items[..|items| - 1]), items[|items| - 1])
  }

  /** `_get_metadata_from_todo`: line by line, the items of the line's first
      TODO group, starting from no owners and no deadline. */
  function GetMetadata(parseDate: string -> Option<Date>, lines: seq<string>): Metadata
    decreases |lines|
  {
    if |lines| == 0 then Metadata({}, None)
    else NoteItems(parseDate, GetMetadata(parseDate, lines[..|lines| - 1]), LineItems(lines[|lines| - 1]))
  }

  // ---------------------------------------------------------------------------
  // Filtering paragraphs before printing

  /** Whether a paragraph passes the filters of `main`: it is skipped when an
      owner is asked for and is not among its owners, when an inverse owner is
      asked for and is among them, or when a meeting filter is given and
      rejects its meeting. */
  predicate Wanted(parseDate: string -> Option<Date>, sel: Selection, p: Paragraph)
  {
    var owners := GetMetadata(parseDate, p.lines).owners;
    && !(sel.owner.Some? && sel.owner.value !in owners)
    && !(sel.inverseOwner.Some? && sel.inverseOwner.value in owners)
    && !(sel.meetingMatches.Some? && !sel.meetingMatches.value(p.meetingId))
  }

  /** The filter loop of `main`: the wanted paragraphs, in order. Every
      occurrence of a wanted paragraph is kept, repeated ones included, and
      nothing else. */
  function SelectParagraphs(parseDate: string -> Option<Date>, sel: Selection, ps: seq<Paragraph>): (r: seq<Paragraph>)
    ensures forall p :: multiset(r)[p] == if Wanted(parseDate, sel, p) then multiset(ps)[p] else 0
    ensures forall p :: p in r <==> p in ps && Wanted(parseDate, sel, p)
    ensures IsSubsequence(r, ps)
  {
    var wanted := p => Wanted(parseDate, sel, p);
    var r := Filter(ps, wanted);
    forall p
      ensures p in r <==> p in ps && Wanted(parseDate, sel, p)
    {
      FilterMembership(ps, wanted, p);
    }
    r
  }
}
