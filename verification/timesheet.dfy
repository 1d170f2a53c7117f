/** The journal interval extractor of `time_sheet.py`: recognising timestamp
    lines, pairing start- and end-tagged timestamp lines into intervals with a
    two-state scan, validating each interval, and the inclusive day-range filter
    applied to the result.

    The permissive date/time parser the program calls is not modelled: it is a
    parameter `parse` of the scan, a partial function from text to points in
    time (`None` where the parser raises `ValueError`). */
module TimeSheet {
  import opened Wrappers
  import opened Seqs
  import opened Text
  import opened Calendar

  /** A point in time: microseconds on a naive (time-zone-free) time line whose
      origin is a midnight. Python's `datetime` values compare in this order. */
  type Time = int

  const MicrosPerDay: int := 86_400_000_000

  /** What one scan needs: a line recogniser and the two boundary tags. The
      program's recogniser is always `ParseTimestampLine` over its date/time
      parser (see `JournalConfig`); the scan itself works for any. */
  datatype Config = Config(stampOf: string -> Option<Stamp>, startTag: string, endTag: string)

  /** A recognised timestamp line: its point in time and its tags. */
  datatype Stamp = Stamp(time: Time, tags: seq<string>)

  /** A closed interval of work and the raw journal lines that belong to it,
      boundary lines included. */
  datatype Interval = Interval(start: Time, end: Time, lines: seq<string>)

  /** The two states of the scan: no interval open, or one open since `start`
      with the lines collected so far. */
  datatype Phase = Idle | Open(start: Time, lines: seq<string>)

  /** Where the scan stands after a prefix of the journal. */
  datatype ScanState = ScanState(phase: Phase, intervals: seq<Interval>)

  /** The four ways a scan aborts. Line numbers are 1-based. */
  datatype ScanError =
    | EndWithoutStart(lineNo: nat, line: string)
    | StartWhileOpen(lineNo: nat, line: string)
    | NegativeDuration(interval: Interval)
    | Unterminated

  /** The calendar day a point in time falls on (`datetime.date()`): the day
      whose 24 hours contain it. */
  function Day(t: Time): (d: Date)
    ensures d * MicrosPerDay <= t < d * MicrosPerDay + MicrosPerDay
  {
    t / MicrosPerDay
  }

  /** The day an interval is billed to (`Interval.day`): the day of its end. */
  function IntervalDay(iv: Interval): (d: Date)
    ensures d * MicrosPerDay <= iv.end < d * MicrosPerDay + MicrosPerDay
  {
    Day(iv.end)
  }

  /** The text handed to the date/time parser: the second and third
      space-separated tokens, joined by one space (fewer if the line has fewer). */
  function DateTimeText(line: string): string
  {
    var tokens := Split(line, ' ');
    Join(tokens[1..if |tokens| < 3 then |tokens| else 3], ' ')
  }

  /** The tags of a timestamp line: the space-separated tokens from the fourth
      on, each stripped of surrounding whitespace. */
  function TagsOf(line: string): seq<string>
  {
    var tokens := Split(line, ' ');
    StripEach(if |tokens| <= 3 then [] else tokens[3..])
  }

  /** `_parse_timestamp_line`: a line is a timestamp line when it starts with
      `"# "` and the parser accepts its date/time text. */
  function ParseTimestampLine(parse: string -> Option<Time>, line: string): (r: Option<Stamp>)
    ensures !StartsWith(line, "# ") ==> r.None?
    ensures StartsWith(line, "# ") ==> (r.Some? <==> parse(DateTimeText(line)).Some?)
    ensures r.Some? ==> Some(r.value.time) == parse(DateTimeText(line)) && r.value.tags == TagsOf(line)
  {
    if !StartsWith(line, "# ") then None
    else
      match parse(DateTimeText(line))
      case None => None
      case Some(t) =>
        Some(Stamp(t, TagsOf(line)))
  }

  /** The tags of a timestamp line are whole space-free tokens, stripped of
      any other surrounding whitespace. */
  lemma StampTagsClean(line: string)
    ensures forall i :: 0 <= i < |TagsOf(line)| ==> ' ' !in TagsOf(line)[i] && IsStripped(TagsOf(line)[i])
  {
    var tokens := Split(line, ' ');
    var rest := if |tokens| <= 3 then [] else tokens[3..];
    SplitPiecesFree(line, ' ');
    forall i | 0 <= i < |rest|
      ensures ' ' !in TagsOf(line)[i] && IsStripped(TagsOf(line)[i])
    {
      assert rest[i] == tokens[i + 3];
      StripKeepsCharacters(rest[i], ' ');
      StripShape(rest[i]);
    }
  }

  /** A timestamp line as the journal writes it: `# <date> <time> <tag> ...`,
      the fields separated by single spaces. */
  function StampLine(date: string, time: string, tags: seq<string>): string
  {
    "# " + Join([date, time] + tags, ' ')
  }

  /** A tag as written in a journal: no space inside and no whitespace around. */
  predicate IsTag(s: string)
  {
    ' ' !in s && IsStripped(s)
  }

  /** The space-separated tokens of a written timestamp line are its fields. */
  lemma StampLineTokens(date: string, time: string, tags: seq<string>)
    requires ' ' !in date && ' ' !in time
    requires forall i :: 0 <= i < |tags| ==> IsTag(tags[i])
    ensures Split(StampLine(date, time, tags), ' ') == ["#", date, time] + tags
  {
    var fields := [date, time] + tags;
    forall i | 0 <= i < |fields|
      ensures ' ' !in fields[i]
    {
      if i >= 2 {
        assert fields[i] == tags[i - 2];
      }
    }
    var hash := "#";
    assert StampLine(date, time, tags) == hash + [' '] + Join(fields, ' ');
    SplitHeadJoin(hash, fields, ' ');
  }

  /** Given the tokens `#`, date, time and tags, the parser is handed
      `<date> <time>`. */
  lemma DateTimeOfTokens(line: string, date: string, time: string, rest: seq<string>)
    requires Split(line, ' ') == ["#", date, time] + rest
    ensures DateTimeText(line) == date + " " + time
  {
    var tokens := Split(line, ' ');
    assert tokens[1..3] == [date, time];
    JoinTwo(date, time, ' ');
  }

  /** Stripping tags as written in a journal leaves them as they are. */
  lemma StripTags(tags: seq<string>)
    requires forall i :: 0 <= i < |tags| ==> IsTag(tags[i])
    ensures StripEach(tags) == tags
  {
    forall i | 0 <= i < |tags|
      ensures StripEach(tags)[i] == tags[i]
    {
      StripStripped(tags[i]);
    }
  }

  /** Given the tokens `#`, date, time and then `rest`, the tags are `rest` stripped. */
  lemma TagsOfTokens(line: string, date: string, time: string, rest: seq<string>)
    requires Split(line, ' ') == ["#", date, time] + rest
    ensures TagsOf(line) == StripEach(rest)
  {
    assert (["#", date, time] + rest)[3..] == rest;
  }

  /** What `_parse_timestamp_line` returns for a line starting with `"# "`,
      given its date/time text and its tags. */
  lemma ParseKnownLine(parse: string -> Option<Time>, line: string, text: string, tags: seq<string>)
    requires StartsWith(line, "# ") && DateTimeText(line) == text && TagsOf(line) == tags
    ensures ParseTimestampLine(parse, line)
         == if parse(text).Some? then Some(Stamp(parse(text).value, tags)) else None
  {
  }

  /** What `_parse_timestamp_line` returns for a line starting with `"# "`
      whose tokens are `#`, a date, a time and tags that strip to `tags`. */
  lemma ParseTokens(parse: string -> Option<Time>, line: string, date: string, time: string,
                    rest: seq<string>, tags: seq<string>)
    requires StartsWith(line, "# ") && Split(line, ' ') == ["#", date, time] + rest
    requires StripEach(rest) == tags
    ensures ParseTimestampLine(parse, line)
         == if parse(date + " " + time).Some? then Some(Stamp(parse(date + " " + time).value, tags)) else None
  {
    DateTimeOfTokens(line, date, time, rest);
    TagsOfTokens(line, date, time, rest);
    ParseKnownLine(parse, line, date + " " + time, tags);
  }

  /** A timestamp line written as `# <date> <time> <tag> ...` reads back as
      written: it is recognised exactly when the parser accepts
      `<date> <time>`, with that time and exactly the tags written. */
  lemma StampLineRoundTrip(parse: string -> Option<Time>, date: string, time: string, tags: seq<string>)
    requires ' ' !in date && ' ' !in time
    requires forall i :: 0 <= i < |tags| ==> IsTag(tags[i])
    ensures ParseTimestampLine(parse, StampLine(date, time, tags))
         == if parse(date + " " + time).Some? then Some(Stamp(parse(date + " " + time).value, tags)) else None
  {
    var line := StampLine(date, time, tags);
    StampLineTokens(date, time, tags);
    StripTags(tags);
    assert line[..2] == "# ";
    ParseTokens(parse, line, date, time, tags, tags);
  }

  /** The same holds for the line as read from the journal file, ending in a
      line break, when it has a tag: the break is stripped off the last tag. */
  lemma StampLineRoundTripNewline(parse: string -> Option<Time>, date: string, time: string, tags: seq<string>)
    requires ' ' !in date && ' ' !in time
    requires forall i :: 0 <= i < |tags| ==> IsTag(tags[i])
    requires |tags| >= 1
    ensures ParseTimestampLine(parse, StampLine(date, time, tags) + "\n")
         == if parse(date + " " + time).Some? then Some(Stamp(parse(date + " " + time).value, tags)) else None
  {
    assert IsSpace('\n');
    StampLineRoundTripEnd(parse, date, time, tags, '\n');
  }

  /** A written timestamp line followed by whitespace other than a space
      reads back as written. */
  lemma StampLineRoundTripEnd(parse: string -> Option<Time>, date: string, time: string, tags: seq<string>, c: char)
    requires ' ' !in date && ' ' !in time
    requires forall i :: 0 <= i < |tags| ==> IsTag(tags[i])
    requires |tags| >= 1 && IsSpace(c) && c != ' '
    ensures ParseTimestampLine(parse, StampLine(date, time, tags) + [c])
         == if parse(date + " " + time).Some? then Some(Stamp(parse(date + " " + time).value, tags)) else None
  {
    var written := StampLine(date, time, tags);
    var line := written + [c];
    var read := TokensRead(date, time, tags, written, c);
    StripReadTags(tags, [c], read);
    ParseTokens(parse, line, date, time, read, tags);
  }

  /** The tokens of a written timestamp line with a character other than a
      space after it: that character ends the last tag. */
  lemma TokensRead(date: string, time: string, tags: seq<string>, written: string, c: char) returns (read: seq<string>)
    requires ' ' !in date && ' ' !in time
    requires forall i :: 0 <= i < |tags| ==> IsTag(tags[i])
    requires |tags| >= 1 && c != ' ' && written == StampLine(date, time, tags)
    ensures read == tags[..|tags| - 1] + [tags[|tags| - 1] + [c]]
    ensures Split(written + [c], ' ') == ["#", date, time] + read
    ensures StartsWith(written + [c], "# ")
  {
    assert (written + [c])[..2] == written[..2];
    var n := |tags|;
    read := tags[..n - 1] + [tags[n - 1] + [c]];
    StampLineTokens(date, time, tags);
    SplitSnocPlain(written, c, ' ');
    var tokens := ["#", date, time] + tags;
    assert tokens[..|tokens| - 1] == ["#", date, time] + tags[..n - 1];
  }

  /** Stripping tags read with whitespace after the last one gives the tags written. */
  lemma StripReadTags(tags: seq<string>, ws: string, read: seq<string>)
    requires forall i :: 0 <= i < |tags| ==> IsTag(tags[i])
    requires AllSpace(ws)
    requires |tags| >= 1 && read == tags[..|tags| - 1] + [tags[|tags| - 1] + ws]
    ensures StripEach(read) == tags
  {
    forall i | 0 <= i < |tags|
      ensures StripEach(read)[i] == tags[i]
    {
      if i < |tags| - 1 {
        assert read[i] == tags[i];
        StripStripped(tags[i]);
      } else {
        StripTrailingSpace(tags[i], ws);
      }
    }
  }

  /** The configuration of `_parse_intervals_from_journal`: timestamp lines
      recognised by `ParseTimestampLine` over the given parser. */
  function JournalConfig(parse: string -> Option<Time>, startTag: string, endTag: string): (cfg: Config)
    ensures forall line :: cfg.stampOf(line) == ParseTimestampLine(parse, line)
    ensures cfg.startTag == startTag && cfg.endTag == endTag
  {
    Config(line => ParseTimestampLine(parse, line), startTag, endTag)
  }

  /** `Interval.validate`: an interval may not end before it starts. */
  function Validate(iv: Interval): (r: Outcome<ScanError>)
    ensures r.Pass? <==> iv.start <= iv.end
    ensures r.Fail? ==> r.error == NegativeDuration(iv)
  {
    if iv.end < iv.start then Fail(NegativeDuration(iv)) else Pass
  }

  /** One iteration of the scan loop of `_parse_intervals_from_journal`, on the
      line numbered `lineNo`. With no interval open the end tag is checked
      before the start tag; with one open the start tag is checked first. */
  function Step(cfg: Config, state: ScanState, line: string, lineNo: nat): Result<ScanState, ScanError>
  {
    var parsed := cfg.stampOf(line);
    match state.phase
    case Idle =>
      if parsed.None? then Success(state)
      else if cfg.endTag in parsed.value.tags then Failure(EndWithoutStart(lineNo, line))
      else if cfg.startTag in parsed.value.tags then
        Success(ScanState(Open(parsed.value.time, [line]), state.intervals))
      else Success(state)
    case Open(start, collected) =>
      if parsed.None? then Success(ScanState(Open(start, collected + [line]), state.intervals))
      else if cfg.startTag in parsed.value.tags then Failure(StartWhileOpen(lineNo, line))
      else if cfg.endTag in parsed.value.tags then
        var iv := Interval(start, parsed.value.time, collected + [line]);
        match Validate(iv)
        case Fail(e) => Failure(e)
        case Pass => Success(ScanState(Idle, state.intervals + [iv]))
      else Success(ScanState(Open(start, collected + [line]), state.intervals))
  }

  /** The scan state after the given lines (the loop run over a prefix of the
      journal), or the error that stopped it. Every interval emitted so far
      starts no later than it ends, an open interval has collected at least
      its start line, and running out of lines is not an error yet. */
  function Scanned(cfg: Config, lines: seq<string>): (r: Result<ScanState, ScanError>)
    ensures r.Success? ==> forall k :: 0 <= k < |r.value.intervals| ==>
              r.value.intervals[k].start <= r.value.intervals[k].end
    ensures r.Success? && r.value.phase.Open? ==> |r.value.phase.lines| >= 1
    ensures r.Failure? ==> !r.error.Unterminated?
    decreases |lines|
  {
    if |lines| == 0 then Success(ScanState(Idle, []))
    else
      match Scanned(cfg, lines[..|lines| - 1])
      case Failure(e) => Failure(e)
      case Success(st) => Step(cfg, st, lines[|lines| - 1], |lines|)
  }

  /** `_parse_intervals_from_journal`: the intervals of a whole journal, or the
      first error. Reaching the end with an interval open is an error. */
  function ParseIntervals(cfg: Config, lines: seq<string>): (r: Result<seq<Interval>, ScanError>)
    ensures r.Success? ==> forall k :: 0 <= k < |r.value| ==> r.value[k].start <= r.value[k].end
  {
    match Scanned(cfg, lines)
    case Failure(e) => Failure(e)
    case Success(st) => if st.phase.Open? then Failure(Unterminated) else Success(st.intervals)
  }

  /** Whether an interval's day lies within the optional inclusive bounds. */
  predicate WithinDays(iv: Interval, from: Option<Date>, until: Option<Date>)
  {
    && (from.None? || IntervalDay(iv) >= from.value)
    && (until.None? || IntervalDay(iv) <= until.value)
  }

  /** The day-range filter of `main`: first drop the intervals before the start
      date (if given), then those after the end date (if given). The result
      keeps exactly the intervals whose day is within both bounds, in order. */
  function FilterByDay(ivs: seq<Interval>, from: Option<Date>, until: Option<Date>): (r: seq<Interval>)
    ensures r == Filter(ivs, iv => WithinDays(iv, from, until))
    ensures forall iv :: iv in r <==> iv in ivs && WithinDays(iv, from, until)
    ensures IsSubsequence(r, ivs)
  {
    var afterFrom := if from.Some? then Filter(ivs, iv => IntervalDay(iv) >= from.value) else ivs;
    var r := if until.Some? then Filter(afterFrom, iv => IntervalDay(iv) <= until.value) else afterFrom;
    FilterByDayIsOneFilter(ivs, from, until);
    forall iv
      ensures iv in r <==> iv in ivs && WithinDays(iv, from, until)
    {
      FilterMembership(ivs, iv => WithinDays(iv, from, until), iv);
    }
    r
  }

  /** The two successive filters of `main` are one filter on both bounds. */
  lemma FilterByDayIsOneFilter(ivs: seq<Interval>, from: Option<Date>, until: Option<Date>)
    ensures
      var afterFrom := if from.Some? then Filter(ivs, iv => IntervalDay(iv) >= from.value) else ivs;
      (if until.Some? then Filter(afterFrom, iv => IntervalDay(iv) <= until.value) else afterFrom)
        == Filter(ivs, iv => WithinDays(iv, from, until))
  {
    var both := iv => WithinDays(iv, from, until);
    var keepAll := (iv: Interval) => true;
    if from.Some? && until.Some? {
      FilterFilter(ivs, iv => IntervalDay(iv) >= from.value, iv => IntervalDay(iv) <= until.value, both);
    } else if from.Some? {
      FilterFilter(ivs, iv => IntervalDay(iv) >= from.value, keepAll, both);
      FilterAll(Filter(ivs, iv => IntervalDay(iv) >= from.value), keepAll);
    } else if until.Some? {
      FilterFilter(ivs, keepAll, iv => IntervalDay(iv) <= until.value, both);
      FilterAll(ivs, keepAll);
    } else {
      FilterAll(ivs, both);
    }
  }
}
