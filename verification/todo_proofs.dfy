/** What the TODO scanner computes, stated without its loops: the two regular
    expressions as match conditions, the metadata as sets and "last one wins",
    and the paragraphs by the invariants the segmentation loop keeps. */
module TodoProofs {
  import opened Wrappers
  import opened Seqs
  import opened Text
  import opened Calendar
  import opened Todo

  // ---------------------------------------------------------------------------
  // `_line_contains_todo` and `_paragraph_contains_todo`

  /** A `)` at index `j` with no line break before it. */
  predicate CloseAt(s: string, j: int)
  {
    0 <= j < |s| && s[j] == ')' && '\n' !in s[..j]
  }

  /** `CloseBeforeNewline` finds exactly such a `)`. */
  lemma {:induction false} CloseBeforeNewlineExactly(s: string)
    ensures CloseBeforeNewline(s) <==> exists j :: CloseAt(s, j)
    decreases |s|
  {
    if |s| == 0 {
    } else if s[0] == ')' {
      assert CloseAt(s, 0);
    } else if s[0] == '\n' {
      forall j | 0 < j < |s|
        ensures !CloseAt(s, j)
      {
        assert s[..j][0] == '\n';
      }
    } else {
      var t := s[1..];
      CloseBeforeNewlineExactly(t);
      forall j | 0 <= j < |t|
        ensures CloseAt(t, j) <==> CloseAt(s, j + 1)
      {
        assert s[..j + 1] == [s[0]] + t[..j];
      }
      if CloseBeforeNewline(s) {
        var j :| CloseAt(t, j);
        assert CloseAt(s, j + 1);
      }
      forall j | CloseAt(s, j)
        ensures CloseAt(t, j - 1)
      {
      }
    }
  }

  /** A match of ` *TODO\(.*\)` at the start of the line using `k` spaces and
      ending at the `)` at index `j` (`.` does not match a line break). */
  predicate TodoMatchAt(line: string, k: int, j: int)
  {
    && 0 <= k && k + |TodoOpen| <= j < |line|
    && (forall i :: 0 <= i < k ==> line[i] == ' ')
    && line[k..k + |TodoOpen|] == TodoOpen
    && line[j] == ')'
    && '\n' !in line[k + |TodoOpen|..j]
  }

  /** Spaces up to a non-space: that is how many the line starts with. */
  lemma {:induction false} LeadingSpacesAt(s: string, k: nat)
    requires k < |s| && s[k] != ' '
    requires forall i :: 0 <= i < k ==> s[i] == ' '
    ensures LeadingSpaces(s) == k
    decreases k
  {
    if k > 0 {
      LeadingSpacesAt(s[1..], k - 1);
    }
  }

  /** A TODO line has a match at its start. */
  lemma LineContainsTodoSound(line: string) returns (k: nat, j: nat)
    requires LineContainsTodo(line)
    ensures TodoMatchAt(line, k, j)
  {
    k := LeadingSpaces(line);
    var w := |TodoOpen|;
    var rest := line[k + w..];
    CloseBeforeNewlineExactly(rest);
    var j' :| CloseAt(rest, j');
    j := k + w + j';
    assert line[k..k + w] == line[k..][..w];
    assert line[k + w..j] == rest[..j'] by {
      forall i | 0 <= i < j'
        ensures line[k + w..j][i] == rest[i]
      {
      }
    }
  }

  /** A match at the start makes a TODO line. */
  lemma LineContainsTodoComplete(line: string, k: int, j: int)
    requires TodoMatchAt(line, k, j)
    ensures LineContainsTodo(line)
  {
    var w := |TodoOpen|;
    assert line[k] == line[k..k + w][0] == 'T';
    LeadingSpacesAt(line, k);
    assert line[k..][..w] == TodoOpen;
    var rest := line[k + w..];
    var j' := j - k - w;
    assert rest[..j'] == line[k + w..j];
    assert CloseAt(rest, j');
    CloseBeforeNewlineExactly(rest);
  }

  /** `_line_contains_todo` holds exactly when ` *TODO\(.*\)` matches at the
      start of the line. */
  lemma LineContainsTodoExactly(line: string)
    ensures LineContainsTodo(line) <==> exists k, j :: TodoMatchAt(line, k, j)
  {
    if LineContainsTodo(line) {
      var k, j := LineContainsTodoSound(line);
    }
    if exists k, j :: TodoMatchAt(line, k, j) {
      var k, j :| TodoMatchAt(line, k, j);
      LineContainsTodoComplete(line, k, j);
    }
  }

  /** `_paragraph_contains_todo` holds exactly when some line is a TODO line. */
  lemma {:induction false} ParagraphContainsTodoExactly(lines: seq<string>)
    ensures ParagraphContainsTodo(lines) <==> exists i :: 0 <= i < |lines| && LineContainsTodo(lines[i])
    decreases |lines|
  {
    if |lines| > 0 {
      var init := lines[..|lines| - 1];
      ParagraphContainsTodoExactly(init);
      assert forall i :: 0 <= i < |init| ==> init[i] == lines[i];
    }
  }

  // ---------------------------------------------------------------------------
  // The first group of `re.findall(r" *TODO\(([^\)]*)\)", line)`

  /** The pattern matches from index `p`: spaces up to `q`, `TODO(` at `q`,
      then everything up to the first `)` after it, at `c`. The group is
      `line[q + 5..c]`; `[^\)]` does match line breaks. */
  predicate GroupMatchAt(line: string, p: int, q: int, c: int)
  {
    && OccursAt(line, TodoOpen, q)
    && 0 <= p <= q
    && (forall i :: p <= i < q ==> line[i] == ' ')
    && q + |TodoOpen| <= c < |line|
    && line[c] == ')'
    && ')' !in line[q + |TodoOpen|..c]
  }

  /** The match `findall` reports first: no match starts earlier. */
  ghost predicate FirstGroupMatchAt(line: string, p: int, q: int, c: int)
  {
    && GroupMatchAt(line, p, q, c)
    && forall p', q', c' :: 0 <= p' < p ==> !GroupMatchAt(line, p', q', c')
  }

  /** A one-character pattern occurs where that character is. */
  lemma OccursAtChar(s: string, ch: char, i: int)
    ensures OccursAt(s, [ch], i) <==> 0 <= i < |s| && s[i] == ch
  {
    if 0 <= i < |s| {
      assert s[i..i + 1] == [s[i]];
    }
  }

  /** The number of spaces just before index `q`. */
  function SpacesBefore(s: string, q: nat): (n: nat)
    requires q <= |s|
    ensures n <= q
    ensures forall i :: q - n <= i < q ==> s[i] == ' '
    ensures q - n == 0 || s[q - n - 1] != ' '
    decreases q
  {
    if q > 0 && s[q - 1] == ' ' then 1 + SpacesBefore(s, q - 1) else 0
  }

  /** Any match starts no earlier than the space run before the first `TODO(`. */
  lemma MatchStartsAtRun(line: string, p: int, q: int, c: int, q0: nat)
    requires GroupMatchAt(line, p, q, c)
    requires OccursAt(line, TodoOpen, q0)
    requires forall i :: 0 <= i < q0 ==> !OccursAt(line, TodoOpen, i)
    ensures q0 - SpacesBefore(line, q0) <= p
  {
    var p0 := q0 - SpacesBefore(line, q0);
    assert line[q0] == line[q0..q0 + |TodoOpen|][0] == 'T';
    assert q0 <= q;
    assert p0 == 0 || line[p0 - 1] != ' ';
  }

  /** Any match implies the searches of `FirstTodoGroup` succeed. */
  lemma MatchFindsGroup(line: string, p: int, q: int, c: int)
    requires GroupMatchAt(line, p, q, c)
    ensures FirstTodoGroup(line).Some?
  {
    var r := FindFrom(line, TodoOpen, 0);
    assert OccursAt(line, TodoOpen, q);
    var q0 := r.value;
    assert q0 <= q;
    OccursAtChar(line, ')', c);
    assert FindFrom(line, ")", q0 + |TodoOpen|).Some?;
  }

  /** The group `FirstTodoGroup` returns is the one of the first match. */
  lemma FirstTodoGroupMatches(line: string) returns (p: nat, q: nat, c: nat)
    requires FirstTodoGroup(line).Some?
    ensures FirstGroupMatchAt(line, p, q, c)
    ensures FirstTodoGroup(line).value == line[q + |TodoOpen|..c]
  {
    q := FindFrom(line, TodoOpen, 0).value;
    c := FindFrom(line, ")", q + |TodoOpen|).value;
    p := q - SpacesBefore(line, q);
    OccursAtChar(line, ')', c);
    forall i | q + |TodoOpen| <= i < c
      ensures line[i] != ')'
    {
      OccursAtChar(line, ')', i);
    }
    assert GroupMatchAt(line, p, q, c);
    forall p', q', c' | GroupMatchAt(line, p', q', c')
      ensures p <= p'
    {
      MatchStartsAtRun(line, p', q', c', q);
    }
  }

  /** A match is determined by where it starts. */
  lemma GroupMatchUnique(line: string, p: int, q: int, c: int, q': int, c': int)
    requires GroupMatchAt(line, p, q, c) && GroupMatchAt(line, p, q', c')
    ensures q == q' && c == c'
  {
    assert line[q] == line[q..q + |TodoOpen|][0] == 'T';
    assert line[q'] == line[q'..q' + |TodoOpen|][0] == 'T';
    assert q == q';
    assert line[c] == ')' && line[c'] == ')';
  }

  /** `FirstTodoGroup` is the first group `findall` reports, and there is
      none exactly when the pattern matches nowhere in the line. */
  lemma FirstTodoGroupExactly(line: string, g: string)
    ensures FirstTodoGroup(line) == Some(g) <==>
              exists p, q, c :: FirstGroupMatchAt(line, p, q, c) && g == line[q + |TodoOpen|..c]
    ensures FirstTodoGroup(line).None? <==> forall p, q, c :: !GroupMatchAt(line, p, q, c)
  {
    if FirstTodoGroup(line).Some? {
      var p, q, c := FirstTodoGroupMatches(line);
      forall p', q', c' | FirstGroupMatchAt(line, p', q', c')
        ensures q' == q && c' == c
      {
        assert p' == p;
        GroupMatchUnique(line, p, q, c, q', c');
      }
    }
    forall p, q, c | GroupMatchAt(line, p, q, c)
      ensures FirstTodoGroup(line).Some?
    {
      MatchFindsGroup(line, p, q, c);
    }
  }

  // ---------------------------------------------------------------------------
  // `_get_metadata_from_todo`

  /** Items are taken one after another. */
  lemma {:induction false} NoteItemsAppend(pd: string -> Option<Date>, md: Metadata, a: seq<string>, b: seq<string>)
    ensures NoteItems(pd, md, a + b) == NoteItems(pd, NoteItems(pd, md, a), b)
    decreases |b|
  {
    if |b| == 0 {
      assert a + b == a;
    } else {
      var b' := b[..|b| - 1];
      assert (a + b)[..|a + b| - 1] == a + b';
      NoteItemsAppend(pd, md, a, b');
    }
  }

  /** Reading a paragraph is reading all its lines' items in order. */
  lemma {:induction false} GetMetadataReadsAllItems(pd: string -> Option<Date>, lines: seq<string>)
    ensures GetMetadata(pd, lines) == NoteItems(pd, Metadata({}, None), AllItems(lines))
    decreases |lines|
  {
    if |lines| > 0 {
      var init := lines[..|lines| - 1];
      GetMetadataReadsAllItems(pd, init);
      NoteItemsAppend(pd, Metadata({}, None), AllItems(init), LineItems(lines[|lines| - 1]));
    }
  }

  /** The owners added by some items: those the date parser rejects. */
  lemma {:induction false} NoteItemsOwners(pd: string -> Option<Date>, md: Metadata, items: seq<string>)
    ensures NoteItems(pd, md, items).owners == md.owners + (set o | o in items && pd(o).None?)
    decreases |items|
  {
    if |items| > 0 {
      var init := items[..|items| - 1];
      NoteItemsOwners(pd, md, init);
      assert items == init + [items[|items| - 1]];
    }
  }

  /** Item `i` is a date and no later item is. */
  predicate LastDateAt(pd: string -> Option<Date>, items: seq<string>, i: int)
  {
    0 <= i < |items| && pd(items[i]).Some? && forall i' :: i < i' < |items| ==> pd(items[i']).None?
  }

  /** Items without a date leave the deadline alone. */
  lemma {:induction false} NoteItemsNoDate(pd: string -> Option<Date>, md: Metadata, items: seq<string>)
    requires forall i :: 0 <= i < |items| ==> pd(items[i]).None?
    ensures NoteItems(pd, md, items).deadline == md.deadline
    decreases |items|
  {
    if |items| > 0 {
      var n := |items| - 1;
      var init := items[..n];
      forall i | 0 <= i < n
        ensures pd(init[i]).None?
      {
        assert init[i] == items[i];
      }
      NoteItemsNoDate(pd, md, init);
      assert pd(items[n]).None?;
    }
  }

  /** The last date among the items is the deadline. */
  lemma {:induction false} NoteItemsLastDate(pd: string -> Option<Date>, md: Metadata, items: seq<string>, i: int)
    requires LastDateAt(pd, items, i)
    ensures NoteItems(pd, md, items).deadline == pd(items[i])
    decreases |items|
  {
    var n := |items| - 1;
    var init := items[..n];
    if i < n {
      assert pd(items[n]).None?;
      forall i' | i < i' < n
        ensures pd(init[i']).None?
      {
        assert init[i'] == items[i'];
      }
      assert init[i] == items[i];
      NoteItemsLastDate(pd, md, init, i);
    }
  }

  /** A date among the items means there is a last one, at or after it. */
  lemma {:induction false} LastDateFound(pd: string -> Option<Date>, items: seq<string>, i: int) returns (j: int)
    requires 0 <= i < |items| && pd(items[i]).Some?
    ensures i <= j && LastDateAt(pd, items, j)
    decreases |items|
  {
    var n := |items| - 1;
    if pd(items[n]).Some? {
      j := n;
    } else {
      var init := items[..n];
      assert init[i] == items[i];
      j := LastDateFound(pd, init, i);
      forall i' | j < i' < |items|
        ensures pd(items[i']).None?
      {
        if i' < n {
          assert init[i'] == items[i'];
        }
      }
      assert init[j] == items[j];
    }
  }

  /** The deadline after some items: the last date among them, if any. */
  lemma {:induction false} NoteItemsDeadline(pd: string -> Option<Date>, md: Metadata, items: seq<string>)
    ensures (forall i :: 0 <= i < |items| ==> pd(items[i]).None?) ==> NoteItems(pd, md, items).deadline == md.deadline
    ensures forall i :: LastDateAt(pd, items, i) ==> NoteItems(pd, md, items).deadline == pd(items[i])
    ensures (exists i :: 0 <= i < |items| && pd(items[i]).Some?) ==> exists i :: LastDateAt(pd, items, i)
  {
    if forall i :: 0 <= i < |items| ==> pd(items[i]).None? {
      NoteItemsNoDate(pd, md, items);
    } else {
      var i :| 0 <= i < |items| && pd(items[i]).Some?;
      var j := LastDateFound(pd, items, i);
    }
    forall i | LastDateAt(pd, items, i)
      ensures NoteItems(pd, md, items).deadline == pd(items[i])
    {
      NoteItemsLastDate(pd, md, items, i);
    }
  }

  /** `_get_metadata_from_todo`: the owners are exactly the items of the
      paragraph's first TODO groups that are not dates (the empty item
      included), and the deadline is the last date among them, or none when
      there is no date. */
  lemma {:induction false} GetMetadataExactly(pd: string -> Option<Date>, lines: seq<string>)
    ensures var items := AllItems(lines);
      && GetMetadata(pd, lines).owners == (set o | o in items && pd(o).None?)
      && (GetMetadata(pd, lines).deadline.None? <==> forall i :: 0 <= i < |items| ==> pd(items[i]).None?)
      && (forall i :: LastDateAt(pd, items, i) ==> GetMetadata(pd, lines).deadline == pd(items[i]))
  {
    var items := AllItems(lines);
    var md0 := Metadata({}, None);
    GetMetadataReadsAllItems(pd, lines);
    NoteItemsOwners(pd, md0, items);
    NoteItemsDeadline(pd, md0, items);
  }

  // ---------------------------------------------------------------------------
  // The paragraph-segmentation loop

  /** What every emitted paragraph looks like: non-empty, no blank line, exactly
      one TODO line, and the meeting it was read from. */
  predicate GoodParagraph(meetingId: string, p: Paragraph)
  {
    && |p.lines| > 0
    && Blank !in p.lines
    && TodoCount(p.lines) == 1
    && p.meetingId == meetingId
  }

  /** A blank line is not a TODO line. */
  lemma BlankIsNotTodo()
    ensures !LineContainsTodo(Blank)
  {
    assert LeadingSpaces(Blank) == 0;
  }

  /** One more line adds it to the TODO lines if it is one. */
  lemma TodoCountSnoc(s: seq<string>, x: string)
    ensures TodoCount(s + [x]) == TodoCount(s) + (if LineContainsTodo(x) then 1 else 0)
  {
    assert (s + [x])[..|s|] == s;
  }

  /** One more line holds a TODO if it is a TODO line. */
  lemma ContainsTodoSnoc(s: seq<string>, x: string)
    ensures ParagraphContainsTodo(s + [x]) == (ParagraphContainsTodo(s) || LineContainsTodo(x))
  {
    assert (s + [x])[..|s|] == s;
  }

  /** A paragraph holds a TODO exactly when it has TODO lines. */
  lemma {:induction false} ContainsTodoIffCount(s: seq<string>)
    ensures ParagraphContainsTodo(s) <==> TodoCount(s) > 0
    decreases |s|
  {
    if |s| > 0 {
      var init := s[..|s| - 1];
      ContainsTodoIffCount(init);
      assert s == init + [s[|s| - 1]];
      TodoCountSnoc(init, s[|s| - 1]);
      ContainsTodoSnoc(init, s[|s| - 1]);
    }
  }

  /** A paragraph holds a TODO when a part of it does. */
  lemma {:induction false} ContainsTodoAppend(a: seq<string>, b: seq<string>)
    ensures ParagraphContainsTodo(a + b) == (ParagraphContainsTodo(a) || ParagraphContainsTodo(b))
    decreases |b|
  {
    if |b| == 0 {
      assert a + b == a;
    } else {
      var b' := b[..|b| - 1];
      var x := b[|b| - 1];
      ContainsTodoAppend(a, b');
      var ab' := a + b';
      assert a + b == ab' + [x];
      ContainsTodoSnoc(ab', x);
      assert b == b' + [x];
      ContainsTodoSnoc(b', x);
    }
  }

  /** A subsequence stays one when both sides grow by the same element. */
  lemma SubsequenceSnoc<T>(a: seq<T>, b: seq<T>, x: T)
    requires IsSubsequence(a, b)
    ensures IsSubsequence(a + [x], b + [x])
  {
    assert (a + [x])[..|a|] == a;
    assert (b + [x])[..|b|] == b;
  }

  /** A subsequence stays one when the longer side grows. */
  lemma SubsequenceExtend<T>(a: seq<T>, b: seq<T>, x: T)
    requires IsSubsequence(a, b)
    ensures IsSubsequence(a, b + [x])
  {
    assert (b + [x])[..|b|] == b;
  }

  /** The invariant of the segmentation loop after `lines`: the flag says
      whether the buffer holds a TODO line; the buffer has no blank line and
      at most one TODO line; every paragraph emitted is good; each TODO line
      read is in a paragraph or in the buffer; and the paragraphs followed by
      the buffer are a subsequence of the lines read. */
  predicate Invariant(meetingId: string, lines: seq<string>, st: Segmenter)
  {
    && st.activeTodo == ParagraphContainsTodo(st.buffer)
    && Blank !in st.buffer
    && TodoCount(st.buffer) <= 1
    && (forall k :: 0 <= k < |st.paragraphs| ==> GoodParagraph(meetingId, st.paragraphs[k]))
    && TodoCount(lines) == |st.paragraphs| + TodoCount(st.buffer)
    && IsSubsequence(Flatten(Texts(st.paragraphs)) + st.buffer, lines)
  }

  /** Flushing a buffer that holds a TODO emits a good paragraph. */
  lemma FlushGood(meetingId: string, st: Segmenter)
    requires Blank !in st.buffer && TodoCount(st.buffer) <= 1 && ParagraphContainsTodo(st.buffer)
    requires forall k :: 0 <= k < |st.paragraphs| ==> GoodParagraph(meetingId, st.paragraphs[k])
    ensures var ps := st.paragraphs + [Paragraph(st.buffer, meetingId)];
      && (forall k :: 0 <= k < |ps| ==> GoodParagraph(meetingId, ps[k]))
      && Flatten(Texts(ps)) == Flatten(Texts(st.paragraphs)) + st.buffer
  {
    var ps := st.paragraphs + [Paragraph(st.buffer, meetingId)];
    ContainsTodoIffCount(st.buffer);
    assert Texts(ps) == Texts(st.paragraphs) + [st.buffer];
    FlattenSnoc(Texts(st.paragraphs), st.buffer);
  }

  /** A blank line keeps the invariant. */
  lemma {:induction false} InvariantBlank(meetingId: string, lines: seq<string>, st: Segmenter)
    requires Invariant(meetingId, lines, st)
    ensures Invariant(meetingId, lines + [Blank], SegmentStep(meetingId, st, Blank))
  {
    var st' := SegmentStep(meetingId, st, Blank);
    var flat := Flatten(Texts(st.paragraphs));
    BlankIsNotTodo();
    TodoCountSnoc(lines, Blank);
    ContainsTodoSnoc(lines, Blank);
    ContainsTodoIffCount(st.buffer);
    assert st'.buffer == [];
    assert TodoCount([]) == 0;
    assert flat + st.buffer + [] == flat + st.buffer;
    if ParagraphContainsTodo(st.buffer) {
      FlushGood(meetingId, st);
    } else {
      SubsequenceDropSuffix(flat, st.buffer, lines);
      assert flat + [] == flat;
    }
    SubsequenceExtend(Flatten(Texts(st'.paragraphs)), lines, Blank);
  }

  /** A second TODO line keeps the invariant. */
  lemma {:induction false} InvariantSecondTodo(meetingId: string, lines: seq<string>, st: Segmenter, x: string)
    requires Invariant(meetingId, lines, st)
    requires x != Blank && st.activeTodo && LineContainsTodo(x)
    ensures Invariant(meetingId, lines + [x], SegmentStep(meetingId, st, x))
  {
    var st' := SegmentStep(meetingId, st, x);
    var flat := Flatten(Texts(st.paragraphs));
    TodoCountSnoc(lines, x);
    ContainsTodoSnoc(lines, x);
    TodoCountSnoc([], x);
    ContainsTodoSnoc([], x);
    assert [] + [x] == [x];
    FlushGood(meetingId, st);
    SubsequenceSnoc(flat + st.buffer, lines, x);
  }

  /** Any other line keeps the invariant. */
  lemma InvariantGather(meetingId: string, lines: seq<string>, st: Segmenter, x: string)
    requires Invariant(meetingId, lines, st)
    requires x != Blank && !(st.activeTodo && LineContainsTodo(x))
    ensures Invariant(meetingId, lines + [x], SegmentStep(meetingId, st, x))
  {
    var flat := Flatten(Texts(st.paragraphs));
    TodoCountSnoc(lines, x);
    ContainsTodoSnoc(lines, x);
    TodoCountSnoc(st.buffer, x);
    ContainsTodoSnoc(st.buffer, x);
    ContainsTodoIffCount(st.buffer);
    SubsequenceSnoc(flat + st.buffer, lines, x);
    assert flat + st.buffer + [x] == flat + (st.buffer + [x]);
  }

  /** The loop keeps its invariant over every prefix. */
  lemma {:induction false} SegmentedInvariant(meetingId: string, lines: seq<string>)
    ensures Invariant(meetingId, lines, Segmented(meetingId, lines))
    decreases |lines|
  {
    if |lines| == 0 {
      assert Texts([]) == [];
      assert TodoCount([]) == 0;
    } else {
      var init := lines[..|lines| - 1];
      var x := lines[|lines| - 1];
      var st := Segmented(meetingId, init);
      SegmentedInvariant(meetingId, init);
      assert lines == init + [x];
      if x == Blank {
        InvariantBlank(meetingId, init, st);
      } else if st.activeTodo && LineContainsTodo(x) {
        InvariantSecondTodo(meetingId, init, st, x);
      } else {
        InvariantGather(meetingId, init, st, x);
      }
    }
  }

  /** A blank line ends the paragraph being gathered: it is emitted if it holds
      a TODO (and dropped otherwise), and the blank line itself is kept nowhere. */
  lemma BlankLineClosesParagraph(meetingId: string, lines: seq<string>)
    ensures var st := Segmented(meetingId, lines);
      var st' := Segmented(meetingId, lines + [Blank]);
      && st'.buffer == []
      && st'.paragraphs == st.paragraphs + (if ParagraphContainsTodo(st.buffer) then [Paragraph(st.buffer, meetingId)] else [])
  {
    assert (lines + [Blank])[..|lines|] == lines;
  }

  /** A TODO line arriving while the paragraph being gathered already holds
      one closes that paragraph, which is emitted, and starts a new one with
      the line. */
  lemma SecondTodoStartsParagraph(meetingId: string, lines: seq<string>, x: string)
    requires LineContainsTodo(x)
    requires ParagraphContainsTodo(Segmented(meetingId, lines).buffer)
    ensures var st := Segmented(meetingId, lines);
      var st' := Segmented(meetingId, lines + [x]);
      && st'.paragraphs == st.paragraphs + [Paragraph(st.buffer, meetingId)]
      && st'.buffer == [x]
  {
    SegmentedInvariant(meetingId, lines);
    BlankIsNotTodo();
    assert (lines + [x])[..|lines|] == lines;
  }

  /** The end of the input acts as one more blank line: the last paragraph is
      emitted exactly when it is non-empty and holds a TODO. */
  lemma EndActsAsBlankLine(meetingId: string, lines: seq<string>)
    ensures Paragraphs(meetingId, lines) == Segmented(meetingId, lines + [Blank]).paragraphs
  {
    BlankLineClosesParagraph(meetingId, lines);
    var st := Segmented(meetingId, lines);
    ContainsTodoIffCount(st.buffer);
  }

  /** Every paragraph is non-empty, has no blank line and exactly one TODO
      line, and carries the meeting id; there is one paragraph per TODO line
      of the input; and the paragraphs' lines, concatenated, are a subsequence
      of the input. */
  lemma {:induction false} ParagraphsGood(meetingId: string, lines: seq<string>)
    ensures var ps := Paragraphs(meetingId, lines);
      && (forall k :: 0 <= k < |ps| ==> GoodParagraph(meetingId, ps[k]))
      && |ps| == TodoCount(lines)
      && IsSubsequence(Flatten(Texts(ps)), lines)
  {
    var st := Segmented(meetingId, lines);
    var flat := Flatten(Texts(st.paragraphs));
    SegmentedInvariant(meetingId, lines);
    ContainsTodoIffCount(st.buffer);
    if |st.buffer| > 0 && ParagraphContainsTodo(st.buffer) {
      FlushGood(meetingId, st);
    } else {
      assert TodoCount(st.buffer) == 0;
      SubsequenceDropSuffix(flat, st.buffer, lines);
    }
  }

  /** The lines of the kept blocks, in order. */
  function KeptText(keep: seq<string> -> bool, blocks: seq<seq<string>>): seq<string>
    decreases |blocks|
  {
    if |blocks| == 0 then []
    else
      var n := |blocks| - 1;
      KeptText(keep, blocks[..n]) + (if keep(blocks[n]) then blocks[n] else [])
  }

  /** The kept text is the concatenation of the filtered blocks. */
  lemma {:induction false} KeptTextIsFilter(keep: seq<string> -> bool, blocks: seq<seq<string>>)
    ensures KeptText(keep, blocks) == Flatten(Filter(blocks, keep))
    decreases |blocks|
  {
    if |blocks| > 0 {
      var n := |blocks| - 1;
      KeptTextIsFilter(keep, blocks[..n]);
      var kept := Filter(blocks[..n], keep);
      if keep(blocks[n]) {
        FlattenSnoc(kept, blocks[n]);
      } else {
        assert Flatten(kept) + [] == Flatten(kept);
      }
    }
  }

  /** How the text emitted so far relates to the blank-line separated blocks
      of the lines read, for blocks kept by `keep`: the current (last) block
      is `e` (its part already emitted) followed by the buffer; the emitted
      text is the earlier kept blocks, then `e`; and `e` is non-empty only
      once the buffer is kept (after a second TODO line). */
  predicate BlockShape(keep: seq<string> -> bool, blocks: seq<seq<string>>, emitted: seq<string>,
                       buffer: seq<string>, e: seq<string>)
  {
    var n := |blocks| - 1;
    && |blocks| >= 1
    && blocks[n] == e + buffer
    && emitted == KeptText(keep, blocks[..n]) + e
    && (|e| > 0 ==> keep(buffer))
  }

  /** Emitting a paragraph appends its lines to the emitted text. */
  lemma TextsSnoc(ps: seq<Paragraph>, p: Paragraph)
    ensures Flatten(Texts(ps + [p])) == Flatten(Texts(ps)) + p.lines
  {
    assert Texts(ps + [p]) == Texts(ps) + [p.lines];
    FlattenSnoc(Texts(ps), p.lines);
  }

  /** A blank line closes the current block, emitting the buffer if it is
      kept, and opens an empty one. */
  lemma ShapeBlank(keep: seq<string> -> bool, blocks: seq<seq<string>>, emitted: seq<string>,
                   buffer: seq<string>, e: seq<string>)
    requires BlockShape(keep, blocks, emitted, buffer, e)
    requires keep(buffer) ==> keep(e + buffer)
    ensures BlockShape(keep, blocks + [[]], emitted + (if keep(buffer) then buffer else []), [], [])
  {
    var n := |blocks| - 1;
    assert (blocks + [[]])[..n + 1] == blocks;
    var earlier := KeptText(keep, blocks[..n]);
    if keep(buffer) {
      assert (earlier + e) + buffer == earlier + (e + buffer);
      assert emitted + buffer == KeptText(keep, blocks) + [];
    } else {
      assert e == [] && blocks[n] == buffer;
      assert KeptText(keep, blocks) == earlier + [];
    }
  }

  /** A second TODO line emits the buffer, which stays part of the block. */
  lemma ShapeSecondTodo(keep: seq<string> -> bool, blocks: seq<seq<string>>, emitted: seq<string>,
                        buffer: seq<string>, e: seq<string>, x: string)
    requires BlockShape(keep, blocks, emitted, buffer, e)
    requires keep(buffer) && keep([x])
    ensures BlockShape(keep, ExtendLastPiece(blocks, [x]), emitted + buffer, [x], e + buffer)
  {
    var n := |blocks| - 1;
    assert ExtendLastPiece(blocks, [x])[..n] == blocks[..n];
    var earlier := KeptText(keep, blocks[..n]);
    assert (earlier + e) + buffer == earlier + (e + buffer);
  }

  /** Any other line joins the buffer and the current block. */
  lemma ShapeGather(keep: seq<string> -> bool, blocks: seq<seq<string>>, emitted: seq<string>,
                    buffer: seq<string>, e: seq<string>, x: string)
    requires BlockShape(keep, blocks, emitted, buffer, e)
    requires |e| > 0 ==> keep(buffer + [x])
    ensures BlockShape(keep, ExtendLastPiece(blocks, [x]), emitted, buffer + [x], e)
  {
    var n := |blocks| - 1;
    assert ExtendLastPiece(blocks, [x])[..n] == blocks[..n];
    assert e + buffer + [x] == e + (buffer + [x]);
  }

  /** A TODO line alone is a paragraph with a TODO. */
  lemma SingleTodo(x: string)
    requires LineContainsTodo(x)
    ensures ParagraphContainsTodo([x])
  {
    assert [x][..0] == [];
  }

  /** The block shape of the loop state, for blocks holding a TODO. */
  predicate LoopShape(meetingId: string, lines: seq<string>, st: Segmenter, e: seq<string>)
  {
    BlockShape(ParagraphContainsTodo, Split(lines, Blank), Flatten(Texts(st.paragraphs)), st.buffer, e)
  }

  /** The loop keeps its block shape across a blank line. */
  lemma {:induction false} LoopShapeBlank(meetingId: string, lines: seq<string>, st: Segmenter, e: seq<string>)
    requires LoopShape(meetingId, lines, st, e)
    ensures LoopShape(meetingId, lines + [Blank], SegmentStep(meetingId, st, Blank), [])
  {
    TextsSnoc(st.paragraphs, Paragraph(st.buffer, meetingId));
    ContainsTodoAppend(e, st.buffer);
    ShapeBlank(ParagraphContainsTodo, Split(lines, Blank), Flatten(Texts(st.paragraphs)), st.buffer, e);
    SplitSnocSep(lines, Blank);
  }

  /** The loop keeps its block shape across a second TODO line. */
  lemma {:induction false} LoopShapeSecondTodo(meetingId: string, lines: seq<string>, st: Segmenter, e: seq<string>, x: string)
    requires LoopShape(meetingId, lines, st, e) && Invariant(meetingId, lines, st)
    requires x != Blank && st.activeTodo && LineContainsTodo(x)
    ensures LoopShape(meetingId, lines + [x], SegmentStep(meetingId, st, x), e + st.buffer)
  {
    TextsSnoc(st.paragraphs, Paragraph(st.buffer, meetingId));
    SingleTodo(x);
    ShapeSecondTodo(ParagraphContainsTodo, Split(lines, Blank), Flatten(Texts(st.paragraphs)), st.buffer, e, x);
    SplitSnocPlain(lines, x, Blank);
  }

  /** The loop keeps its block shape across any other line. */
  lemma LoopShapeGather(meetingId: string, lines: seq<string>, st: Segmenter, e: seq<string>, x: string)
    requires LoopShape(meetingId, lines, st, e)
    requires x != Blank && !(st.activeTodo && LineContainsTodo(x))
    ensures LoopShape(meetingId, lines + [x], SegmentStep(meetingId, st, x), e)
  {
    ContainsTodoAppend(st.buffer, [x]);
    ShapeGather(ParagraphContainsTodo, Split(lines, Blank), Flatten(Texts(st.paragraphs)), st.buffer, e, x);
    SplitSnocPlain(lines, x, Blank);
  }

  /** The block shape, for blocks holding a TODO, holds over every prefix. */
  lemma {:induction false} SegmentedBlocks(meetingId: string, lines: seq<string>) returns (e: seq<string>)
    ensures LoopShape(meetingId, lines, Segmented(meetingId, lines), e)
    decreases |lines|
  {
    if |lines| == 0 {
      e := [];
      assert Texts([]) == [];
      return;
    }
    var init := lines[..|lines| - 1];
    var x := lines[|lines| - 1];
    var st := Segmented(meetingId, init);
    var e' := SegmentedBlocks(meetingId, init);
    assert lines == init + [x];
    if x == Blank {
      LoopShapeBlank(meetingId, init, st, e');
      e := [];
    } else if st.activeTodo && LineContainsTodo(x) {
      SegmentedInvariant(meetingId, init);
      LoopShapeSecondTodo(meetingId, init, st, e', x);
      e := e' + st.buffer;
    } else {
      LoopShapeGather(meetingId, init, st, e', x);
      e := e';
    }
  }

  /** The paragraphs' lines, concatenated, are exactly the lines of the
      blank-line separated blocks that contain a TODO line: everything else,
      and every blank line, is dropped. */
  lemma {:induction false} ParagraphsAreTodoBlocks(meetingId: string, lines: seq<string>)
    ensures Flatten(Texts(Paragraphs(meetingId, lines)))
         == Flatten(Filter(Split(lines, Blank), ParagraphContainsTodo))
  {
    EndActsAsBlankLine(meetingId, lines);
    var e := SegmentedBlocks(meetingId, lines + [Blank]);
    SplitSnocSep(lines, Blank);
    var blocks := Split(lines, Blank);
    assert (blocks + [[]])[..|blocks|] == blocks;
    KeptTextIsFilter(ParagraphContainsTodo, blocks);
  }
}
