/** Generic sequence operations used by both scanners: Python's `split`/`join`,
    list comprehensions with a condition (filters), and concatenation of lists.
    Every recursive definition here peels the LAST element, so that it reads as
    "the result for a prefix, extended by one more element" -- the shape of the
    single-pass loops being modelled. */
module Seqs {

  /** `b` can be obtained from `a` by deleting elements (order kept). */
  predicate IsSubsequence<T(==)>(a: seq<T>, b: seq<T>)
    decreases |b|
  {
    || |a| == 0
    || (&& |b| > 0
        && ( || (a[|a| - 1] == b[|b| - 1] && IsSubsequence(a[..|a| - 1], b[..|b| - 1]))
             || IsSubsequence(a, b[..|b| - 1])))
  }

  /** Deleting the last element of a subsequence keeps it a subsequence. */
  lemma {:induction false} SubsequenceDropLast<T>(a: seq<T>, b: seq<T>)
    requires |a| > 0 && IsSubsequence(a, b)
    ensures IsSubsequence(a[..|a| - 1], b)
    decreases |b|
  {
    var a' := a[..|a| - 1];
    var b' := b[..|b| - 1];
    if a[|a| - 1] == b[|b| - 1] && IsSubsequence(a', b') {
      if |a'| > 0 {
        SubsequenceDropLast(a', b');
      }
    } else {
      SubsequenceDropLast(a, b');
    }
  }

  /** Deleting a suffix of a subsequence keeps it a subsequence. */
  lemma {:induction false} SubsequenceDropSuffix<T>(a: seq<T>, c: seq<T>, b: seq<T>)
    requires IsSubsequence(a + c, b)
    ensures IsSubsequence(a, b)
    decreases |c|
  {
    if |c| > 0 {
      var c' := c[..|c| - 1];
      assert (a + c)[..|a + c| - 1] == a + c';
      SubsequenceDropLast(a + c, b);
      SubsequenceDropSuffix(a, c', b);
    } else {
      assert a + c == a;
    }
  }

  /** Python's `str.split(sep)`, for any element type: the pieces between
      the occurrences of `sep`, empty pieces included. */
  function Split<T(==)>(s: seq<T>, sep: T): (pieces: seq<seq<T>>)
    ensures |pieces| >= 1
    decreases |s|
  {
    if |s| == 0 then [[]]
    else
      var before := Split(s[..|s| - 1], sep);
      var last := s[|s| - 1];
      if last == sep then before + [[]] else ExtendLastPiece(before, [last])
  }

  /** The pieces with `v` appended to the last one. */
  function ExtendLastPiece<T>(p: seq<seq<T>>, v: seq<T>): (r: seq<seq<T>>)
    requires |p| >= 1
    ensures |r| == |p| && r[|r| - 1] == p[|p| - 1] + v
    ensures forall i :: 0 <= i < |p| - 1 ==> r[i] == p[i]
  {
    p[..|p| - 1] + [p[|p| - 1] + v]
  }

  /** No piece of a split holds the separator. */
  lemma {:induction false} SplitPiecesFree<T>(s: seq<T>, sep: T)
    ensures forall i :: 0 <= i < |Split(s, sep)| ==> sep !in Split(s, sep)[i]
    decreases |s|
  {
    if |s| > 0 {
      var s' := s[..|s| - 1];
      var before := Split(s', sep);
      SplitPiecesFree(s', sep);
      var k := |before| - 1;
      var last := s[|s| - 1];
      var pieces := Split(s, sep);
      if last != sep {
        forall i | 0 <= i < |pieces|
          ensures sep !in pieces[i]
        {
          if i == k {
            assert sep !in before[k];
          } else {
            assert pieces[i] == before[i];
          }
        }
      }
    }
  }

  /** A text without the separator is one piece. */
  lemma {:induction false} SplitNoSep<T>(s: seq<T>, sep: T)
    requires sep !in s
    ensures Split(s, sep) == [s]
    decreases |s|
  {
    if |s| > 0 {
      var s' := s[..|s| - 1];
      SplitNoSep(s', sep);
      assert s == s' + [s[|s| - 1]];
    }
  }

  /** Extending the last piece of a concatenation extends the second part. */
  lemma ExtendLastPieceAppend<T>(a: seq<seq<T>>, b: seq<seq<T>>, v: seq<T>)
    requires |b| >= 1
    ensures ExtendLastPiece(a + b, v) == a + ExtendLastPiece(b, v)
  {
    assert (a + b)[..|a + b| - 1] == a + b[..|b| - 1];
  }

  /** A separator cuts the text into the pieces before it and the pieces after it. */
  lemma {:induction false} SplitSepAppend<T>(a: seq<T>, b: seq<T>, sep: T)
    ensures Split(a + [sep] + b, sep) == Split(a, sep) + Split(b, sep)
    decreases |b|
  {
    if |b| == 0 {
      assert a + [sep] + b == a + [sep];
      SplitSnocSep(a, sep);
    } else {
      var b' := b[..|b| - 1];
      var x := b[|b| - 1];
      SplitSepAppend(a, b', sep);
      assert b == b' + [x];
      if x == sep {
        SplitSepAppendSep(a, b', sep);
      } else {
        SplitSepAppendPlain(a, b', x, sep);
      }
    }
  }

  /** `SplitSepAppend` for one more separator at the end. */
  lemma SplitSepAppendSep<T>(a: seq<T>, b: seq<T>, sep: T)
    requires Split(a + [sep] + b, sep) == Split(a, sep) + Split(b, sep)
    ensures Split(a + [sep] + (b + [sep]), sep) == Split(a, sep) + Split(b + [sep], sep)
  {
    var s := a + [sep] + b;
    assert a + [sep] + (b + [sep]) == s + [sep];
    SplitSnocSep(s, sep);
    SplitSnocSep(b, sep);
  }

  /** `SplitSepAppend` for one more non-separator at the end. */
  lemma SplitSepAppendPlain<T>(a: seq<T>, b: seq<T>, x: T, sep: T)
    requires x != sep
    requires Split(a + [sep] + b, sep) == Split(a, sep) + Split(b, sep)
    ensures Split(a + [sep] + (b + [x]), sep) == Split(a, sep) + Split(b + [x], sep)
  {
    var s := a + [sep] + b;
    assert a + [sep] + (b + [x]) == s + [x];
    SplitSnocPlain(s, x, sep);
    SplitSnocPlain(b, x, sep);
    ExtendLastPieceAppend(Split(a, sep), Split(b, sep), [x]);
  }

  /** Splitting what was joined from separator-free pieces gives the pieces back. */
  lemma {:induction false} SplitJoin<T>(xs: seq<seq<T>>, sep: T)
    requires |xs| >= 1
    requires forall i :: 0 <= i < |xs| ==> sep !in xs[i]
    ensures Split(Join(xs, sep), sep) == xs
    decreases |xs|
  {
    var last := xs[|xs| - 1];
    SplitNoSep(last, sep);
    if |xs| > 1 {
      var xs' := xs[..|xs| - 1];
      forall i | 0 <= i < |xs'|
        ensures sep !in xs'[i]
      {
        assert xs'[i] == xs[i];
      }
      SplitJoin(xs', sep);
      SplitSepAppend(Join(xs', sep), last, sep);
      assert xs == xs' + [last];
    }
  }

  /** Joining two pieces puts one separator between them. */
  lemma JoinTwo<T>(a: seq<T>, b: seq<T>, sep: T)
    ensures Join([a, b], sep) == a + [sep] + b
  {
    assert [a, b][..1] == [a];
  }

  /** Splitting a separator-free head, a separator and a join of
      separator-free pieces gives the head and the pieces. */
  lemma SplitHeadJoin<T>(h: seq<T>, xs: seq<seq<T>>, sep: T)
    requires sep !in h && |xs| >= 1
    requires forall i :: 0 <= i < |xs| ==> sep !in xs[i]
    ensures Split(h + [sep] + Join(xs, sep), sep) == [h] + xs
  {
    SplitJoin(xs, sep);
    SplitSepAppend(h, Join(xs, sep), sep);
    SplitNoSep(h, sep);
  }

  /** Joining the pieces of a split with the same separator gives the text back. */
  lemma {:induction false} JoinSplit<T>(s: seq<T>, sep: T)
    ensures Join(Split(s, sep), sep) == s
    decreases |s|
  {
    if |s| > 0 {
      var s' := s[..|s| - 1];
      var before := Split(s', sep);
      JoinSplit(s', sep);
      assert s == s' + [s[|s| - 1]];
      if s[|s| - 1] == sep {
        SplitSnocSep(s', sep);
        JoinSnoc(before, [], sep);
      } else {
        SplitSnocPlain(s', s[|s| - 1], sep);
        JoinExtendLast(before, [s[|s| - 1]], sep);
      }
    }
  }

  /** Python's `sep.join(xs)`, for any element type. */
  function Join<T>(xs: seq<seq<T>>, sep: T): seq<T>
    decreases |xs|
  {
    if |xs| == 0 then []
    else if |xs| == 1 then xs[0]
    else Join(xs[..|xs| - 1], sep) + [sep] + xs[|xs| - 1]
  }

  /** The concatenation of a list of lists. */
  function Flatten<T>(xs: seq<seq<T>>): seq<T>
    decreases |xs|
  {
    if |xs| == 0 then [] else Flatten(xs[..|xs| - 1]) + xs[|xs| - 1]
  }

  /** Joining one more piece adds a separator and the piece. */
  lemma JoinSnoc<T>(xs: seq<seq<T>>, x: seq<T>, sep: T)
    requires |xs| >= 1
    ensures Join(xs + [x], sep) == Join(xs, sep) + [sep] + x
  {
    assert (xs + [x])[..|xs|] == xs;
  }

  /** Extending the last piece extends the joined text. */
  lemma {:induction false} JoinExtendLast<T>(xs: seq<seq<T>>, v: seq<T>, sep: T)
    requires |xs| >= 1
    ensures Join(ExtendLastPiece(xs, v), sep) == Join(xs, sep) + v
  {
    var k := |xs| - 1;
    var ys := ExtendLastPiece(xs, v);
    if k > 0 {
      assert ys[..k] == xs[..k];
    }
  }

  /** Flattening one more list appends it. */
  lemma FlattenSnoc<T>(xs: seq<seq<T>>, x: seq<T>)
    ensures Flatten(xs + [x]) == Flatten(xs) + x
  {
    assert (xs + [x])[..|xs|] == xs;
  }

  /** A non-separator at the end extends the last piece. */
  lemma SplitSnocPlain<T>(s: seq<T>, x: T, sep: T)
    requires x != sep
    ensures Split(s + [x], sep) == ExtendLastPiece(Split(s, sep), [x])
  {
    assert (s + [x])[..|s|] == s;
  }

  /** A separator at the end opens a new, empty last piece. */
  lemma SplitSnocSep<T>(s: seq<T>, sep: T)
    ensures Split(s + [sep], sep) == Split(s, sep) + [[]]
  {
    assert (s + [sep])[..|s|] == s;
  }

  /** The elements of `s` that satisfy `f`, in order: Python's `[x for x in s if f(x)]`.
      The result is the subsequence of `s` that keeps every element satisfying `f`
      (with its multiplicity) and nothing else; the two contracts together
      determine it uniquely. */
  function Filter<T(==,!new)>(s: seq<T>, f: T -> bool): (r: seq<T>)
    ensures |r| <= |s|
    ensures forall i :: 0 <= i < |r| ==> f(r[i])
    ensures forall x :: multiset(r)[x] == if f(x) then multiset(s)[x] else 0
    ensures IsSubsequence(r, s)
    decreases |s|
  {
    if |s| == 0 then []
    else
      var s' := s[..|s| - 1];
      var x := s[|s| - 1];
      var r' := Filter(s', f);
      assert s == s' + [x];
      if f(x) then
        assert (r' + [x])[..|r'|] == r';
        r' + [x]
      else
        assert IsSubsequence(r', s') ==> IsSubsequence(r', s);
        r'
  }

  /** Filtering twice is filtering once with both conditions. */
  lemma {:induction false} FilterFilter<T(!new)>(s: seq<T>, f: T -> bool, g: T -> bool, h: T -> bool)
    requires forall x :: h(x) == (f(x) && g(x))
    ensures Filter(Filter(s, f), g) == Filter(s, h)
    decreases |s|
  {
    if |s| > 0 {
      var s' := s[..|s| - 1];
      var x := s[|s| - 1];
      FilterFilter(s', f, g, h);
      if f(x) {
        var r' := Filter(s', f);
        assert (r' + [x])[..|r'|] == r';
      }
    }
  }

  /** A filter every element passes keeps everything. */
  lemma {:induction false} FilterAll<T(!new)>(s: seq<T>, f: T -> bool)
    requires forall i :: 0 <= i < |s| ==> f(s[i])
    ensures Filter(s, f) == s
    decreases |s|
  {
    if |s| > 0 {
      var s' := s[..|s| - 1];
      forall i | 0 <= i < |s'|
        ensures f(s'[i])
      {
        assert s'[i] == s[i];
      }
      FilterAll(s', f);
      var x := s[|s| - 1];
      assert f(x);
      assert Filter(s, f) == Filter(s', f) + [x];
      assert s == s' + [x];
    }
  }

  /** Membership in a filter: present exactly when present in the input and passing. */
  lemma FilterMembership<T(!new)>(s: seq<T>, f: T -> bool, x: T)
    ensures x in Filter(s, f) <==> x in s && f(x)
  {
    var r := Filter(s, f);
    assert x in r <==> multiset(r)[x] > 0;
    assert x in s <==> multiset(s)[x] > 0;
  }

  /** How the slices of `s` around positions `j <= k` fit back together. */
  lemma Slices<T>(s: seq<T>, j: nat, k: nat)
    requires j <= k < |s|
    ensures s[..j] + s[j..k] == s[..k]
    ensures s[j..k] + [s[k]] == s[j..k + 1]
    ensures s[..k] + [s[k]] == s[..k + 1]
    ensures s[..k + 1] + s[k + 1..] == s
  {
  }

  /** Slices of a prefix are slices of the whole. */
  lemma PrefixSlices<T>(s: seq<T>, j: nat, k: nat)
    requires j <= k <= |s|
    ensures s[..k][..j] == s[..j]
    ensures s[..k][j..] == s[j..k]
  {
  }
}
