/** The few Python string operations the scanners rely on: `str.isspace` for one
    character, `str.strip()` with no argument, and `str.startswith`. */
module Text {

  /** Python's `str.isspace` on a single character: the ASCII controls tab to
      carriage return, the separators 0x1C-0x1F, space, NEL, no-break space, and
      the Unicode space separators and line/paragraph separators. */
  predicate IsSpace(c: char)
  {
    var n := c as int;
    || 0x09 <= n <= 0x0D
    || 0x1C <= n <= 0x20
    || n == 0x85 || n == 0xA0 || n == 0x1680
    || 0x2000 <= n <= 0x200A
    || n == 0x2028 || n == 0x2029 || n == 0x202F || n == 0x205F || n == 0x3000
  }

  predicate AllSpace(s: string)
  {
    forall i :: 0 <= i < |s| ==> IsSpace(s[i])
  }

  /** `s` with its leading whitespace removed. */
  function TrimStart(s: string): (r: string)
    ensures |r| <= |s| && r == s[|s| - |r|..]
    ensures AllSpace(s[..|s| - |r|])
    ensures |r| > 0 ==> !IsSpace(r[0])
    decreases |s|
  {
    if |s| > 0 && IsSpace(s[0]) then
      var r := TrimStart(s[1..]);
      SpaceThenTail(s, r);
      r
    else s
  }

  /** A whitespace character, then whitespace, then `r` at the end of the rest. */
  lemma SpaceThenTail(s: string, r: string)
    requires |s| > 0 && IsSpace(s[0])
    requires |r| <= |s| - 1 && r == s[1..][|s| - 1 - |r|..] && AllSpace(s[1..][..|s| - 1 - |r|])
    ensures r == s[|s| - |r|..] && AllSpace(s[..|s| - |r|])
  {
    var m := |s| - |r|;
    assert s[1..][m - 1..] == s[m..];
    forall i | 0 <= i < m
      ensures IsSpace(s[..m][i])
    {
      if i > 0 {
        assert s[..m][i] == s[1..][..m - 1][i - 1];
      }
    }
  }

  /** `s` with its trailing whitespace removed. */
  function TrimEnd(s: string): (r: string)
    ensures |r| <= |s| && r == s[..|r|]
    ensures AllSpace(s[|r|..])
    ensures |r| > 0 ==> !IsSpace(r[|r| - 1])
    decreases |s|
  {
    if |s| > 0 && IsSpace(s[|s| - 1]) then TrimEnd(s[..|s| - 1]) else s
  }

  /** No whitespace at either end. */
  predicate IsStripped(s: string)
  {
    |s| > 0 ==> !IsSpace(s[0]) && !IsSpace(s[|s| - 1])
  }

  /** `r` sits at offset `i` of `s` with nothing but whitespace around it. */
  predicate SurroundedBySpace(s: string, i: int, r: string)
  {
    && 0 <= i && i + |r| <= |s|
    && s[i..i + |r|] == r
    && AllSpace(s[..i]) && AllSpace(s[i + |r|..])
  }

  /** Python's `str.strip()`: the text between the leading and the trailing whitespace. */
  function Strip(s: string): string
  {
    TrimEnd(TrimStart(s))
  }

  /** Stripping leaves text with no whitespace at either end, found in the
      input with nothing but whitespace around it. */
  lemma StripShape(s: string)
    ensures IsStripped(Strip(s))
    ensures exists i :: SurroundedBySpace(s, i, Strip(s))
  {
    var t := TrimStart(s);
    TrimmedPieces(s, t, TrimEnd(t));
  }

  /** A tail of `s` after whitespace, cut before trailing whitespace, is
      stripped text found in `s` between whitespace. */
  lemma TrimmedPieces(s: string, t: string, r: string)
    requires |t| <= |s| && t == s[|s| - |t|..] && AllSpace(s[..|s| - |t|])
    requires |t| > 0 ==> !IsSpace(t[0])
    requires |r| <= |t| && r == t[..|r|] && AllSpace(t[|r|..])
    requires |r| > 0 ==> !IsSpace(r[|r| - 1])
    ensures IsStripped(r)
    ensures exists i :: SurroundedBySpace(s, i, r)
  {
    var i := |s| - |t|;
    assert s[i..i + |r|] == r;
    assert s[i + |r|..] == t[|r|..];
    assert SurroundedBySpace(s, i, r);
  }

  /** Stripping is idempotent. */
  lemma StripStripped(s: string)
    requires IsStripped(s)
    ensures Strip(s) == s
  {
  }

  /** Stripping never introduces a character the input did not have. */
  lemma StripKeepsCharacters(s: string, c: char)
    requires c !in s
    ensures c !in Strip(s)
  {
    var r := Strip(s);
    StripShape(s);
    var i :| SurroundedBySpace(s, i, r);
    SurroundedKeeps(s, i, r, c);
  }

  /** Text found inside `s` has only characters of `s`. */
  lemma SurroundedKeeps(s: string, i: int, r: string, c: char)
    requires SurroundedBySpace(s, i, r) && c !in s
    ensures c !in r
  {
    forall k | 0 <= k < |r|
      ensures r[k] != c
    {
      assert r[k] == s[i + k];
    }
  }

  /** Whitespace alone trims to nothing. */
  lemma {:induction false} TrimStartAllSpace(ws: string)
    requires AllSpace(ws)
    ensures TrimStart(ws) == ""
    decreases |ws|
  {
    if |ws| > 0 {
      TrimStartAllSpace(ws[1..]);
    }
  }

  /** Trailing whitespace after a non-space character is trimmed back to that character. */
  lemma {:induction false} TrimEndSpaceSuffix(s: string, ws: string)
    requires |s| > 0 && !IsSpace(s[|s| - 1]) && AllSpace(ws)
    ensures TrimEnd(s + ws) == s
    decreases |ws|
  {
    if |ws| > 0 {
      var ws' := ws[..|ws| - 1];
      assert (s + ws)[..|s + ws| - 1] == s + ws';
      TrimEndSpaceSuffix(s, ws');
    } else {
      assert s + ws == s;
    }
  }

  /** Trailing whitespace after stripped text is stripped away again. */
  lemma {:induction false} StripTrailingSpace(s: string, ws: string)
    requires IsStripped(s) && AllSpace(ws)
    ensures Strip(s + ws) == s
  {
    if |s| == 0 {
      assert s + ws == ws;
      TrimStartAllSpace(ws);
    } else {
      assert TrimStart(s + ws) == s + ws;
      TrimEndSpaceSuffix(s, ws);
    }
  }

  /** Python's `str.startswith`. */
  predicate StartsWith(s: string, prefix: string)
  {
    |prefix| <= |s| && s[..|prefix|] == prefix
  }

  /** Strip every element: Python's `[x.strip() for x in xs]`. */
  function StripEach(xs: seq<string>): (r: seq<string>)
    ensures |r| == |xs|
    ensures forall i :: 0 <= i < |r| ==> r[i] == Strip(xs[i])
  {
    seq(|xs|, i requires 0 <= i < |xs| => Strip(xs[i]))
  }
}
