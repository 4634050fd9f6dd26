/** The JavaScript string primitives the loaders rely on, over `seq<char>`:
    `String.prototype.split` with a one-character separator, its inverse
    `Array.prototype.join`, and `String.prototype.trim`.  Definitions are
    left folds (they look at the last character) so that they line up with
    the left-to-right loops of the loaders. */
module Text {

  /** `s.split(sep)` for a one-character separator: the pieces of `s` between
      occurrences of `sep`.  There is always at least one piece, and the
      empty string splits into one empty piece. */
  function Split(s: string, sep: char): (pieces: seq<string>)
    ensures |pieces| == multiset(s)[sep] + 1
    ensures forall i :: 0 <= i < |pieces| ==> sep !in pieces[i]
    decreases |s|
  {
    if |s| == 0 then [""]
    else
      var init := Split(s[..|s| - 1], sep);
      var c := s[|s| - 1];
      assert s == s[..|s| - 1] + [c];
      if c == sep then init + [""]
      else init[..|init| - 1] + [init[|init| - 1] + [c]]
  }

  /** `parts.join(sep)` for a one-character separator. */
  function Join(parts: seq<string>, sep: char): string
    decreases |parts|
  {
    if |parts| == 0 then ""
    else if |parts| == 1 then parts[0]
    else Join(parts[..|parts| - 1], sep) + [sep] + parts[|parts| - 1]
  }

  /** `s` with every occurrence of `c` dropped, everything else kept in order. */
  function RemoveAll(s: string, c: char): (r: string)
    ensures c !in r
    ensures |r| == |s| - multiset(s)[c]
    decreases |s|
  {
    if |s| == 0 then ""
    else
      var init := RemoveAll(s[..|s| - 1], c);
      assert s == s[..|s| - 1] + [s[|s| - 1]];
      if s[|s| - 1] == c then init else init + [s[|s| - 1]]
  }

  /** The characters `String.prototype.trim` removes: the ECMAScript
      WhiteSpace set (tab, vertical tab, form feed, byte order mark and the
      space separators of Unicode category Zs) and the LineTerminator set. */
  predicate IsWhitespace(c: char) {
    || c == '\t' || c == '\U{B}' || c == '\U{C}' || c == '\U{FEFF}'
    || c == ' ' || c == '\U{A0}' || c == '\U{1680}'
    || ('\U{2000}' <= c <= '\U{200A}')
    || c == '\U{202F}' || c == '\U{205F}' || c == '\U{3000}'
    || c == '\n' || c == '\r' || c == '\U{2028}' || c == '\U{2029}'
  }

  predicate AllWhitespace(s: string) {
    forall i :: 0 <= i < |s| ==> IsWhitespace(s[i])
  }

  /** `s.trimStart()`: drops leading whitespace. */
  function TrimStart(s: string): string
    decreases |s|
  {
    if |s| > 0 && IsWhitespace(s[0]) then TrimStart(s[1..]) else s
  }

  /** `s.trimEnd()`: drops trailing whitespace. */
  function TrimEnd(s: string): string
    decreases |s|
  {
    if |s| > 0 && IsWhitespace(s[|s| - 1]) then TrimEnd(s[..|s| - 1]) else s
  }

  /** `trimStart` leaves the suffix of `s` after its longest all-whitespace
      prefix. */
  lemma {:induction false} TrimStartSpec(s: string)
    ensures var r := TrimStart(s);
            && |r| <= |s| && r == s[|s| - |r|..]
            && AllWhitespace(s[..|s| - |r|])
            && (r == [] || !IsWhitespace(r[0]))
    decreases |s|
  {
    if |s| > 0 && IsWhitespace(s[0]) {
      TrimStartSpec(s[1..]);
      var r := TrimStart(s);
      assert s[..|s| - |r|] == [s[0]] + s[1..][..|s| - 1 - |r|];
    }
  }

  /** `trimEnd` leaves the prefix of `s` before its longest all-whitespace
      suffix. */
  lemma {:induction false} TrimEndSpec(s: string)
    ensures var r := TrimEnd(s);
            && |r| <= |s| && r == s[..|r|]
            && AllWhitespace(s[|r|..])
            && (r == [] || !IsWhitespace(r[|r| - 1]))
    decreases |s|
  {
    if |s| > 0 && IsWhitespace(s[|s| - 1]) {
      TrimEndSpec(s[..|s| - 1]);
      var r := TrimEnd(s);
      assert s[|r|..] == s[..|s| - 1][|r|..] + [s[|s| - 1]];
    }
  }

  /** `s.trim()`: the middle of `s` left after dropping the whitespace at
      both ends.  It starts and ends with a non-whitespace character unless
      it is empty. */
  function Trim(s: string): (t: string)
    ensures exists k :: 0 <= k <= |s| - |t| && t == s[k..k + |t|]
                        && AllWhitespace(s[..k]) && AllWhitespace(s[k + |t|..])
    ensures t == [] || (!IsWhitespace(t[0]) && !IsWhitespace(t[|t| - 1]))
  {
    TrimBothEnds(s);
    TrimEnd(TrimStart(s))
  }

  /** Trimming the front and then the end keeps a slice of `s` with
      whitespace only around it. */
  lemma TrimBothEnds(s: string)
    ensures var t := TrimEnd(TrimStart(s));
            && (exists k :: 0 <= k <= |s| - |t| && t == s[k..k + |t|]
                            && AllWhitespace(s[..k]) && AllWhitespace(s[k + |t|..]))
            && (t == [] || (!IsWhitespace(t[0]) && !IsWhitespace(t[|t| - 1])))
  {
    var r := TrimStart(s);
    var t := TrimEnd(r);
    var k := |s| - |r|;
    TrimSlice(s, k, r, t);
  }

  /** The two halves of `TrimBothEnds`, with the cut points named. */
  lemma TrimSlice(s: string, k: int, r: string, t: string)
    requires r == TrimStart(s) && t == TrimEnd(r) && k == |s| - |r|
    ensures 0 <= k <= |s| - |t| && t == s[k..k + |t|]
    ensures AllWhitespace(s[..k]) && AllWhitespace(s[k + |t|..])
    ensures t == [] || (!IsWhitespace(t[0]) && !IsWhitespace(t[|t| - 1]))
  {
    assert r == s[k..] && AllWhitespace(s[..k]) && (r == [] || !IsWhitespace(r[0])) by {
      TrimStartSpec(s);
    }
    assert t == r[..|t|] && AllWhitespace(r[|t|..]) && (t == [] || !IsWhitespace(t[|t| - 1])) by {
      TrimEndSpec(r);
    }
    assert s[k + |t|..] == r[|t|..];
    assert t == [] || t[0] == r[0];
  }

  /** The loaders' `!line.trim()`: the trimmed line is the empty string,
      which is falsy. */
  predicate IsBlank(line: string)
    ensures IsBlank(line) <==> AllWhitespace(line)
  {
    Trim(line) == ""
  }

  /** A line trims to nothing exactly when every character of it is
      whitespace: a consequence of the contract of `Trim`. */
  lemma BlankIffAllWhitespace(line: string)
    ensures Trim(line) == "" <==> AllWhitespace(line)
  {
  }

  /** Leading whitespace does not change what `trimStart` leaves. */
  lemma {:induction false} TrimStartSkipsWhitespace(ws: string, s: string)
    requires AllWhitespace(ws)
    ensures TrimStart(ws + s) == TrimStart(s)
    decreases |ws|
  {
    if |ws| == 0 {
      assert ws + s == s;
    } else {
      assert (ws + s)[0] == ws[0];
      assert (ws + s)[1..] == ws[1..] + s;
      TrimStartSkipsWhitespace(ws[1..], s);
    }
  }

  /** Appending an empty piece appends one separator to the joined text. */
  lemma JoinSnocEmpty(parts: seq<string>, sep: char)
    requires |parts| >= 1
    ensures Join(parts + [""], sep) == Join(parts, sep) + [sep]
  {
    assert (parts + [""])[..|parts|] == parts;
  }

  /** Extending the last piece by one character extends the joined text by
      the same character. */
  lemma JoinExtendLast(parts: seq<string>, sep: char, c: char)
    requires |parts| >= 1
    ensures var n := |parts|;
            Join(parts[..n - 1] + [parts[n - 1] + [c]], sep) == Join(parts, sep) + [c]
  {
    var n := |parts|;
    var q := parts[..n - 1] + [parts[n - 1] + [c]];
    if n > 1 {
      assert q[..n - 1] == parts[..n - 1];
    }
  }

  /** A character that is neither the separator nor in any piece is not in
      the joined text. */
  lemma {:induction false} JoinWithout(parts: seq<string>, sep: char, c: char)
    requires c != sep
    requires forall i :: 0 <= i < |parts| ==> c !in parts[i]
    ensures c !in Join(parts, sep)
    decreases |parts|
  {
    if |parts| > 1 {
      JoinWithout(parts[..|parts| - 1], sep, c);
    }
  }

  /** Two or more pieces are joined with at least one separator. */
  lemma JoinHasSeparator(parts: seq<string>, sep: char)
    requires |parts| >= 2
    ensures sep in Join(parts, sep)
  {
    var front := Join(parts[..|parts| - 1], sep);
    assert Join(parts, sep)[|front|] == sep;
  }

  /** Splitting and then joining with the same separator gives back the
      original text: `split` loses and reorders nothing. */
  lemma {:induction false} JoinSplit(s: string, sep: char)
    ensures Join(Split(s, sep), sep) == s
    decreases |s|
  {
    if |s| > 0 {
      var p := s[..|s| - 1];
      var c := s[|s| - 1];
      assert s == p + [c];
      JoinSplit(p, sep);
      if c == sep {
        SplitSnocSeparator(p, sep);
        JoinSnocEmpty(Split(p, sep), sep);
      } else {
        SplitSnocOther(p, c, sep);
        JoinExtendLast(Split(p, sep), sep, c);
      }
    }
  }

  /** A text without the separator is a single piece. */
  lemma SplitWithoutSeparator(s: string, sep: char)
    requires sep !in s
    ensures Split(s, sep) == [s]
  {
    var pieces := Split(s, sep);
    assert multiset(s)[sep] == 0;
    JoinSplit(s, sep);
  }

  /** A separator at the end opens a new, empty last piece. */
  lemma SplitSnocSeparator(p: string, sep: char)
    ensures Split(p + [sep], sep) == Split(p, sep) + [""]
  {
    assert (p + [sep])[..|p|] == p;
  }

  /** Any other character at the end extends the last piece. */
  lemma SplitSnocOther(p: string, c: char, sep: char)
    requires c != sep
    ensures var init := Split(p, sep);
            Split(p + [c], sep) == init[..|init| - 1] + [init[|init| - 1] + [c]]
  {
    assert (p + [c])[..|p|] == p;
  }

  /** Splitting distributes over a separator: the pieces of `a + sep + b`
      are the pieces of `a` followed by the pieces of `b`. */
  lemma {:induction false} SplitAtSeparator(a: string, sep: char, b: string)
    ensures Split(a + [sep] + b, sep) == Split(a, sep) + Split(b, sep)
    decreases |b|
  {
    if |b| == 0 {
      assert a + [sep] + b == a + [sep];
      SplitSnocSeparator(a, sep);
    } else {
      var b' := b[..|b| - 1];
      var c := b[|b| - 1];
      var s' := a + [sep] + b';
      assert b == b' + [c];
      assert a + [sep] + b == s' + [c];
      SplitAtSeparator(a, sep, b');
      var left := Split(a, sep);
      var right := Split(b', sep);
      if c == sep {
        SplitSnocSeparator(s', sep);
        SplitSnocSeparator(b', sep);
        assert left + right + [""] == left + (right + [""]);
      } else {
        SplitSnocOther(s', c, sep);
        SplitSnocOther(b', c, sep);
        ExtendLastPiece(left, right, c);
      }
    }
  }

  /** Extending the last piece of a concatenation extends the last piece of
      its right-hand part. */
  lemma ExtendLastPiece(left: seq<string>, right: seq<string>, c: char)
    requires |right| > 0
    ensures var all := left + right;
            all[..|all| - 1] + [all[|all| - 1] + [c]]
              == left + (right[..|right| - 1] + [right[|right| - 1] + [c]])
  {
    var all := left + right;
    assert all[..|all| - 1] == left + right[..|right| - 1];
  }

  /** Joining pieces that do not contain the separator and splitting the
      result again gives back the pieces: `split` is the inverse of `join`. */
  lemma {:induction false} SplitJoin(parts: seq<string>, sep: char)
    requires |parts| >= 1
    requires forall i :: 0 <= i < |parts| ==> sep !in parts[i]
    ensures Split(Join(parts, sep), sep) == parts
    decreases |parts|
  {
    var last := parts[|parts| - 1];
    SplitWithoutSeparator(last, sep);
    if |parts| == 1 {
      assert parts == [last];
    } else {
      var init := parts[..|parts| - 1];
      var front := Join(init, sep);
      assert forall i :: 0 <= i < |init| ==> sep !in init[i] by {
        assert forall i :: 0 <= i < |init| ==> init[i] == parts[i];
      }
      assert Split(front, sep) == init by {
        SplitJoin(init, sep);
      }
      assert Split(front + [sep] + last, sep) == init + [last] by {
        SplitAtSeparator(front, sep, last);
      }
      assert Join(parts, sep) == front + [sep] + last;
      assert parts == init + [last];
    }
  }
}
