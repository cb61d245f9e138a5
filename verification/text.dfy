/** Python `str` primitives the indexing script relies on, restated over
    Dafny strings (sequences of Unicode scalar values): whitespace and
    line-break classes, `replace`, `strip`, `split()`, `" ".join` and the
    whitespace-run collapse `re.sub(r"\s{2,}", " ", ...)`. */
module Text {

  /** Python's `str.isspace()` for a single character: the ASCII controls
      TAB..CR, the separators U+001C..U+001F, SPACE, and the Unicode
      spaces and line/paragraph separators. */
  predicate IsSpace(c: char) {
    || ('\t' <= c <= '\r')
    || ('\U{1C}' <= c <= ' ')
    || c == '\U{85}' || c == '\U{A0}' || c == '\U{1680}'
    || ('\U{2000}' <= c <= '\U{200A}')
    || c == '\U{2028}' || c == '\U{2029}' || c == '\U{202F}'
    || c == '\U{205F}' || c == '\U{3000}'
  }

  /** The characters at which Python's `str.splitlines()` ends a line
      (a CR immediately followed by LF ends just one line). */
  predicate IsLineBreak(c: char) {
    || ('\n' <= c <= '\r')
    || ('\U{1C}' <= c <= '\U{1E}')
    || c == '\U{85}' || c == '\U{2028}' || c == '\U{2029}'
  }

  predicate IsAscii(c: char) {
    c < '\U{80}'
  }

  predicate AllAscii(s: string) {
    forall i :: 0 <= i < |s| ==> IsAscii(s[i])
  }

  predicate NoSpace(s: string) {
    forall i :: 0 <= i < |s| ==> !IsSpace(s[i])
  }

  /** No two adjacent whitespace characters. */
  predicate SingleSpaced(s: string) {
    forall i :: 0 <= i < |s| - 1 ==> !(IsSpace(s[i]) && IsSpace(s[i + 1]))
  }

  /** Neither the first nor the last character is whitespace. */
  predicate Trimmed(s: string) {
    |s| > 0 ==> !IsSpace(s[0]) && !IsSpace(s[|s| - 1])
  }

  /** `s[i..]` begins with `pat`. */
  predicate MatchesAt(s: string, i: nat, pat: string) {
    i + |pat| <= |s| && s[i..i + |pat|] == pat
  }

  /** `pat not in s`. */
  predicate NoOccurrence(s: string, pat: string) {
    forall i :: 0 <= i <= |s| ==> !MatchesAt(s, i, pat)
  }

  /** Python's `s.replace(pat, rep)` for a non-empty `pat`: every match,
      scanning left to right and never overlapping a previous match, is
      replaced by `rep`. */
  function Replace(s: string, pat: string, rep: string): (r: string)
    requires |pat| > 0
    ensures forall c {:trigger c in r} :: c in r ==> c in s || c in rep
    ensures NoOccurrence(s, pat) ==> r == s
    decreases |s|
  {
    if |s| < |pat| then s
    else if s[..|pat|] == pat then
      assert MatchesAt(s, 0, pat);
      rep + Replace(s[|pat|..], pat, rep)
    else
      var rest := Replace(s[1..], pat, rep);
      assert forall i :: 0 <= i <= |s[1..]| ==> (MatchesAt(s[1..], i, pat) ==> MatchesAt(s, i + 1, pat));
      [s[0]] + rest
  }

  /** Python's `s.split(pat)` for a non-empty `pat`: the pieces of `s`
      between the matches `replace` finds. The first piece is a prefix of
      `s` that runs up to the leftmost match, or is all of `s` when there
      is none; the remaining pieces split what follows that match. No piece
      contains `pat`. */
  function SplitOn(s: string, pat: string): (parts: seq<string>)
    requires |pat| > 0
    ensures |parts| > 0
    ensures |parts[0]| <= |s| && parts[0] == s[..|parts[0]|]
    ensures forall i :: 0 <= i < |parts[0]| ==> !MatchesAt(s, i, pat)
    ensures |parts| == 1 ==> parts[0] == s
    ensures forall k :: 0 <= k < |parts| ==> NoOccurrence(parts[k], pat)
    decreases |s|
  {
    if |s| < |pat| then [s]
    else if s[..|pat|] == pat then [[]] + SplitOn(s[|pat|..], pat)
    else
      var rest := SplitOn(s[1..], pat);
      var first := [s[0]] + rest[0];
      assert first == s[..|first|];
      NoMatchShift(s, pat, |rest[0]|);
      assert |pat| <= |first| ==> first[..|pat|] == s[..|pat|];
      NoOccurrenceCons(s[0], rest[0], pat);
      [first] + rest[1..]
  }

  /** A text that does not start with `pat` and has no `pat` starting in
      its tail before position `m` has none starting before `m + 1`. */
  lemma NoMatchShift(s: string, pat: string, m: nat)
    requires |s| > 0 && !MatchesAt(s, 0, pat)
    requires forall i :: 0 <= i < m ==> !MatchesAt(s[1..], i, pat)
    ensures forall i :: 0 <= i < m + 1 ==> !MatchesAt(s, i, pat)
  {
    forall i | 0 < i < m + 1
      ensures !MatchesAt(s, i, pat)
    {
      if i + |pat| <= |s| {
        assert s[i..i + |pat|] == s[1..][i - 1..i - 1 + |pat|];
        assert !MatchesAt(s[1..], i - 1, pat);
      }
    }
  }

  /** A character in front of a text without `pat` adds no `pat`, unless
      `pat` starts right at it. */
  lemma NoOccurrenceCons(c: char, x: string, pat: string)
    requires NoOccurrence(x, pat) && !MatchesAt([c] + x, 0, pat)
    ensures NoOccurrence([c] + x, pat)
  {
    var y := [c] + x;
    forall i | 0 < i <= |y|
      ensures !MatchesAt(y, i, pat)
    {
      if i + |pat| <= |y| {
        assert y[i..i + |pat|] == x[i - 1..i - 1 + |pat|];
        assert !MatchesAt(x, i - 1, pat);
      }
    }
  }

  /** Positions in the tail `s[1..]` are one less than in `s`. */
  lemma TailShift(s: string, pat: string, m: nat)
    requires |s| > 0 && MatchesAt(s[1..], m, pat)
    ensures MatchesAt(s, m + 1, pat)
    ensures s[1..][m + |pat|..] == s[m + 1 + |pat|..]
  {
    assert s[1..][m..m + |pat|] == s[m + 1..m + 1 + |pat|];
  }

  /** With a self-overlapping pattern the leftmost match wins:
      `"aaa".split("aa") == ["", "a"]`. */
  lemma SplitOnOverlapping()
    ensures SplitOn("aaa", "aa") == ["", "a"]
  {
    var s := "aaa";
    assert s[..2] == "aa" && s[2..] == "a";
    assert SplitOn("a", "aa") == ["a"];
  }

  /** `parts` splits `s` at the leftmost, non-overlapping occurrences of
      `pat`: the first piece is the prefix of `s` before the leftmost
      occurrence, or all of `s` when there is none, and the other pieces
      split what follows that occurrence in the same way. */
  predicate LeftmostSplit(parts: seq<string>, s: string, pat: string)
    decreases |s|
  {
    && |pat| > 0 && |parts| > 0
    && |parts[0]| <= |s| && parts[0] == s[..|parts[0]|]
    && (forall i :: 0 <= i < |parts[0]| ==> !MatchesAt(s, i, pat))
    && if |parts| == 1 then parts[0] == s
       else MatchesAt(s, |parts[0]|, pat) && LeftmostSplit(parts[1..], s[|parts[0]| + |pat|..], pat)
  }

  /** Splitting at the leftmost occurrences has one outcome. */
  lemma {:induction false} LeftmostSplitUnique(p: seq<string>, q: seq<string>, s: string, pat: string)
    requires LeftmostSplit(p, s, pat) && LeftmostSplit(q, s, pat)
    ensures p == q
    decreases |s|
  {
    assert |p| == 1 <==> |q| == 1;
    assert |p[0]| == |q[0]|;
    assert p[0] == q[0];
    if |p| > 1 {
      LeftmostSplitUnique(p[1..], q[1..], s[|p[0]| + |pat|..], pat);
      assert p == [p[0]] + p[1..] && q == [q[0]] + q[1..];
    }
  }

  /** A character that does not start `pat`, put in front of the first
      piece of a leftmost split of the tail. */
  lemma LeftmostSplitCons(s: string, pat: string, rest: seq<string>)
    requires |s| > 0 && !MatchesAt(s, 0, pat)
    requires LeftmostSplit(rest, s[1..], pat)
    ensures LeftmostSplit([[s[0]] + rest[0]] + rest[1..], s, pat)
  {
    var first := [s[0]] + rest[0];
    var parts := [first] + rest[1..];
    assert parts[0] == first && parts[1..] == rest[1..];
    assert first == s[..|first|];
    NoMatchShift(s, pat, |rest[0]|);
    if |rest| > 1 {
      TailShift(s, pat, |rest[0]|);
    }
  }

  /** `SplitOn` takes the leftmost occurrences: together with
      `LeftmostSplitUnique`, this fixes every piece. */
  lemma {:induction false} SplitOnLeftmost(s: string, pat: string)
    requires |pat| > 0
    ensures LeftmostSplit(SplitOn(s, pat), s, pat)
    decreases |s|
  {
    var parts := SplitOn(s, pat);
    if |s| >= |pat| {
      if s[..|pat|] == pat {
        SplitOnLeftmost(s[|pat|..], pat);
        assert parts[1..] == SplitOn(s[|pat|..], pat);
      } else {
        SplitOnLeftmost(s[1..], pat);
        LeftmostSplitCons(s, pat, SplitOn(s[1..], pat));
      }
    }
  }

  /** `sep.join` of a piece in front of at least one more. */
  lemma JoinCons(p: string, parts: seq<string>, sep: string)
    requires |parts| > 0
    ensures Join([p] + parts, sep) == p + sep + Join(parts, sep)
  {
    assert ([p] + parts)[1..] == parts;
  }

  /** A character in front of the first piece is in front of the join. */
  lemma JoinHead(c: char, parts: seq<string>, sep: string)
    requires |parts| > 0
    ensures Join([[c] + parts[0]] + parts[1..], sep) == [c] + Join(parts, sep)
  {
    var ps := [[c] + parts[0]] + parts[1..];
    if |parts| > 1 {
      assert ps[1..] == parts[1..];
      assert ([c] + parts[0]) + sep + Join(parts[1..], sep) == [c] + (parts[0] + sep + Join(parts[1..], sep));
    }
  }

  /** Joining the pieces with the pattern gives the text back:
      `pat.join(s.split(pat)) == s`. */
  lemma {:induction false} SplitOnJoin(s: string, pat: string)
    requires |pat| > 0
    ensures Join(SplitOn(s, pat), pat) == s
    decreases |s|
  {
    if |s| >= |pat| {
      if s[..|pat|] == pat {
        SplitOnJoin(s[|pat|..], pat);
        JoinCons([], SplitOn(s[|pat|..], pat), pat);
        PrefixSuffix(s, |pat|);
        assert [] + pat == pat;
      } else {
        SplitOnJoin(s[1..], pat);
        JoinHead(s[0], SplitOn(s[1..], pat), pat);
        HeadTail(s);
      }
    }
  }

  /** Python's characterisation of `replace`:
      `s.replace(pat, rep) == rep.join(s.split(pat))`. */
  lemma {:induction false} ReplaceIsJoin(s: string, pat: string, rep: string)
    requires |pat| > 0
    ensures Replace(s, pat, rep) == Join(SplitOn(s, pat), rep)
    decreases |s|
  {
    if |s| >= |pat| {
      if s[..|pat|] == pat {
        ReplaceIsJoin(s[|pat|..], pat, rep);
        JoinCons([], SplitOn(s[|pat|..], pat), rep);
        assert [] + rep == rep;
      } else {
        ReplaceIsJoin(s[1..], pat, rep);
        JoinHead(s[0], SplitOn(s[1..], pat), rep);
      }
    }
  }

  /** A slice of a text without `q` has no `q` either. */
  lemma NoOccurrenceSlice(s: string, i: nat, j: nat, q: string)
    requires i <= j <= |s|
    requires NoOccurrence(s, q)
    ensures NoOccurrence(s[i..j], q)
  {
    var t := s[i..j];
    forall k | 0 <= k <= |t|
      ensures !MatchesAt(t, k, q)
    {
      if k + |q| <= |t| {
        var w, w' := t[k..k + |q|], s[i + k..i + k + |q|];
        forall u | 0 <= u < |q|
          ensures w[u] == w'[u]
        {
          assert t[k + u] == s[i + k + u];
        }
        assert w == w';
        assert !MatchesAt(s, i + k, q);
      }
    }
  }

  /** Inserting `rep` next to text without `q` never forms a `q`: `rep` is
      non-empty, has no `q` inside, and its first and last characters do
      not occur in `q`. */
  predicate SafeReplacement(rep: string, q: string) {
    && |rep| > 0
    && NoOccurrence(rep, q)
    && rep[0] !in q
    && rep[|rep| - 1] !in q
  }

  /** A slice of `a + sep + b` that lies within one of the three parts. */
  lemma ConcatSliceLeft(a: string, sep: string, b: string, i: nat, e: nat)
    requires i <= e <= |a|
    ensures (a + sep + b)[i..e] == a[i..e]
  {
  }

  lemma ConcatSliceMiddle(a: string, sep: string, b: string, i: nat, e: nat)
    requires |a| <= i <= e <= |a| + |sep|
    ensures (a + sep + b)[i..e] == sep[i - |a|..e - |a|]
  {
  }

  lemma ConcatSliceRight(a: string, sep: string, b: string, i: nat, e: nat)
    requires |a| + |sep| <= i <= e <= |a| + |sep| + |b|
    ensures (a + sep + b)[i..e] == b[i - |a| - |sep|..e - |a| - |sep|]
  {
  }

  /** A `q` in `a + sep + b` that lies in none of the three parts would
      contain the first or the last character of `sep`. */
  lemma ConcatNoOccurrence(a: string, sep: string, b: string, q: string)
    requires |q| > 0 && SafeReplacement(sep, q)
    requires NoOccurrence(a, q) && NoOccurrence(b, q)
    ensures NoOccurrence(a + sep + b, q)
  {
    var s := a + sep + b;
    var m := |a| + |sep|;
    forall i | 0 <= i <= |s|
      ensures !MatchesAt(s, i, q)
    {
      var e := i + |q|;
      if e <= |s| {
        if e <= |a| {
          ConcatSliceLeft(a, sep, b, i, e);
          assert !MatchesAt(a, i, q);
        } else if i < |a| {
          assert s[|a|] == (a + sep)[|a|] == sep[0];
          assert s[i..e][|a| - i] == sep[0];
        } else if e <= m {
          ConcatSliceMiddle(a, sep, b, i, e);
          assert !MatchesAt(sep, i - |a|, q);
        } else if i < m {
          assert s[m - 1] == (a + sep)[m - 1] == sep[|sep| - 1];
          assert s[i..e][m - 1 - i] == sep[|sep| - 1];
        } else {
          ConcatSliceRight(a, sep, b, i, e);
          assert !MatchesAt(b, i - m, q);
        }
      }
    }
  }

  /** Joining pieces without `q` with a safe separator gives a text
      without `q`. */
  lemma {:induction false} JoinNoOccurrence(parts: seq<string>, sep: string, q: string)
    requires |q| > 0 && SafeReplacement(sep, q)
    requires forall k :: 0 <= k < |parts| ==> NoOccurrence(parts[k], q)
    ensures NoOccurrence(Join(parts, sep), q)
    decreases |parts|
  {
    if |parts| == 0 {
      assert Join(parts, sep) == [];
    } else if |parts| > 1 {
      JoinNoOccurrence(parts[1..], sep, q);
      ConcatNoOccurrence(parts[0], sep, Join(parts[1..], sep), q);
    }
  }

  /** The pieces of a text without `q` have no `q`. */
  lemma {:induction false} SplitOnKeepsNoOccurrence(s: string, pat: string, q: string)
    requires |pat| > 0
    requires NoOccurrence(s, q)
    ensures forall k :: 0 <= k < |SplitOn(s, pat)| ==> NoOccurrence(SplitOn(s, pat)[k], q)
    decreases |s|
  {
    var parts := SplitOn(s, pat);
    NoOccurrenceSlice(s, 0, |parts[0]|, q);
    if |s| >= |pat| {
      if s[..|pat|] == pat {
        NoOccurrenceSlice(s, |pat|, |s|, q);
        assert s[|pat|..|s|] == s[|pat|..];
        SplitOnKeepsNoOccurrence(s[|pat|..], pat, q);
        assert parts[1..] == SplitOn(s[|pat|..], pat);
      } else {
        NoOccurrenceSlice(s, 1, |s|, q);
        assert s[1..|s|] == s[1..];
        SplitOnKeepsNoOccurrence(s[1..], pat, q);
        assert parts[1..] == SplitOn(s[1..], pat)[1..];
      }
    }
  }

  /** With a safe replacement, `replace` leaves no occurrence of the
      pattern behind. */
  lemma ReplaceRemoves(s: string, pat: string, rep: string)
    requires |pat| > 0 && SafeReplacement(rep, pat)
    ensures NoOccurrence(Replace(s, pat, rep), pat)
  {
    ReplaceIsJoin(s, pat, rep);
    JoinNoOccurrence(SplitOn(s, pat), rep, pat);
  }

  /** With a replacement safe for `q`, `replace` creates no occurrence of
      `q` in a text that has none. */
  lemma ReplaceKeepsNoOccurrence(s: string, pat: string, rep: string, q: string)
    requires |pat| > 0 && |q| > 0 && SafeReplacement(rep, q)
    requires NoOccurrence(s, q)
    ensures NoOccurrence(Replace(s, pat, rep), q)
  {
    ReplaceIsJoin(s, pat, rep);
    SplitOnKeepsNoOccurrence(s, pat, q);
    JoinNoOccurrence(SplitOn(s, pat), rep, q);
  }

  /** A pattern matches nowhere in a text that lacks its first character. */
  lemma AbsentHeadNoMatch(s: string, pat: string)
    requires |pat| > 0
    ensures pat[0] !in s ==> NoOccurrence(s, pat)
  {
    forall i | 0 <= i <= |s| && MatchesAt(s, i, pat)
      ensures pat[0] in s
    {
      assert s[i..i + |pat|][0] == s[i];
    }
  }

  /** Replacing a single character by a single character rewrites that
      character everywhere and keeps every other position. */
  lemma {:induction false} ReplaceCharPointwise(s: string, c: char, d: char)
    ensures |Replace(s, [c], [d])| == |s|
    ensures forall k :: 0 <= k < |s| ==>
      Replace(s, [c], [d])[k] == (if s[k] == c then d else s[k])
    decreases |s|
  {
    if |s| >= 1 {
      ReplaceCharPointwise(s[1..], c, d);
      var r := Replace(s, [c], [d]);
      var t := Replace(s[1..], [c], [d]);
      assert r == (if s[0] == c then [d] else [s[0]]) + t;
    }
  }

  /** A single-character pattern that does not occur in its replacement
      is gone from the result. */
  lemma {:induction false} ReplaceCharRemoves(s: string, c: char, rep: string)
    requires c !in rep
    ensures c !in Replace(s, [c], rep)
    decreases |s|
  {
    if |s| >= 1 {
      ReplaceCharRemoves(s[1..], c, rep);
    }
  }

  /** Length of the leading whitespace run of `s`. */
  function LeadingSpaces(s: string): (n: nat)
    ensures n <= |s|
    ensures forall i :: 0 <= i < n ==> IsSpace(s[i])
    ensures n < |s| ==> !IsSpace(s[n])
    decreases |s|
  {
    if |s| > 0 && IsSpace(s[0]) then 1 + LeadingSpaces(s[1..]) else 0
  }

  /** Python's `s.rstrip()`. */
  function TrimEnd(s: string): (r: string)
    ensures |r| <= |s|
    ensures r == s[..|r|]
    ensures forall i :: |r| <= i < |s| ==> IsSpace(s[i])
    ensures |r| > 0 ==> !IsSpace(r[|r| - 1])
    decreases |s|
  {
    if |s| > 0 && IsSpace(s[|s| - 1]) then TrimEnd(s[..|s| - 1]) else s
  }

  /** Python's `s.strip()`: `s` without its leading and trailing
      whitespace runs. */
  function Strip(s: string): (r: string)
    ensures Trimmed(r)
    ensures Trimmed(s) ==> r == s
  {
    var r := TrimEnd(s[LeadingSpaces(s)..]);
    assert |r| > 0 ==> r[0] == s[LeadingSpaces(s)];
    r
  }

  /** `strip` removes only whitespace, so a second `strip` changes nothing. */
  lemma StripIdempotent(s: string)
    ensures Strip(Strip(s)) == Strip(s)
  {
    var r := Strip(s);
    assert LeadingSpaces(r) == 0;
    assert TrimEnd(r) == r;
  }

  /** `strip` returns the slice of `s` between its leading and its
      trailing whitespace runs: everything cut off on either side is
      whitespace, and the slice itself is trimmed, so the cuts are as short
      as they can be. */
  lemma StripSlice(s: string)
    ensures LeadingSpaces(s) + |Strip(s)| <= |s|
    ensures Strip(s) == s[LeadingSpaces(s)..LeadingSpaces(s) + |Strip(s)|]
    ensures forall k :: 0 <= k < LeadingSpaces(s) ==> IsSpace(s[k])
    ensures forall k :: LeadingSpaces(s) + |Strip(s)| <= k < |s| ==> IsSpace(s[k])
  {
    var n := LeadingSpaces(s);
    var t := s[n..];
    var r := TrimEnd(t);
    assert r == t[..|r|];
    forall k | n + |r| <= k < |s|
      ensures IsSpace(s[k])
    {
      assert s[k] == t[k - n];
    }
  }

  /** `strip` cuts only the ends, so it forms no new occurrence. */
  lemma StripKeepsNoOccurrence(s: string, q: string)
    requires NoOccurrence(s, q)
    ensures NoOccurrence(Strip(s), q)
  {
    StripSlice(s);
    NoOccurrenceSlice(s, LeadingSpaces(s), LeadingSpaces(s) + |Strip(s)|, q);
  }

  /** Length of the leading run of non-whitespace characters. */
  function WordLength(s: string): (n: nat)
    ensures n <= |s|
    ensures forall i :: 0 <= i < n ==> !IsSpace(s[i])
    ensures n < |s| ==> IsSpace(s[n])
    decreases |s|
  {
    if |s| > 0 && !IsSpace(s[0]) then 1 + WordLength(s[1..]) else 0
  }

  /** The elements of `s` that satisfy `keep`, in order. */
  function Filter<T>(s: seq<T>, keep: T -> bool): (r: seq<T>)
    ensures |r| <= |s|
    ensures forall x {:trigger x in r} :: x in r ==> x in s && keep(x)
    decreases |s|
  {
    if |s| == 0 then []
    else if keep(s[0]) then [s[0]] + Filter(s[1..], keep)
    else Filter(s[1..], keep)
  }

  /** A nonempty sequence is its head followed by its tail. */
  lemma HeadTail<T>(s: seq<T>)
    requires |s| > 0
    ensures s == [s[0]] + s[1..]
  {
  }

  /** Two sequences with a common head `h`, when the tail of the first is
      the tail of the second followed by `u`: the first is the second
      followed by `u`. */
  lemma CommonHead<T>(x: seq<T>, y: seq<T>, h: seq<T>, z: seq<T>, w: seq<T>, u: seq<T>)
    requires x == h + z && y == h + w && z == w + u
    ensures x == y + u
  {
  }

  /** A sequence is its prefix followed by its suffix. */
  lemma PrefixSuffix<T>(s: seq<T>, n: nat)
    requires n <= |s|
    ensures s == s[..n] + s[n..]
  {
  }

  lemma {:induction false} FilterAppend<T>(a: seq<T>, b: seq<T>, keep: T -> bool)
    ensures Filter(a + b, keep) == Filter(a, keep) + Filter(b, keep)
    decreases |a|
  {
    if |a| > 0 {
      assert (a + b)[0] == a[0];
      assert (a + b)[1..] == a[1..] + b;
      FilterAppend(a[1..], b, keep);
    } else {
      assert a + b == b;
    }
  }

  /** Every kept element of `s` is in the filtered sequence. */
  lemma {:induction false} FilterKeepsMembers<T>(s: seq<T>, keep: T -> bool)
    ensures forall x {:trigger x in Filter(s, keep)} :: x in s && keep(x) ==> x in Filter(s, keep)
    decreases |s|
  {
    if |s| > 0 {
      FilterKeepsMembers(s[1..], keep);
      assert forall x :: x in s ==> x == s[0] || x in s[1..];
    }
  }

  /** A filter keeps nothing exactly when no element passes. */
  lemma FilterEmpty<T>(s: seq<T>, keep: T -> bool)
    ensures |Filter(s, keep)| == 0 <==> forall x :: x in s ==> !keep(x)
  {
    FilterKeepsMembers(s, keep);
    if |Filter(s, keep)| > 0 {
      assert Filter(s, keep)[0] in Filter(s, keep);
    }
  }

  /** Filtering a sequence none of whose elements is kept gives nothing. */
  lemma {:induction false} FilterNone<T>(s: seq<T>, keep: T -> bool)
    requires forall i :: 0 <= i < |s| ==> !keep(s[i])
    ensures Filter(s, keep) == []
    decreases |s|
  {
    if |s| > 0 {
      FilterNone(s[1..], keep);
    }
  }

  /** Filtering a sequence all of whose elements are kept changes nothing. */
  lemma {:induction false} FilterAll<T>(s: seq<T>, keep: T -> bool)
    requires forall i :: 0 <= i < |s| ==> keep(s[i])
    ensures Filter(s, keep) == s
    decreases |s|
  {
    if |s| > 0 {
      FilterAll(s[1..], keep);
      HeadTail(s);
    }
  }

  /** Filtering drops a middle part none of whose elements is kept, between
      parts all of whose elements are. */
  lemma FilterDropsMiddle<T>(a: seq<T>, b: seq<T>, c: seq<T>, keep: T -> bool)
    requires forall i :: 0 <= i < |a| ==> keep(a[i])
    requires forall i :: 0 <= i < |b| ==> !keep(b[i])
    requires forall i :: 0 <= i < |c| ==> keep(c[i])
    ensures Filter(a + (b + c), keep) == a + c
  {
    FilterAppend(a, b + c, keep);
    FilterAppend(b, c, keep);
    FilterAll(a, keep);
    FilterNone(b, keep);
    FilterAll(c, keep);
    assert Filter(b + c, keep) == c by {
      assert [] + c == c;
    }
  }

  /** Number of occurrences of `x` in `s`. */
  function Count<T(==)>(x: T, s: seq<T>): nat
    decreases |s|
  {
    if |s| == 0 then 0 else (if s[0] == x then 1 else 0) + Count(x, s[1..])
  }

  /** `a` is `b` with some elements deleted, order kept. */
  predicate IsSubsequence<T(==)>(a: seq<T>, b: seq<T>)
    decreases |b|
  {
    if |a| == 0 then true
    else if |b| == 0 then false
    else if a[0] == b[0] then IsSubsequence(a[1..], b[1..])
    else IsSubsequence(a, b[1..])
  }

  /** Every element a filter keeps passes the test. */
  lemma FilterAllKept<T>(s: seq<T>, keep: T -> bool)
    ensures forall i :: 0 <= i < |Filter(s, keep)| ==> keep(Filter(s, keep)[i])
  {
    var r := Filter(s, keep);
    forall i | 0 <= i < |r|
      ensures keep(r[i])
    {
      assert r[i] in r;
    }
  }

  /** Filtering deletes elements and keeps the order of the rest, and keeps
      every kept element as often as it occurs. */
  lemma {:induction false} FilterIsSubsequence<T>(s: seq<T>, keep: T -> bool)
    ensures IsSubsequence(Filter(s, keep), s)
    ensures forall x :: Count(x, Filter(s, keep)) == if keep(x) then Count(x, s) else 0
    decreases |s|
  {
    if |s| > 0 {
      FilterIsSubsequence(s[1..], keep);
      if keep(s[0]) {
        assert Filter(s, keep)[1..] == Filter(s[1..], keep);
      } else {
        SubsequenceSkip(Filter(s, keep), s);
      }
    }
  }

  /** Deleting the first element of the longer sequence keeps a
      subsequence relation. */
  lemma {:induction false} SubsequenceSkip<T>(a: seq<T>, b: seq<T>)
    requires |b| > 0 && IsSubsequence(a, b[1..])
    ensures IsSubsequence(a, b)
    decreases |b|, 0
  {
    if |a| > 0 && a[0] == b[0] {
      if |b| > 1 {
        SubsequenceTail(a, b[1..]);
      }
    }
  }

  lemma {:induction false} SubsequenceTail<T>(a: seq<T>, b: seq<T>)
    requires |a| > 0 && IsSubsequence(a, b)
    ensures IsSubsequence(a[1..], b)
    decreases |b|, 1
  {
    if a[0] == b[0] {
      SubsequenceSkip(a[1..], b);
    } else {
      SubsequenceTail(a, b[1..]);
      SubsequenceSkip(a[1..], b);
    }
  }

  predicate IsWordChar(c: char) {
    !IsSpace(c)
  }

  /** The non-whitespace characters of `s`, in order. */
  function NonSpace(s: string): (r: string)
    ensures NoSpace(r)
  {
    var r := Filter(s, IsWordChar);
    assert forall i :: 0 <= i < |r| ==> r[i] in r;
    r
  }

  function Concat(ws: seq<string>): string {
    if |ws| == 0 then [] else ws[0] + Concat(ws[1..])
  }

  lemma ConcatAppend(a: seq<string>, b: seq<string>)
    ensures Concat(a + b) == Concat(a) + Concat(b)
  {
    if |a| > 0 {
      assert (a + b)[0] == a[0];
      assert (a + b)[1..] == a[1..] + b;
      ConcatAppend(a[1..], b);
    } else {
      assert a + b == b;
    }
  }

  /** Python's `s.split()`: the maximal whitespace-free runs of `s`. */
  function Words(s: string): (ws: seq<string>)
    ensures forall k :: 0 <= k < |ws| ==> |ws[k]| > 0 && NoSpace(ws[k])
    decreases |s|
  {
    var n := LeadingSpaces(s);
    if n == |s| then []
    else
      var t := s[n..];
      var m := WordLength(t);
      [t[..m]] + Words(t[m..])
  }

  /** The words of `s` are exactly its non-whitespace characters, cut
      into pieces: nothing is lost, nothing is reordered. */
  lemma {:induction false} WordsCoverNonSpace(s: string)
    ensures Concat(Words(s)) == NonSpace(s)
    decreases |s|
  {
    var n := LeadingSpaces(s);
    NonSpaceSkipsSpaces(s, n);
    if n < |s| {
      var t := s[n..];
      var m := WordLength(t);
      PrefixSuffix(t, m);
      FilterAppend(t[..m], t[m..], IsWordChar);
      FilterAll(t[..m], IsWordChar);
      WordsCoverNonSpace(t[m..]);
      ConcatCons(t[..m], Words(t[m..]));
    }
  }

  lemma ConcatCons(w: string, ws: seq<string>)
    ensures Concat([w] + ws) == w + Concat(ws)
  {
    assert ([w] + ws)[1..] == ws;
  }

  /** Python's `sep.join(parts)`. */
  function Join(parts: seq<string>, sep: string): string {
    if |parts| == 0 then []
    else if |parts| == 1 then parts[0]
    else parts[0] + sep + Join(parts[1..], sep)
  }

  /** `re.sub(r"\s{2,}", " ", s)`: every run of two or more whitespace
      characters becomes one space; a lone whitespace character stays. */
  function CollapseSpaces(s: string): (r: string)
    ensures SingleSpaced(r)
    ensures |r| > 0 <==> |s| > 0
    ensures |s| > 0 ==> (IsSpace(r[0]) <==> IsSpace(s[0]))
    ensures |s| > 0 ==> (IsSpace(r[|r| - 1]) <==> IsSpace(s[|s| - 1]))
    decreases |s|
  {
    if |s| >= 2 && IsSpace(s[0]) && IsSpace(s[1]) then
      var n := LeadingSpaces(s);
      " " + CollapseSpaces(s[n..])
    else if |s| == 0 then []
    else [s[0]] + CollapseSpaces(s[1..])
  }

  /** A maximal whitespace run becomes one space `" "` when it has two or
      more characters; a lone whitespace character is kept as it is. */
  lemma CollapseSpacesRun(w: string, t: string)
    requires |w| > 0 && forall i :: 0 <= i < |w| ==> IsSpace(w[i])
    requires |t| == 0 || !IsSpace(t[0])
    ensures CollapseSpaces(w + t) == (if |w| >= 2 then " " else w) + CollapseSpaces(t)
  {
    var s := w + t;
    assert s[|w|..] == t && s[1..] == (if |w| == 1 then t else s[1..]);
    assert |w| < |s| ==> s[|w|] == t[0];
    if |w| >= 2 {
      assert s[0] == w[0] && s[1] == w[1];
      assert forall i :: 0 <= i < |w| ==> s[i] == w[i];
      assert LeadingSpaces(s) == |w|;
    } else {
      assert s == [w[0]] + t;
    }
  }

  /** A non-whitespace character is copied and collapsing goes on after it. */
  lemma CollapseSpacesCons(c: char, t: string)
    requires !IsSpace(c)
    ensures CollapseSpaces([c] + t) == [c] + CollapseSpaces(t)
  {
    assert ([c] + t)[1..] == t;
  }

  /** `re.sub(r"\s{2,}", " ", "x \ty") == "x y"`. */
  lemma CollapseSpacesPairExample(x: char, y: char)
    requires !IsSpace(x) && !IsSpace(y)
    ensures CollapseSpaces([x, ' ', '\t', y]) == [x, ' ', y]
  {
    var w, t := [' ', '\t'], [y];
    assert [x, ' ', '\t', y] == [x] + (w + t);
    CollapseSpacesCons(y, []);
    CollapseSpacesRun(w, t);
    CollapseSpacesCons(x, w + t);
  }

  /** A lone tab stays: `re.sub(r"\s{2,}", " ", "x\ty") == "x\ty"`. */
  lemma CollapseSpacesLoneExample(x: char, y: char)
    requires !IsSpace(x) && !IsSpace(y)
    ensures CollapseSpaces([x, '\t', y]) == [x, '\t', y]
  {
    var w, t := ['\t'], [y];
    assert [x, '\t', y] == [x] + (w + t);
    CollapseSpacesCons(y, []);
    CollapseSpacesRun(w, t);
    CollapseSpacesCons(x, w + t);
  }

  /** Collapsing whitespace keeps the non-whitespace characters. */
  lemma {:induction false} CollapseKeepsNonSpace(s: string)
    ensures NonSpace(CollapseSpaces(s)) == NonSpace(s)
    decreases |s|
  {
    if |s| >= 2 && IsSpace(s[0]) && IsSpace(s[1]) {
      var n := LeadingSpaces(s);
      CollapseKeepsNonSpace(s[n..]);
      FilterAppend(" ", CollapseSpaces(s[n..]), IsWordChar);
      NonSpaceSkipsSpaces(s, n);
    } else if |s| > 0 {
      CollapseKeepsNonSpace(s[1..]);
      FilterAppend([s[0]], CollapseSpaces(s[1..]), IsWordChar);
    }
  }

  /** A whitespace character in front of a text adds no word. */
  lemma WordsSpaceCons(c: char, x: string)
    requires IsSpace(c)
    ensures Words([c] + x) == Words(x)
  {
    var s := [c] + x;
    assert s[1..] == x;
    assert LeadingSpaces(s) == 1 + LeadingSpaces(x);
    assert s[LeadingSpaces(s)..] == x[LeadingSpaces(x)..];
  }

  /** A non-whitespace character in front of a text starts the first word:
      a word of its own when whitespace or nothing follows, otherwise the
      front of the text's first word. */
  lemma WordsCons(c: char, x: string)
    requires !IsSpace(c)
    ensures |x| == 0 || IsSpace(x[0]) ==> Words([c] + x) == [[c]] + Words(x)
    ensures |x| > 0 && !IsSpace(x[0]) ==>
      |Words(x)| > 0 && Words([c] + x) == [[c] + Words(x)[0]] + Words(x)[1..]
  {
    var m := WordLength(x);
    assert x[..0] == [] && x[0..] == x;
    WordsConsUnfold(c, x);
    if |x| > 0 && !IsSpace(x[0]) {
      assert LeadingSpaces(x) == 0;
    }
  }

  /** The first word of `[c] + x`, for a non-whitespace `c`, is `c`
      followed by the leading non-whitespace characters of `x`. */
  lemma WordsConsUnfold(c: char, x: string)
    requires !IsSpace(c)
    ensures Words([c] + x) == [[c] + x[..WordLength(x)]] + Words(x[WordLength(x)..])
  {
    var s := [c] + x;
    var m := WordLength(x);
    assert s[1..] == x && s[0..] == s;
    assert s[..1 + m] == [c] + x[..m];
    assert s[1 + m..] == x[m..];
    assert LeadingSpaces(s) == 0;
    assert WordLength(s) == 1 + m;
  }

  /** A string without whitespace is one word. */
  lemma {:induction false} WordsSingle(w: string)
    requires |w| > 0 && NoSpace(w)
    ensures Words(w) == [w]
    decreases |w|
  {
    HeadTail(w);
    WordsCons(w[0], w[1..]);
    if |w| > 1 {
      WordsSingle(w[1..]);
      assert !IsSpace(w[1..][0]);
      assert Words(w) == [[w[0]] + w[1..]];
      assert [[w[0]] + w[1..]] == [w];
    } else {
      assert w[1..] == [];
      assert Words(w[1..]) == [];
      assert Words(w) == [[w[0]]];
      assert [w[0]] == w;
    }
  }

  /** Splitting at a whitespace character: the words of the two sides,
      one after the other. Together with `WordsSingle` this determines
      `str.split()`. */
  lemma {:induction false} WordsSplit(a: string, c: char, b: string)
    requires IsSpace(c)
    ensures Words(a + [c] + b) == Words(a) + Words(b)
    decreases |a|
  {
    if |a| == 0 {
      assert a + [c] + b == [c] + b;
      WordsSpaceCons(c, b);
    } else {
      var x := a[1..] + [c] + b;
      assert a + [c] + b == [a[0]] + x;
      HeadTail(a);
      WordsSplit(a[1..], c, b);
      if IsSpace(a[0]) {
        WordsSpaceCons(a[0], x);
        WordsSpaceCons(a[0], a[1..]);
      } else {
        WordsConsSplit(a[0], a[1..], c, b);
      }
    }
  }

  /** The step of `WordsSplit` for a word character in front. */
  lemma WordsConsSplit(d: char, a: string, c: char, b: string)
    requires !IsSpace(d) && IsSpace(c)
    requires Words(a + [c] + b) == Words(a) + Words(b)
    ensures Words([d] + (a + [c] + b)) == Words([d] + a) + Words(b)
  {
    var x := a + [c] + b;
    assert x[0] == if |a| == 0 then c else a[0];
    WordsCons(d, x);
    WordsCons(d, a);
    WordsConsAlgebra(d, Words([d] + x), Words([d] + a), Words(x), Words(a), Words(b),
      |a| == 0 || IsSpace(a[0]), |a| == 0);
  }

  /** The sequence algebra behind `WordsConsSplit`, over the word lists
      alone. */
  lemma WordsConsAlgebra(d: char, wdx: seq<string>, wda: seq<string>, wx: seq<string>, wa: seq<string>, wb: seq<string>, sep: bool, empty: bool)
    requires wx == wa + wb
    requires empty ==> wa == []
    requires sep ==> wdx == [[d]] + wx && wda == [[d]] + wa
    requires !sep ==> |wx| > 0 && |wa| > 0 && wdx == [[d] + wx[0]] + wx[1..] && wda == [[d] + wa[0]] + wa[1..]
    ensures wdx == wda + wb
  {
    if !sep {
      assert (wa + wb)[0] == wa[0];
      assert (wa + wb)[1..] == wa[1..] + wb;
    }
  }

  /** Collapsing whitespace runs keeps the words. */
  lemma {:induction false} WordsCollapse(s: string)
    ensures Words(CollapseSpaces(s)) == Words(s)
    decreases |s|
  {
    if |s| >= 2 && IsSpace(s[0]) && IsSpace(s[1]) {
      var n := LeadingSpaces(s);
      WordsCollapse(s[n..]);
      WordsSpaceCons(' ', CollapseSpaces(s[n..]));
      assert " " == [' '];
      WordsSkipSpaces(s, n);
    } else if |s| > 0 {
      var x := CollapseSpaces(s[1..]);
      WordsCollapse(s[1..]);
      HeadTail(s);
      if IsSpace(s[0]) {
        WordsSpaceCons(s[0], x);
        WordsSpaceCons(s[0], s[1..]);
      } else {
        WordsCons(s[0], x);
        WordsCons(s[0], s[1..]);
      }
    }
  }

  /** Leading whitespace adds no word. */
  lemma {:induction false} WordsSkipSpaces(s: string, n: nat)
    requires n <= |s|
    requires forall i :: 0 <= i < n ==> IsSpace(s[i])
    ensures Words(s) == Words(s[n..])
    decreases n
  {
    if n > 0 {
      HeadTail(s);
      WordsSpaceCons(s[0], s[1..]);
      WordsSkipSpaces(s[1..], n - 1);
      assert s[1..][n - 1..] == s[n..];
    }
  }

  lemma NonSpaceSkipsSpaces(s: string, n: nat)
    requires n <= |s|
    requires forall i :: 0 <= i < n ==> IsSpace(s[i])
    ensures NonSpace(s) == NonSpace(s[n..])
  {
    PrefixSuffix(s, n);
    FilterAppend(s[..n], s[n..], IsWordChar);
    FilterNone(s[..n], IsWordChar);
  }
}
