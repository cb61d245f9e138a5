/** `normalize_text`: best-effort cleanup of the text extracted from the
    source document. Fixed-string replacements are applied with
    `Text.Replace`; each of the three regular-expression rewrites is its own
    explicit left-to-right pass. */
module Normalize {
  import opened Text

  /** The characters of the script's `BULLET_CHARS` literal, in order:
      U+2022, U+25CF, U+25AA, U+25AA, U+FE0E, U+25E6, U+25C9. The literal
      spells the third glyph with a trailing variation selector U+FE0E, so
      that selector is itself one of the characters rewritten to `-`. */
  const BulletChars: string := "\U{2022}\U{25CF}\U{25AA}\U{25AA}\U{FE0E}\U{25E6}\U{25C9}"

  /** The characters of `UNICODE_DASHES`: U+2012..U+2015 and U+2212. */
  const UnicodeDashes: string := "\U{2012}\U{2013}\U{2014}\U{2015}\U{2212}"

  /** Icon-glyph repairs applied after the ASCII filter, in order. */
  const GlyphLabels: seq<(string, string)> := [
    ("ap-arker-alt", "Location: "),
    ("/envelpe", " Email: "),
    ("phone-alt", " Phone: ")
  ]

  /** Replaces each character of `chars` in turn by `rep`. */
  function ReplaceEach(s: string, chars: string, rep: string): (r: string)
    ensures forall c {:trigger c in r} :: c in r ==> c in s || c in rep
    ensures (forall c :: c in chars ==> c !in rep) ==> forall c :: c in chars ==> c !in r
    ensures (forall c :: c in chars ==> c !in s) ==> r == s
    decreases |chars|
  {
    if |chars| == 0 then s
    else
      var s' := Replace(s, [chars[0]], rep);
      AbsentHeadNoMatch(s, [chars[0]]);
      if chars[0] !in rep then
        ReplaceCharRemoves(s, chars[0], rep);
        ReplaceEach(s', chars[1..], rep)
      else
        ReplaceEach(s', chars[1..], rep)
  }

  /** Replacing each listed character by a one-character `rep` rewrites
      exactly the listed characters, in place, and keeps every other
      character where it was. */
  lemma {:induction false} ReplaceEachPointwise(s: string, chars: string, d: char)
    ensures |ReplaceEach(s, chars, [d])| == |s|
    ensures forall k :: 0 <= k < |s| ==>
      ReplaceEach(s, chars, [d])[k] == if s[k] in chars then d else s[k]
    decreases |chars|
  {
    if |chars| > 0 {
      var s' := Replace(s, [chars[0]], [d]);
      ReplaceCharPointwise(s, chars[0], d);
      ReplaceEachPointwise(s', chars[1..], d);
      forall k | 0 <= k < |s|
        ensures s[k] in chars <==> s[k] == chars[0] || s[k] in chars[1..]
      {
        HeadTail(chars);
      }
    }
  }

  /** Applies the `(pattern, replacement)` rules of `table` in order. */
  function ApplyLabels(s: string, table: seq<(string, string)>): (r: string)
    requires forall k :: 0 <= k < |table| ==> |table[k].0| > 0
    ensures AllAscii(s) && (forall k :: 0 <= k < |table| ==> AllAscii(table[k].1)) ==> AllAscii(r)
    ensures (forall k :: 0 <= k < |table| ==> |s| < |table[k].0|) ==> r == s
    decreases |table|
  {
    if |table| == 0 then s
    else
      var s' := Replace(s, table[0].0, table[0].1);
      assert forall i :: 0 <= i < |s'| ==> s'[i] in s';
      assert forall i :: 0 <= i < |table[0].1| ==> table[0].1[i] in table[0].1;
      ApplyLabels(s', table[1..])
  }

  /** A table whose patterns are non-empty and whose every label is safe
      for every pattern: a label never forms or completes a pattern. */
  predicate SafeTable(table: seq<(string, string)>) {
    && (forall k :: 0 <= k < |table| ==> |table[k].0| > 0)
    && (forall j, k :: 0 <= j < |table| && 0 <= k < |table| ==> SafeReplacement(table[k].1, table[j].0))
  }

  /** Labels safe for `q` keep a text free of `q`. */
  lemma {:induction false} ApplyLabelsKeepsNoOccurrence(s: string, table: seq<(string, string)>, q: string)
    requires forall k :: 0 <= k < |table| ==> |table[k].0| > 0 && SafeReplacement(table[k].1, q)
    requires |q| > 0 && NoOccurrence(s, q)
    ensures NoOccurrence(ApplyLabels(s, table), q)
    decreases |table|
  {
    if |table| > 0 {
      ReplaceKeepsNoOccurrence(s, table[0].0, table[0].1, q);
      ApplyLabelsKeepsNoOccurrence(Replace(s, table[0].0, table[0].1), table[1..], q);
    }
  }

  /** With a safe table, no pattern is left: every occurrence was
      rewritten to its label, and no label formed a new one. */
  lemma {:induction false} ApplyLabelsRemoves(s: string, table: seq<(string, string)>)
    requires SafeTable(table)
    ensures forall j :: 0 <= j < |table| ==> NoOccurrence(ApplyLabels(s, table), table[j].0)
    decreases |table|
  {
    if |table| > 0 {
      var s' := Replace(s, table[0].0, table[0].1);
      var rest := table[1..];
      ReplaceRemoves(s, table[0].0, table[0].1);
      ApplyLabelsKeepsNoOccurrence(s', rest, table[0].0);
      assert SafeTable(rest) by {
        forall j, k | 0 <= j < |rest| && 0 <= k < |rest|
          ensures SafeReplacement(rest[k].1, rest[j].0)
        {
          assert rest[k] == table[k + 1] && rest[j] == table[j + 1];
        }
      }
      ApplyLabelsRemoves(s', rest);
      forall j | 0 < j < |table|
        ensures NoOccurrence(ApplyLabels(s, table), table[j].0)
      {
        assert table[j] == rest[j - 1];
      }
    }
  }

  predicate IsBlank(c: char) {
    c == ' ' || c == '\t'
  }

  predicate IsNotBlank(c: char) {
    !IsBlank(c)
  }

  /** Length of the leading run of spaces and tabs. */
  function BlankRun(s: string): (n: nat)
    ensures n <= |s|
    ensures forall i :: 0 <= i < n ==> IsBlank(s[i])
    ensures n < |s| ==> !IsBlank(s[n])
    decreases |s|
  {
    if |s| > 0 && IsBlank(s[0]) then 1 + BlankRun(s[1..]) else 0
  }

  /** No space or tab immediately before a newline. */
  predicate NoBlankBeforeNewline(s: string) {
    forall k :: 0 < k < |s| && s[k] == '\n' ==> !IsBlank(s[k - 1])
  }

  /** `re.sub(r"[ \t]+\n", "\n", s)`: a run of spaces and tabs is deleted
      exactly when a newline follows it. */
  function DropTrailingBlanks(s: string): (r: string)
    ensures NoBlankBeforeNewline(r)
    ensures |s| > 0 && !IsBlank(s[0]) ==> |r| > 0 && r[0] == s[0]
    decreases |s|
  {
    if |s| == 0 then []
    else
      var n := BlankRun(s);
      if n == 0 then [s[0]] + DropTrailingBlanks(s[1..])
      else if n < |s| && s[n] == '\n' then DropTrailingBlanks(s[n..])
      else s[..n] + DropTrailingBlanks(s[n..])
  }

  /** The pass deletes spaces and tabs and nothing else. */
  lemma {:induction false} DropTrailingBlanksKeepsText(s: string)
    ensures Filter(DropTrailingBlanks(s), IsNotBlank) == Filter(s, IsNotBlank)
    decreases |s|
  {
    if |s| > 0 {
      var n := BlankRun(s);
      if n == 0 {
        DropTrailingBlanksKeepsText(s[1..]);
        FilterAppend([s[0]], DropTrailingBlanks(s[1..]), IsNotBlank);
        HeadTail(s);
        FilterAppend([s[0]], s[1..], IsNotBlank);
      } else {
        DropTrailingBlanksKeepsText(s[n..]);
        PrefixSuffix(s, n);
        FilterAppend(s[..n], s[n..], IsNotBlank);
        FilterNone(s[..n], IsNotBlank);
        if !(n < |s| && s[n] == '\n') {
          FilterAppend(s[..n], DropTrailingBlanks(s[n..]), IsNotBlank);
        }
      }
    }
  }

  /** Text already free of blanks before newlines is left unchanged, so
      the pass is idempotent. */
  lemma {:induction false} DropTrailingBlanksFixesNormal(s: string)
    requires NoBlankBeforeNewline(s)
    ensures DropTrailingBlanks(s) == s
    decreases |s|
  {
    if |s| > 0 {
      var n := BlankRun(s);
      if n == 0 {
        assert NoBlankBeforeNewline(s[1..]) by {
          forall k | 0 < k < |s[1..]| && s[1..][k] == '\n'
            ensures !IsBlank(s[1..][k - 1])
          {
            assert s[k + 1] == '\n';
          }
        }
        DropTrailingBlanksFixesNormal(s[1..]);
        HeadTail(s);
      } else {
        assert IsBlank(s[n - 1]);
        assert !(n < |s| && s[n] == '\n');
        DropTrailingBlanksFixesNormal(s[n..]);
        PrefixSuffix(s, n);
      }
    }
  }

  /** One step of the pass on `a + t` and on `a` alike: both emit `h` and
      go on from the `k`-th character of `a`. */
  lemma DropTrailingBlanksStep(a: string, t: string) returns (k: nat, h: string)
    requires |a| > 0 && |t| > 0 && !IsBlank(t[0]) && t[0] != '\n'
    ensures 0 < k <= |a|
    ensures DropTrailingBlanks(a + t) == h + DropTrailingBlanks(a[k..] + t)
    ensures DropTrailingBlanks(a) == h + DropTrailingBlanks(a[k..])
  {
    var n := BlankRun(a);
    BlankRunAppend(a, t);
    if n == 0 {
      k, h := 1, [a[0]];
      DropTrailingBlanksStepKeep(a, t);
    } else if n < |a| {
      k, h := n, if a[n] == '\n' then [] else a[..n];
      DropTrailingBlanksStepRun(a, t, n);
    } else {
      k, h := n, a;
      DropTrailingBlanksStepLast(a, t);
    }
  }

  /** Blanks at the end of `a` stay a run of the same length in `a + t`. */
  lemma BlankRunAppend(a: string, t: string)
    requires |t| > 0 && !IsBlank(t[0])
    ensures BlankRun(a + t) == BlankRun(a)
  {
    var s, n := a + t, BlankRun(a);
    assert n < |a| ==> s[n] == a[n];
    assert n == |a| ==> s[n] == t[0];
  }

  /** A first character that is not blank is copied. */
  lemma DropTrailingBlanksStepKeep(a: string, t: string)
    requires |a| > 0 && !IsBlank(a[0])
    ensures DropTrailingBlanks(a + t) == [a[0]] + DropTrailingBlanks(a[1..] + t)
    ensures DropTrailingBlanks(a) == [a[0]] + DropTrailingBlanks(a[1..])
  {
    assert (a + t)[1..] == a[1..] + t;
  }

  /** A blank run inside `a` is dropped or kept alike in `a + t`. */
  lemma DropTrailingBlanksStepRun(a: string, t: string, n: nat)
    requires 0 < n < |a| && n == BlankRun(a) && BlankRun(a + t) == n
    ensures var h := if a[n] == '\n' then [] else a[..n];
      && DropTrailingBlanks(a + t) == h + DropTrailingBlanks(a[n..] + t)
      && DropTrailingBlanks(a) == h + DropTrailingBlanks(a[n..])
  {
    var s := a + t;
    assert s[n..] == a[n..] + t && s[..n] == a[..n] && s[n] == a[n];
  }

  /** A blank run that ends `a` is kept, in `a + t` too, as no newline
      follows it. */
  lemma DropTrailingBlanksStepLast(a: string, t: string)
    requires |a| > 0 && BlankRun(a) == |a| && BlankRun(a + t) == |a|
    requires |t| > 0 && t[0] != '\n'
    ensures DropTrailingBlanks(a + t) == a + DropTrailingBlanks(a[|a|..] + t)
    ensures DropTrailingBlanks(a) == a + DropTrailingBlanks(a[|a|..])
  {
    var s, n := a + t, |a|;
    assert s[..n] == a && s[n..] == t && a[n..] == [] && a[..n] == a;
    assert [] + t == t;
  }

  /** Text that a non-blank character other than a newline follows keeps
      its run of blanks: the pass works on the two sides separately. */
  lemma {:induction false} DropTrailingBlanksAppend(a: string, t: string)
    requires |t| > 0 && !IsBlank(t[0]) && t[0] != '\n'
    ensures DropTrailingBlanks(a + t) == DropTrailingBlanks(a) + DropTrailingBlanks(t)
    decreases |a|
  {
    if |a| == 0 {
      assert a + t == t;
    } else {
      var k, h := DropTrailingBlanksStep(a, t);
      DropTrailingBlanksAppend(a[k..], t);
      CommonHead(DropTrailingBlanks(a + t), DropTrailingBlanks(a), h,
        DropTrailingBlanks(a[k..] + t), DropTrailingBlanks(a[k..]), DropTrailingBlanks(t));
    }
  }

  /** A character that is neither blank nor a newline is kept, and the
      text on each side of it is rewritten on its own. */
  lemma DropTrailingBlanksLocal(a: string, c: char, b: string)
    requires !IsBlank(c) && c != '\n'
    ensures DropTrailingBlanks(a + [c] + b) == DropTrailingBlanks(a) + [c] + DropTrailingBlanks(b)
  {
    var cb := [c] + b;
    assert a + [c] + b == a + cb && [c][1..] + b == b && [c] + b == cb;
    DropTrailingBlanksStepKeep([c], b);
    DropTrailingBlanksAppend(a, cb);
  }

  /** A run of blanks is deleted when a newline follows it and kept
      otherwise. */
  lemma DropTrailingBlanksRun(w: string, t: string)
    requires |w| > 0 && forall i :: 0 <= i < |w| ==> IsBlank(w[i])
    requires |t| > 0 ==> !IsBlank(t[0])
    ensures DropTrailingBlanks(w + t) ==
      if |t| > 0 && t[0] == '\n' then DropTrailingBlanks(t) else w + DropTrailingBlanks(t)
  {
    var s := w + t;
    assert |w| < |s| ==> s[|w|] == t[0];
    assert BlankRun(s) == |w|;
    assert s[..|w|] == w && s[|w|..] == t;
  }

  /** Length of the leading run of newlines. */
  function NewlineRun(s: string): (n: nat)
    ensures n <= |s|
    ensures forall i :: 0 <= i < n ==> s[i] == '\n'
    ensures n < |s| ==> s[n] != '\n'
    decreases |s|
  {
    if |s| > 0 && s[0] == '\n' then 1 + NewlineRun(s[1..]) else 0
  }

  predicate IsNotNewline(c: char) {
    c != '\n'
  }

  /** No three newlines in a row (at most one blank line). */
  predicate NoTripleNewline(s: string) {
    forall k :: 0 <= k < |s| - 2 ==> !(s[k] == '\n' && s[k + 1] == '\n' && s[k + 2] == '\n')
  }

  /** `re.sub(r"\n{3,}", "\n\n", s)`: every run of three or more newlines
      becomes exactly two. */
  function CollapseNewlines(s: string): (r: string)
    ensures NoTripleNewline(r)
    ensures |s| > 0 && s[0] != '\n' ==> |r| > 0 && r[0] == s[0]
    decreases |s|
  {
    if |s| == 0 then []
    else
      var n := NewlineRun(s);
      if n >= 3 then "\n\n" + CollapseNewlines(s[n..])
      else if n == 0 then [s[0]] + CollapseNewlines(s[1..])
      else s[..n] + CollapseNewlines(s[n..])
  }

  /** The pass rewrites only newlines: every other character survives, in
      order. */
  lemma {:induction false} CollapseNewlinesKeepsText(s: string)
    ensures Filter(CollapseNewlines(s), IsNotNewline) == Filter(s, IsNotNewline)
    decreases |s|
  {
    if |s| > 0 {
      var n := NewlineRun(s);
      if n == 0 {
        CollapseNewlinesKeepsText(s[1..]);
        FilterAppend([s[0]], CollapseNewlines(s[1..]), IsNotNewline);
        HeadTail(s);
        FilterAppend([s[0]], s[1..], IsNotNewline);
      } else {
        CollapseNewlinesKeepsText(s[n..]);
        PrefixSuffix(s, n);
        FilterAppend(s[..n], s[n..], IsNotNewline);
        FilterNone(s[..n], IsNotNewline);
        if n >= 3 {
          FilterAppend("\n\n", CollapseNewlines(s[n..]), IsNotNewline);
          FilterNone("\n\n", IsNotNewline);
        } else {
          FilterAppend(s[..n], CollapseNewlines(s[n..]), IsNotNewline);
        }
      }
    }
  }

  /** Text with at most one blank line between paragraphs is left
      unchanged, so the pass is idempotent. */
  lemma {:induction false} CollapseNewlinesFixesNormal(s: string)
    requires NoTripleNewline(s)
    ensures CollapseNewlines(s) == s
    decreases |s|
  {
    if |s| > 0 {
      var n := NewlineRun(s);
      if n == 0 {
        CollapseNewlinesFixesNormal(s[1..]);
        HeadTail(s);
      } else {
        if |s| >= 3 {
          assert !(s[0] == '\n' && s[1] == '\n' && s[2] == '\n');
        }
        CollapseNewlinesFixesNormal(s[n..]);
        PrefixSuffix(s, n);
      }
    }
  }

  /** One step of the pass on `a + t` and on `a` alike: both emit `h` and
      go on from the `k`-th character of `a`. */
  lemma CollapseNewlinesStep(a: string, t: string) returns (k: nat, h: string)
    requires |a| > 0 && |t| > 0 && t[0] != '\n'
    ensures 0 < k <= |a|
    ensures CollapseNewlines(a + t) == h + CollapseNewlines(a[k..] + t)
    ensures CollapseNewlines(a) == h + CollapseNewlines(a[k..])
  {
    var n := NewlineRun(a);
    NewlineRunAppend(a, t);
    if n == 0 {
      k, h := 1, [a[0]];
      CollapseNewlinesStepKeep(a, t);
    } else {
      k, h := n, if n >= 3 then "\n\n" else a[..n];
      CollapseNewlinesStepRun(a, t, n);
    }
  }

  /** Newlines at the end of `a` stay a run of the same length in `a + t`. */
  lemma NewlineRunAppend(a: string, t: string)
    requires |t| > 0 && t[0] != '\n'
    ensures NewlineRun(a + t) == NewlineRun(a)
  {
    var s, n := a + t, NewlineRun(a);
    assert n < |a| ==> s[n] == a[n];
    assert n == |a| ==> s[n] == t[0];
  }

  /** A first character other than a newline is copied. */
  lemma CollapseNewlinesStepKeep(a: string, t: string)
    requires |a| > 0 && a[0] != '\n'
    ensures CollapseNewlines(a + t) == [a[0]] + CollapseNewlines(a[1..] + t)
    ensures CollapseNewlines(a) == [a[0]] + CollapseNewlines(a[1..])
  {
    assert (a + t)[1..] == a[1..] + t;
  }

  /** A newline run at the head of `a` is rewritten alike in `a + t`. */
  lemma CollapseNewlinesStepRun(a: string, t: string, n: nat)
    requires 0 < n <= |a| && n == NewlineRun(a) && NewlineRun(a + t) == n
    ensures var h := if n >= 3 then "\n\n" else a[..n];
      && CollapseNewlines(a + t) == h + CollapseNewlines(a[n..] + t)
      && CollapseNewlines(a) == h + CollapseNewlines(a[n..])
  {
    var s := a + t;
    assert s[n..] == a[n..] + t && s[..n] == a[..n];
  }

  /** Text that a character other than a newline follows keeps its
      newline run: the pass works on the two sides separately. */
  lemma {:induction false} CollapseNewlinesAppend(a: string, t: string)
    requires |t| > 0 && t[0] != '\n'
    ensures CollapseNewlines(a + t) == CollapseNewlines(a) + CollapseNewlines(t)
    decreases |a|
  {
    if |a| == 0 {
      assert a + t == t;
    } else {
      var k, h := CollapseNewlinesStep(a, t);
      CollapseNewlinesAppend(a[k..], t);
      CommonHead(CollapseNewlines(a + t), CollapseNewlines(a), h,
        CollapseNewlines(a[k..] + t), CollapseNewlines(a[k..]), CollapseNewlines(t));
    }
  }

  /** A character other than a newline is kept, and the text on each side
      of it is rewritten on its own. */
  lemma CollapseNewlinesLocal(a: string, c: char, b: string)
    requires c != '\n'
    ensures CollapseNewlines(a + [c] + b) == CollapseNewlines(a) + [c] + CollapseNewlines(b)
  {
    assert a + [c] + b == a + ([c] + b);
    CollapseNewlinesAppend(a, [c] + b);
    assert ([c] + b)[1..] == b;
  }

  /** `n` newlines in a row. */
  function Newlines(n: nat): (r: string)
    ensures |r| == n && forall i :: 0 <= i < n ==> r[i] == '\n'
  {
    seq(n, i => '\n')
  }

  /** A maximal run of `n` newlines becomes two newlines when `n >= 3`
      and is kept as it is otherwise. */
  lemma CollapseNewlinesRun(n: nat, t: string)
    requires |t| > 0 ==> t[0] != '\n'
    ensures CollapseNewlines(Newlines(n) + t) ==
      (if n >= 3 then "\n\n" else Newlines(n)) + CollapseNewlines(t)
  {
    var s := Newlines(n) + t;
    assert n < |s| ==> s[n] == t[0];
    assert NewlineRun(s) == n;
    assert s[..n] == Newlines(n) && s[n..] == t;
  }

  /** Every hyphen that starts a line is followed by exactly one space and
      then by a non-whitespace character or the end of the text. */
  predicate BulletsNormal(s: string) {
    forall k :: 0 <= k < |s| - 1 && s[k] == '\n' && s[k + 1] == '-' ==>
      k + 2 < |s| && s[k + 2] == ' ' && (k + 3 < |s| ==> !IsSpace(s[k + 3]))
  }

  /** `re.sub(r"\n-\s*", "\n- ", s)`: a hyphen at the start of a line,
      with all the whitespace after it (newlines included), becomes exactly
      `"- "`. */
  function NormalizeBullets(s: string): (r: string)
    ensures BulletsNormal(r)
    ensures |s| > 0 ==> |r| > 0 && r[0] == s[0]
    decreases |s|
  {
    if |s| >= 2 && s[0] == '\n' && s[1] == '-' then
      var n := LeadingSpaces(s[2..]);
      var rest := NormalizeBullets(s[2 + n..]);
      assert |rest| > 0 ==> rest[0] == s[2..][n];
      BulletsNormalMarker(rest);
      "\n- " + rest
    else if |s| == 0 then []
    else
      var rest := NormalizeBullets(s[1..]);
      BulletsNormalCons(s[0], rest);
      [s[0]] + rest
  }

  /** A character in front of normal text keeps it normal unless it is a
      newline right before a hyphen. */
  lemma BulletsNormalCons(c: char, r: string)
    requires BulletsNormal(r)
    requires c == '\n' && |r| > 0 ==> r[0] != '-'
    ensures BulletsNormal([c] + r)
  {
    var s := [c] + r;
    forall k | 0 <= k < |s| - 1 && s[k] == '\n' && s[k + 1] == '-'
      ensures k + 2 < |s| && s[k + 2] == ' ' && (k + 3 < |s| ==> !IsSpace(s[k + 3]))
    {
      assert k > 0;
      assert r[k - 1] == '\n' && r[k] == '-';
    }
  }

  /** A normalized marker in front of normal text that does not start with
      whitespace keeps it normal. */
  lemma BulletsNormalMarker(r: string)
    requires BulletsNormal(r)
    requires |r| > 0 ==> !IsSpace(r[0])
    ensures BulletsNormal("\n- " + r)
  {
    var s := "\n- " + r;
    forall k | 0 <= k < |s| - 1 && s[k] == '\n' && s[k + 1] == '-'
      ensures k + 2 < |s| && s[k + 2] == ' ' && (k + 3 < |s| ==> !IsSpace(s[k + 3]))
    {
      if k >= 3 {
        assert r[k - 3] == '\n' && r[k - 2] == '-';
      } else {
        assert k == 0;
      }
    }
  }

  /** The pass only removes and inserts whitespace: the non-whitespace
      characters are unchanged and in order. */
  lemma {:induction false} NormalizeBulletsKeepsText(s: string)
    ensures NonSpace(NormalizeBullets(s)) == NonSpace(s)
    decreases |s|
  {
    if |s| >= 2 && s[0] == '\n' && s[1] == '-' {
      var n := LeadingSpaces(s[2..]);
      NormalizeBulletsKeepsText(s[2 + n..]);
      FilterAppend("\n- ", NormalizeBullets(s[2 + n..]), IsWordChar);
      MarkerText(s, n);
    } else if |s| > 0 {
      NormalizeBulletsKeepsText(s[1..]);
      FilterAppend([s[0]], NormalizeBullets(s[1..]), IsWordChar);
      HeadTail(s);
      FilterAppend([s[0]], s[1..], IsWordChar);
    }
  }

  /** Text whose line-start hyphens are already normal is left unchanged,
      so the pass is idempotent. */
  lemma {:induction false} NormalizeBulletsFixesNormal(s: string)
    requires BulletsNormal(s)
    ensures NormalizeBullets(s) == s
    decreases |s|
  {
    if |s| >= 2 && s[0] == '\n' && s[1] == '-' {
      assert s[2] == ' ' && (3 < |s| ==> !IsSpace(s[3]));
      assert LeadingSpaces(s[2..]) == 1;
      BulletsNormalSuffix(s, 3);
      NormalizeBulletsFixesNormal(s[3..]);
      PrefixSuffix(s, 3);
      assert s[..3] == "\n- ";
    } else if |s| > 0 {
      BulletsNormalSuffix(s, 1);
      NormalizeBulletsFixesNormal(s[1..]);
      HeadTail(s);
    }
  }

  /** One step of the pass on `a + t` and on `a` alike: both emit `h` and
      go on from the `k`-th character of `a`. */
  lemma NormalizeBulletsStep(a: string, t: string) returns (k: nat, h: string)
    requires |a| > 0 && |t| > 0 && !IsSpace(t[0]) && t[0] != '-'
    ensures 0 < k <= |a|
    ensures NormalizeBullets(a + t) == h + NormalizeBullets(a[k..] + t)
    ensures NormalizeBullets(a) == h + NormalizeBullets(a[k..])
  {
    if |a| >= 2 && a[0] == '\n' && a[1] == '-' {
      var n := LeadingSpaces(a[2..]);
      k, h := 2 + n, "\n- ";
      NormalizeBulletsStepMarker(a, t, n);
    } else {
      k, h := 1, [a[0]];
      assert (a + t)[1] == if |a| >= 2 then a[1] else t[0];
      NormalizeBulletsStepKeep(a, t);
    }
  }

  /** A line-start hyphen at the head of `a` is rewritten alike in
      `a + t`. */
  lemma NormalizeBulletsStepMarker(a: string, t: string, n: nat)
    requires |a| >= 2 && a[0] == '\n' && a[1] == '-' && n == LeadingSpaces(a[2..])
    requires |t| > 0 && !IsSpace(t[0])
    ensures NormalizeBullets(a + t) == "\n- " + NormalizeBullets(a[2 + n..] + t)
    ensures NormalizeBullets(a) == "\n- " + NormalizeBullets(a[2 + n..])
  {
    var s := a + t;
    assert s[2..] == a[2..] + t;
    assert LeadingSpaces(s[2..]) == n by {
      assert n < |a[2..]| ==> s[2..][n] == a[2..][n];
      assert n == |a[2..]| ==> s[2..][n] == t[0];
    }
    assert s[2 + n..] == a[2 + n..] + t;
  }

  /** A head that is not a line-start hyphen is copied. */
  lemma NormalizeBulletsStepKeep(a: string, t: string)
    requires |a| > 0 && |t| > 0 && t[0] != '-'
    requires !(|a + t| >= 2 && a[0] == '\n' && (a + t)[1] == '-')
    ensures NormalizeBullets(a + t) == [a[0]] + NormalizeBullets(a[1..] + t)
    ensures NormalizeBullets(a) == [a[0]] + NormalizeBullets(a[1..])
  {
    assert (a + t)[1..] == a[1..] + t;
    assert |a| >= 2 ==> (a + t)[1] == a[1];
  }

  /** Text that a character other than whitespace and `-` follows keeps
      its whitespace: the pass works on the two sides separately. */
  lemma {:induction false} NormalizeBulletsAppend(a: string, t: string)
    requires |t| > 0 && !IsSpace(t[0]) && t[0] != '-'
    ensures NormalizeBullets(a + t) == NormalizeBullets(a) + NormalizeBullets(t)
    decreases |a|
  {
    if |a| == 0 {
      assert a + t == t;
    } else {
      var k, h := NormalizeBulletsStep(a, t);
      NormalizeBulletsAppend(a[k..], t);
      CommonHead(NormalizeBullets(a + t), NormalizeBullets(a), h,
        NormalizeBullets(a[k..] + t), NormalizeBullets(a[k..]), NormalizeBullets(t));
    }
  }

  /** A character other than whitespace and `-` is kept, and the text on
      each side of it is rewritten on its own. */
  lemma NormalizeBulletsLocal(a: string, c: char, b: string)
    requires !IsSpace(c) && c != '-'
    ensures NormalizeBullets(a + [c] + b) == NormalizeBullets(a) + [c] + NormalizeBullets(b)
  {
    assert a + [c] + b == a + ([c] + b);
    NormalizeBulletsAppend(a, [c] + b);
    assert ([c] + b)[1..] == b;
  }

  /** A line-start hyphen and all the whitespace after it become `"- "`. */
  lemma NormalizeBulletsMarker(w: string, t: string)
    requires forall i :: 0 <= i < |w| ==> IsSpace(w[i])
    requires |t| > 0 ==> !IsSpace(t[0])
    ensures NormalizeBullets("\n-" + w + t) == "\n- " + NormalizeBullets(t)
  {
    var s := "\n-" + w + t;
    assert s[0] == '\n' && s[1] == '-';
    assert s[2..] == w + t;
    assert LeadingSpaces(w + t) == |w| by {
      assert |w| < |w + t| ==> (w + t)[|w|] == t[0];
    }
    assert s[2 + |w|..] == t;
    assert NormalizeBullets(s) == "\n- " + NormalizeBullets(s[2 + |w|..]);
  }

  /** Every suffix of text with normal line-start hyphens has them too. */
  lemma BulletsNormalSuffix(s: string, m: nat)
    requires BulletsNormal(s) && m <= |s|
    ensures BulletsNormal(s[m..])
  {
    var r := s[m..];
    forall k | 0 <= k < |r| - 1 && r[k] == '\n' && r[k + 1] == '-'
      ensures k + 2 < |r| && r[k + 2] == ' ' && (k + 3 < |r| ==> !IsSpace(r[k + 3]))
    {
      assert s[m + k] == '\n' && s[m + k + 1] == '-';
    }
  }

  /** The non-whitespace text of a line-start hyphen and the whitespace
      after it is the hyphen alone. */
  lemma MarkerText(s: string, n: nat)
    requires |s| >= 2 && s[0] == '\n' && s[1] == '-'
    requires n == LeadingSpaces(s[2..])
    ensures NonSpace(s) == "-" + NonSpace(s[2 + n..])
    ensures NonSpace("\n- ") == "-"
  {
    PrefixSuffix(s, 2);
    FilterAppend(s[..2], s[2..], IsWordChar);
    assert s[..2] == "\n-";
    MarkerNonSpace();
    NonSpaceSkipsSpaces(s[2..], n);
    assert s[2..][n..] == s[2 + n..];
  }

  /** The non-whitespace text of a marker, before and after the rewrite. */
  lemma MarkerNonSpace()
    ensures NonSpace("\n-") == "-"
    ensures NonSpace("\n- ") == "-"
  {
  }

  /** `s.encode("ascii", "ignore").decode("ascii")`: every non-ASCII
      character is dropped, every ASCII character kept in order. */
  function DropNonAscii(s: string): (r: string)
    ensures AllAscii(r)
    ensures forall c :: c in r <==> c in s && IsAscii(c)
    ensures IsSubsequence(r, s)
    ensures forall c :: Count(c, r) == if IsAscii(c) then Count(c, s) else 0
    ensures AllAscii(s) ==> r == s
  {
    var r := Filter(s, IsAscii);
    assert forall i :: 0 <= i < |r| ==> r[i] in r;
    FilterKeepsMembers(s, IsAscii);
    FilterIsSubsequence(s, IsAscii);
    if AllAscii(s) then FilterAll(s, IsAscii); r else r
  }

  /** No glyph label contains, begins or ends with a piece of a glyph
      pattern: the labels start with `L` or a space and end with a space,
      none of which occur in the patterns. */
  lemma GlyphLabelsSafe()
    ensures SafeTable(GlyphLabels)
  {
    forall j, k | 0 <= j < |GlyphLabels| && 0 <= k < |GlyphLabels|
      ensures SafeReplacement(GlyphLabels[k].1, GlyphLabels[j].0)
    {
      var rep, q := GlyphLabels[k].1, GlyphLabels[j].0;
      assert j in {0, 1, 2} && k in {0, 1, 2};
      if |rep| >= |q| {
        AbsentHeadNoMatch(rep, q);
      }
    }
  }

  lemma GlyphLabelsWellFormed()
    ensures forall k :: 0 <= k < |GlyphLabels| ==> |GlyphLabels[k].0| > 0
    ensures forall k :: 0 <= k < |GlyphLabels| ==> AllAscii(GlyphLabels[k].1)
  {
  }

  lemma StripKeepsAscii(s: string)
    requires AllAscii(s)
    ensures AllAscii(Strip(s))
  {
    var r := Strip(s);
    assert forall i :: 0 <= i < |r| ==> r[i] == s[LeadingSpaces(s) + i];
  }

  /** With a safe table, the repairs followed by `strip` leave no
      pattern: the repairs rewrite every occurrence, and `strip` only cuts
      the ends. */
  lemma ApplyLabelsThenStrip(s: string, table: seq<(string, string)>)
    requires SafeTable(table)
    ensures forall j :: 0 <= j < |table| ==> NoOccurrence(Strip(ApplyLabels(s, table)), table[j].0)
  {
    var t := ApplyLabels(s, table);
    ApplyLabelsRemoves(s, table);
    forall j | 0 <= j < |table|
      ensures NoOccurrence(Strip(t), table[j].0)
    {
      StripKeepsNoOccurrence(t, table[j].0);
    }
  }

  /** The glyph repairs followed by `strip` leave none of the broken icon
      names. */
  lemma RepairsSurviveStrip(s: string)
    requires forall k :: 0 <= k < |GlyphLabels| ==> |GlyphLabels[k].0| > 0
    ensures forall j :: 0 <= j < |GlyphLabels| ==>
      NoOccurrence(Strip(ApplyLabels(s, GlyphLabels)), GlyphLabels[j].0)
  {
    GlyphLabelsSafe();
    ApplyLabelsThenStrip(s, GlyphLabels);
  }

  /** `normalize_text`. */
  function NormalizeText(raw: string): (r: string)
    ensures AllAscii(r)
    ensures Trimmed(r)
    ensures forall j :: 0 <= j < |GlyphLabels| ==> NoOccurrence(r, GlyphLabels[j].0)
  {
    var s1 := Replace(raw, "\r\n", "\n");
    var s2 := ReplaceEach(s1, BulletChars, "-");
    var s3 := ReplaceEach(s2, UnicodeDashes, "-");
    var s4 := DropTrailingBlanks(s3);
    var s5 := CollapseNewlines(s4);
    var s6 := NormalizeBullets(s5);
    var s7 := DropNonAscii(s6);
    GlyphLabelsWellFormed();
    var s8 := ApplyLabels(s7, GlyphLabels);
    var r := Strip(s8);
    StripKeepsAscii(s8);
    RepairsSurviveStrip(s7);
    r
  }

}

/** The newline passes run before the ASCII filter, so a dropped
    non-ASCII character can rejoin two runs of newlines: the result is not
    free of double blank lines in general. */
module NormalizeExamples {
  import opened Text
  import opened Normalize

  lemma DroppedGlyphRejoinsBlankLines(raw: string)
    requires raw == "x\n\n\U{E9}\ny"
    ensures NormalizeText(raw) == "x\n\n\ny"
    ensures !NoTripleNewline(NormalizeText(raw))
  {
    CharPassesKeep(raw);
    NewlinePassesKeep(raw);
    AsciiFilterJoins(raw);
    GlyphLabelsKeep(DropNonAscii(raw));
  }

  lemma AsciiFilterJoins(s: string)
    requires s == "x\n\n\U{E9}\ny"
    ensures DropNonAscii(s) == "x\n\n\ny"
  {
    var a, b, c := "x\n\n", "\U{E9}", "\ny";
    assert s == a + (b + c);
    FilterDropsMiddle(a, b, c, IsAscii);
    assert a + c == "x\n\n\ny";
  }

  lemma CharPassesKeep(s: string)
    requires s == "x\n\n\U{E9}\ny"
    ensures Replace(s, "\r\n", "\n") == s
    ensures ReplaceEach(ReplaceEach(s, BulletChars, "-"), UnicodeDashes, "-") == s
  {
    assert '\r' !in s;
    AbsentHeadNoMatch(s, "\r\n");
    assert forall c :: c in BulletChars ==> c !in s;
    assert forall c :: c in UnicodeDashes ==> c !in s;
  }

  lemma NewlinePassesKeep(s: string)
    requires s == "x\n\n\U{E9}\ny"
    ensures NormalizeBullets(CollapseNewlines(DropTrailingBlanks(s))) == s
  {
    SampleIsNormal(s);
    assert DropTrailingBlanks(s) == s by {
      DropTrailingBlanksFixesNormal(s);
    }
    assert CollapseNewlines(s) == s by {
      CollapseNewlinesFixesNormal(s);
    }
    NormalizeBulletsFixesNormal(s);
  }

  lemma SampleIsNormal(s: string)
    requires s == "x\n\n\U{E9}\ny"
    ensures NoBlankBeforeNewline(s) && NoTripleNewline(s) && BulletsNormal(s)
  {
    assert s[0] == 'x' && s[1] == '\n' && s[2] == '\n' && s[3] == '\U{E9}' && s[4] == '\n' && s[5] == 'y';
    forall k | 0 < k < |s|
      ensures s[k] != '-'
      ensures s[k] == '\n' ==> !IsBlank(s[k - 1])
      ensures k + 1 < |s| ==> !(s[k - 1] == '\n' && s[k] == '\n' && s[k + 1] == '\n')
    {
      assert k in {1, 2, 3, 4, 5};
    }
  }

  /** Blanks inside a line survive; only the ones before the newline go. */
  lemma InnerBlankKept()
    ensures DropTrailingBlanks("a b \n") == "a b\n"
  {
    DropTrailingBlanksLocal("", 'a', " b \n");
    DropTrailingBlanksRun(" ", "b \n");
    DropTrailingBlanksLocal("", 'b', " \n");
    DropTrailingBlanksRun(" ", "\n");
  }

  /** Three newlines become two; the text around them stays. */
  lemma TripleNewlineBecomesTwo()
    ensures CollapseNewlines("a\n\n\nb") == "a\n\nb"
  {
    CollapseNewlinesLocal("", 'a', "\n\n\nb");
    assert Newlines(3) + "b" == "\n\n\nb";
    CollapseNewlinesRun(3, "b");
  }

  /** A line-start hyphen gets its space; the space between words stays:
      `"x y\n-z"` becomes `"x y\n- z"`. */
  lemma BulletSpacedWordsKept(x: char, y: char, z: char)
    requires !IsSpace(x) && x != '-' && !IsSpace(y) && y != '-' && !IsSpace(z)
    ensures NormalizeBullets([x, ' ', y, '\n', '-', z]) == [x, ' ', y, '\n', '-', ' ', z]
  {
    var tail := [y, '\n', '-', z];
    var u := [' '] + tail;
    assert [' '][1..] + tail == tail;
    assert [] + [x] + u == [x, ' ', y, '\n', '-', z];
    assert [] + [x] + ([' '] + [y, '\n', '-', ' ', z]) == [x, ' ', y, '\n', '-', ' ', z];
    BulletAfterWord(y, z);
    NormalizeBulletsStepKeep([' '], tail);
    NormalizeBulletsLocal([], x, u);
  }

  /** The second line of the example above: `"y\n-z"` becomes `"y\n- z"`. */
  lemma BulletAfterWord(y: char, z: char)
    requires !IsSpace(y) && y != '-' && !IsSpace(z)
    ensures NormalizeBullets([y, '\n', '-', z]) == [y, '\n', '-', ' ', z]
  {
    var zs, marker := [z], ['\n', '-', z];
    assert "\n-" + [] + zs == marker;
    assert [] + [y] + marker == [y, '\n', '-', z];
    assert [] + [y] + ("\n- " + zs) == [y, '\n', '-', ' ', z];
    NormalizeBulletsMarker([], zs);
    assert NormalizeBullets(zs) == zs;
    NormalizeBulletsLocal([], y, marker);
  }

  lemma GlyphLabelsKeep(t: string)
    requires t == "x\n\n\ny"
    ensures Strip(ApplyLabels(t, GlyphLabels)) == t
    ensures t[1] == t[2] == t[3] == '\n'
  {
    assert ApplyLabels(t, GlyphLabels) == t;
  }
}
