/** `tokenize`: lower-case the chunk text, scan it for the leftmost-greedy
    matches of `[A-Za-z0-9]+('[A-Za-z0-9]+)?`, and drop the all-digit
    matches and the stopwords. */
module Tokenizer {
  import opened Text

  /** The script's `STOPWORDS`: common English function words and their
      contractions. */
  const Stopwords: set<string> := {
    "a", "about", "above", "after", "again", "against", "all", "am", "an", "and",
    "any", "are", "aren't", "as", "at", "be", "because", "been", "before", "being",
    "below", "between", "both", "but", "by", "can", "can't", "could", "couldn't",
    "did", "didn't", "do", "does", "doesn't", "doing", "don't", "down", "during",
    "each", "few", "for", "from", "further", "had", "hadn't", "has", "hasn't",
    "have", "haven't", "having", "he", "he'd", "he'll", "he's", "her", "here",
    "here's", "hers", "herself", "him", "himself", "his", "how", "how's", "i", "i'd",
    "i'll", "i'm", "i've", "if", "in", "into", "is", "isn't", "it", "it's", "its",
    "itself", "let's", "me", "more", "most", "mustn't", "my", "myself", "no", "nor",
    "not", "of", "off", "on", "once", "only", "or", "other", "ought", "our", "ours",
    "ourselves", "out", "over", "own", "same", "shan't", "she", "she'd", "she'll",
    "she's", "should", "shouldn't", "so", "some", "such", "than", "that", "that's",
    "the", "their", "theirs", "them", "themselves", "then", "there", "there's",
    "these", "they", "they'd", "they'll", "they're", "they've", "this", "those",
    "through", "to", "too", "under", "until", "up", "very", "was", "wasn't", "we",
    "we'd", "we'll", "we're", "we've", "were", "weren't", "what", "what's", "when",
    "when's", "where", "where's", "which", "while", "who", "who's", "whom", "why",
    "why's", "with", "won't", "would", "wouldn't", "you", "you'd", "you'll",
    "you're", "you've", "your", "yours", "yourself", "yourselves"
  }

  /** The character class `[A-Za-z0-9]` of the token pattern. */
  predicate IsAlnum(c: char) {
    ('a' <= c <= 'z') || ('A' <= c <= 'Z') || ('0' <= c <= '9')
  }

  predicate IsUpper(c: char) {
    'A' <= c <= 'Z'
  }

  predicate IsDigit(c: char) {
    '0' <= c <= '9'
  }

  /** `str.lower()` on one character, for the ASCII letters. */
  function LowerChar(c: char): (d: char)
    ensures !IsUpper(d)
    ensures IsAlnum(d) <==> IsAlnum(c)
    ensures IsUpper(c) ==> d != c && d as int - c as int == 'a' as int - 'A' as int
    ensures !IsUpper(c) ==> d == c
  {
    if IsUpper(c) then (c as int - 'A' as int + 'a' as int) as char else c
  }

  /** `text.lower()`, restricted to the ASCII letters. */
  function Lower(s: string): (r: string)
    ensures |r| == |s|
    ensures forall i :: 0 <= i < |s| ==> r[i] == LowerChar(s[i])
  {
    seq(|s|, i requires 0 <= i < |s| => LowerChar(s[i]))
  }

  /** Length of the leading run of `[A-Za-z0-9]`. */
  function AlnumRun(s: string): (n: nat)
    ensures n <= |s|
    ensures forall i :: 0 <= i < n ==> IsAlnum(s[i])
    ensures n < |s| ==> !IsAlnum(s[n])
    decreases |s|
  {
    if |s| > 0 && IsAlnum(s[0]) then 1 + AlnumRun(s[1..]) else 0
  }

  /** A string the token pattern matches in full: alphanumerics with at
      most one apostrophe, which has alphanumerics on both sides. */
  predicate IsTokenShape(t: string) {
    && |t| > 0
    && IsAlnum(t[0]) && IsAlnum(t[|t| - 1])
    && (forall i :: 0 <= i < |t| ==> IsAlnum(t[i]) || t[i] == '\'')
    && (forall i, j :: 0 <= i < j < |t| && t[i] == '\'' ==> t[j] != '\'')
  }

  /** Length of the match of the token pattern at the start of `s`, which
      begins with an alphanumeric: the whole alphanumeric run, extended by
      an apostrophe and the following run when one follows. */
  function MatchLength(s: string): (m: nat)
    requires |s| > 0 && IsAlnum(s[0])
    ensures 0 < m <= |s|
    ensures IsTokenShape(s[..m])
    ensures m < |s| ==> !IsAlnum(s[m])
    ensures forall m' :: m < m' <= |s| ==> !IsTokenShape(s[..m'])
  {
    var n := AlnumRun(s);
    if n + 1 < |s| && s[n] == '\'' && IsAlnum(s[n + 1]) then
      var m := n + 1 + AlnumRun(s[n + 1..]);
      assert forall i :: n < i < m ==> IsAlnum(s[i]) by {
        forall i | n < i < m
          ensures IsAlnum(s[i])
        {
          assert s[i] == s[n + 1..][i - n - 1];
        }
      }
      assert m < |s| ==> s[m] == s[n + 1..][m - n - 1];
      forall m' | m < m' <= |s|
        ensures !IsTokenShape(s[..m'])
      {
        var t := s[..m'];
        if s[m] == '\'' {
          TwoApostrophes(t, n, m);
        } else {
          StrayChar(t, m);
        }
      }
      m
    else
      forall m' | n < m' <= |s|
        ensures !IsTokenShape(s[..m'])
      {
        var t := s[..m'];
        if s[n] != '\'' {
          StrayChar(t, n);
        } else if m' == n + 1 {
          assert t[|t| - 1] == '\'';
        } else if s[n + 1] == '\'' {
          TwoApostrophes(t, n, n + 1);
        } else {
          StrayChar(t, n + 1);
        }
      }
      n
  }

  /** A character outside `[A-Za-z0-9']` rules out token shape. */
  lemma StrayChar(t: string, j: nat)
    requires j < |t| && !IsAlnum(t[j]) && t[j] != '\''
    ensures !IsTokenShape(t)
  {
  }

  /** A second apostrophe rules out token shape. */
  lemma TwoApostrophes(t: string, i: nat, j: nat)
    requires i < j < |t| && t[i] == '\'' && t[j] == '\''
    ensures !IsTokenShape(t)
  {
  }

  /** The strings of `ms` are slices of `s`, one after another and not
      overlapping: each starts at or after the end of the previous one. */
  predicate InOrderSlices(ms: seq<string>, s: string)
    decreases |s|, |ms|
  {
    || |ms| == 0
    || (MatchesAt(s, 0, ms[0]) && InOrderSlices(ms[1..], s[|ms[0]|..]))
    || (|s| > 0 && InOrderSlices(ms, s[1..]))
  }

  /** `ms` is what a leftmost-greedy scan of `s` finds: characters outside
      `[A-Za-z0-9]` are passed over, a match starts at every alphanumeric
      the scan reaches and is the longest token-shaped prefix there, and
      the scan resumes right after it. */
  predicate LeftmostGreedy(ms: seq<string>, s: string)
    decreases |s|
  {
    if |s| == 0 then |ms| == 0
    else if !IsAlnum(s[0]) then LeftmostGreedy(ms, s[1..])
    else
      && |ms| > 0
      && IsTokenShape(ms[0])
      && MatchesAt(s, 0, ms[0])
      && (forall m' :: |ms[0]| < m' <= |s| ==> !IsTokenShape(s[..m']))
      && LeftmostGreedy(ms[1..], s[|ms[0]|..])
  }

  /** `TOKEN_PATTERN.finditer(s)`: the leftmost-greedy, non-overlapping
      matches, in order. */
  function Matches(s: string): (ms: seq<string>)
    ensures forall k :: 0 <= k < |ms| ==> IsTokenShape(ms[k])
    ensures InOrderSlices(ms, s)
    ensures LeftmostGreedy(ms, s)
    ensures (forall i :: 0 <= i < |s| ==> !IsUpper(s[i])) ==>
      forall k, i :: 0 <= k < |ms| && 0 <= i < |ms[k]| ==> !IsUpper(ms[k][i])
    decreases |s|
  {
    if |s| == 0 then []
    else if !IsAlnum(s[0]) then Matches(s[1..])
    else
      var m := MatchLength(s);
      var ms := [s[..m]] + Matches(s[m..]);
      assert MatchesAt(s, 0, ms[0]) && ms[1..] == Matches(s[m..]);
      ms
  }

  /** A leftmost-greedy scan has one outcome: two match lists that both
      fit the scan of `s` are equal, so `Matches` is the only one. */
  lemma {:induction false} LeftmostGreedyUnique(ms: seq<string>, ms': seq<string>, s: string)
    requires LeftmostGreedy(ms, s) && LeftmostGreedy(ms', s)
    ensures ms == ms'
    decreases |s|
  {
    if |s| > 0 {
      if !IsAlnum(s[0]) {
        LeftmostGreedyUnique(ms, ms', s[1..]);
      } else {
        var m, m' := |ms[0]|, |ms'[0]|;
        assert ms[0] == s[..m] && ms'[0] == s[..m'];
        assert IsTokenShape(s[..m]) && IsTokenShape(s[..m']);
        assert m == m';
        LeftmostGreedyUnique(ms[1..], ms'[1..], s[m..]);
        assert ms == [ms[0]] + ms[1..] && ms' == [ms'[0]] + ms'[1..];
      }
    }
  }

  /** The scan keeps a contraction whole: `"don't"` is one match, not
      `"don"` and `"t"`. */
  lemma MatchesKeepsContraction()
    ensures Matches("don't") == ["don't"]
  {
    var s := "don't";
    assert IsTokenShape(s);
    assert LeftmostGreedy(["don't"], s) by {
      assert s[..5] == s && s[5..] == [];
    }
    LeftmostGreedyUnique(Matches(s), ["don't"], s);
  }

  /** Every alphanumeric character of the text belongs to exactly one
      match, and the matches keep the text's order. */
  lemma {:induction false} MatchesCoverAlnum(s: string)
    ensures Filter(Concat(Matches(s)), IsAlnum) == Filter(s, IsAlnum)
    decreases |s|
  {
    if |s| > 0 {
      if !IsAlnum(s[0]) {
        MatchesCoverAlnum(s[1..]);
        HeadTail(s);
        FilterAppend([s[0]], s[1..], IsAlnum);
      } else {
        var m := MatchLength(s);
        MatchesCoverAlnum(s[m..]);
        assert Matches(s) == [s[..m]] + Matches(s[m..]);
        CoverStep(s, m, Matches(s), Matches(s[m..]));
      }
    }
  }

  /** The step of `MatchesCoverAlnum` past one match, over the match lists
      alone. */
  lemma CoverStep(s: string, m: nat, ms: seq<string>, rest: seq<string>)
    requires m <= |s| && ms == [s[..m]] + rest
    requires Filter(Concat(rest), IsAlnum) == Filter(s[m..], IsAlnum)
    ensures Filter(Concat(ms), IsAlnum) == Filter(s, IsAlnum)
  {
    assert s == s[..m] + s[m..];
    FilterAppend(s[..m], s[m..], IsAlnum);
    ConcatAppend([s[..m]], rest);
    FilterAppend(s[..m], Concat(rest), IsAlnum);
  }

  /** `token.isdigit()` for a match of the token pattern. */
  predicate IsAllDigits(t: string) {
    |t| > 0 && forall i :: 0 <= i < |t| ==> IsDigit(t[i])
  }

  /** The matches `tokenize` keeps. */
  predicate KeepToken(t: string) {
    !IsAllDigits(t) && t !in Stopwords
  }

  /** `tokenize`. */
  function Tokenize(text: string): (tokens: seq<string>)
    ensures forall k :: 0 <= k < |tokens| ==>
      IsTokenShape(tokens[k]) && !IsAllDigits(tokens[k]) && tokens[k] !in Stopwords
    ensures forall k, i :: 0 <= k < |tokens| && 0 <= i < |tokens[k]| ==> !IsUpper(tokens[k][i])
    ensures IsSubsequence(tokens, Matches(Lower(text)))
    ensures forall t :: Count(t, tokens) == if KeepToken(t) then Count(t, Matches(Lower(text))) else 0
  {
    var ms := Matches(Lower(text));
    var tokens := Filter(ms, KeepToken);
    FilterIsSubsequence(ms, KeepToken);
    assert forall k :: 0 <= k < |tokens| ==> tokens[k] in tokens;
    tokens
  }
}
