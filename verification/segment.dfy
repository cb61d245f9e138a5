/** `split_chunks`: a line-driven state machine that groups the lines of
    the normalized text into retrieval chunks. A blank line ends the
    current chunk; a line starting with `-` starts a new one; every chunk
    is joined with single spaces, whitespace runs are collapsed, and only
    chunks of at least five words are kept. */
module Segment {
  import opened Text

  /** The minimum number of whitespace-separated words of a kept chunk. */
  const MinWords: nat := 5

  /** Index of the first line break of `s`, or `|s|` when there is none. */
  function LineEnd(s: string): (n: nat)
    ensures n <= |s|
    ensures forall i :: 0 <= i < n ==> !IsLineBreak(s[i])
    ensures n < |s| ==> IsLineBreak(s[n])
    decreases |s|
  {
    if |s| > 0 && !IsLineBreak(s[0]) then 1 + LineEnd(s[1..]) else 0
  }

  predicate NoLineBreak(s: string) {
    forall i :: 0 <= i < |s| ==> !IsLineBreak(s[i])
  }

  /** Python's `s.splitlines()`: the lines of `s` without their line
      breaks; CR LF counts as one break, and a final break does not start
      an empty last line. */
  function SplitLines(s: string): (lines: seq<string>)
    ensures forall k :: 0 <= k < |lines| ==> NoLineBreak(lines[k])
    ensures |lines| == 0 <==> |s| == 0
    decreases |s|
  {
    if |s| == 0 then []
    else
      var n := LineEnd(s);
      if n == |s| then [s]
      else if s[n] == '\r' && n + 1 < |s| && s[n + 1] == '\n' then [s[..n]] + SplitLines(s[n + 2..])
      else [s[..n]] + SplitLines(s[n + 1..])
  }

  /** A text whose only line break is `\n` and that does not end with one
      is recovered by joining its lines with `\n`. */
  lemma {:induction false} SplitLinesJoin(s: string)
    requires forall i :: 0 <= i < |s| && IsLineBreak(s[i]) ==> s[i] == '\n'
    requires |s| == 0 || s[|s| - 1] != '\n'
    ensures Join(SplitLines(s), "\n") == s
    decreases |s|
  {
    if |s| > 0 {
      var n := LineEnd(s);
      if n < |s| {
        var l, rest := s[..n], s[n + 1..];
        assert s == l + "\n" + rest;
        assert |rest| > 0;
        SplitLinesJoin(rest);
        SplitLinesBreak(l, '\n', rest);
        JoinCons(l, SplitLines(rest), "\n");
      } else {
        SplitLinesLast(s);
      }
    }
  }

  /** The first line break of `l + u` is the first character of `u` when
      `l` holds none and `u` starts with one. */
  lemma LineEndAfter(l: string, u: string)
    requires NoLineBreak(l)
    requires |u| > 0 && IsLineBreak(u[0])
    ensures LineEnd(l + u) == |l|
  {
    var s := l + u;
    var n := LineEnd(s);
    assert s[|l|] == u[0];
    assert forall i :: 0 <= i < |l| ==> s[i] == l[i];
  }

  /** CR LF ends one line: the line before it is emitted and splitting
      resumes after the LF. */
  lemma SplitLinesCrLf(l: string, t: string)
    requires NoLineBreak(l)
    ensures SplitLines(l + "\r\n" + t) == [l] + SplitLines(t)
  {
    var s := l + "\r\n" + t;
    assert s == l + ("\r\n" + t);
    assert s[..|l|] == l && s[|l| + 2..] == t;
    assert s[|l|] == '\r' && s[|l| + 1] == '\n';
    LineEndAfter(l, "\r\n" + t);
  }

  /** Any other line break ends one line, on its own: the line before it
      is emitted and splitting resumes right after the break. A CR that is
      followed by LF is the one exception. */
  lemma SplitLinesBreak(l: string, b: char, t: string)
    requires NoLineBreak(l) && IsLineBreak(b)
    requires !(b == '\r' && |t| > 0 && t[0] == '\n')
    ensures SplitLines(l + [b] + t) == [l] + SplitLines(t)
  {
    var s := l + [b] + t;
    assert s == l + ([b] + t);
    assert s[..|l|] == l && s[|l| + 1..] == t;
    assert s[|l|] == b;
    assert |l| + 1 < |s| ==> s[|l| + 1] == t[0];
    LineEndAfter(l, [b] + t);
  }

  /** Text after the last break is a line of its own, so a final break
      does not add an empty line and an unterminated tail is kept. */
  lemma SplitLinesLast(l: string)
    requires NoLineBreak(l) && |l| > 0
    ensures SplitLines(l) == [l]
  {
    assert LineEnd(l) == |l|;
  }

  /** `"x\r\ny".splitlines() == ["x", "y"]` and `"x\ry\n".splitlines()
      == ["x", "y"]`. */
  lemma SplitLinesExamples(x: char, y: char)
    requires !IsLineBreak(x) && !IsLineBreak(y)
    ensures SplitLines([x, '\r', '\n', y]) == [[x], [y]]
    ensures SplitLines([x, '\r', y, '\n']) == [[x], [y]]
  {
    assert [x, '\r', '\n', y] == [x] + "\r\n" + [y];
    SplitLinesCrLf([x], [y]);
    SplitLinesLast([y]);
    assert [x, '\r', y, '\n'] == [x] + ['\r'] + [y, '\n'];
    SplitLinesBreak([x], '\r', [y, '\n']);
    assert [y, '\n'] == [y] + ['\n'] + [];
    SplitLinesBreak([y], '\n', []);
    assert SplitLines([]) == [];
  }

  /** A stripped line is blank when nothing is left of it. */
  predicate IsBlankLine(line: string) {
    |Strip(line)| == 0
  }

  /** `stripped.startswith("-")`. */
  predicate StartsWithDash(line: string) {
    |Strip(line)| > 0 && Strip(line)[0] == '-'
  }

  /** The loop state of `split_chunks`: the accumulator `current` of
      stripped lines and the chunks emitted so far. */
  datatype Segmenter = Segmenter(current: seq<string>, chunks: seq<string>)

  const Start: Segmenter := Segmenter([], [])

  /** The text `flush` builds from an accumulator. */
  function Render(current: seq<string>): string {
    CollapseSpaces(Strip(Join(current, " ")))
  }

  /** What every emitted chunk is: at least five words, no leading or
      trailing whitespace, no two adjacent whitespace characters. */
  predicate IsChunk(c: string) {
    |Words(c)| >= MinWords && Trimmed(c) && SingleSpaced(c)
  }

  /** The rendered text is trimmed and single-spaced. */
  lemma RenderShape(current: seq<string>)
    ensures Trimmed(Render(current)) && SingleSpaced(Render(current))
  {
  }

  /** `flush`: emits the rendered accumulator when it has at least five
      words, and empties the accumulator in every case. */
  function Flush(st: Segmenter): (r: Segmenter)
    ensures r.current == []
    ensures |st.chunks| <= |r.chunks| <= |st.chunks| + 1
    ensures r.chunks[..|st.chunks|] == st.chunks
    ensures |r.chunks| == |st.chunks| + 1 <==>
      |st.current| > 0 && |Words(Render(st.current))| >= MinWords
    ensures |r.chunks| == |st.chunks| + 1 ==>
      r.chunks[|st.chunks|] == Render(st.current) && IsChunk(r.chunks[|st.chunks|])
  {
    if |st.current| == 0 then st
    else
      var chunk := Render(st.current);
      RenderShape(st.current);
      if |Words(chunk)| >= MinWords then Segmenter([], st.chunks + [chunk])
      else Segmenter([], st.chunks)
  }

  /** One iteration of the loop over the lines. */
  function Step(st: Segmenter, line: string): Segmenter {
    var stripped := Strip(line);
    if |stripped| == 0 then Flush(st)
    else if stripped[0] == '-' && |st.current| > 0 then Flush(st).(current := [stripped])
    else st.(current := st.current + [stripped])
  }

  /** The accumulator holds stripped, non-blank lines of which only the
      first may start with `-`, and every emitted chunk is a chunk. */
  predicate Valid(st: Segmenter) {
    && (forall k :: 0 <= k < |st.current| ==> |st.current[k]| > 0 && Trimmed(st.current[k]))
    && (forall k :: 0 < k < |st.current| ==> st.current[k][0] != '-')
    && (forall k :: 0 <= k < |st.chunks| ==> IsChunk(st.chunks[k]))
  }

  /** One iteration only appends chunks. */
  lemma StepExtends(st: Segmenter, line: string)
    ensures |st.chunks| <= |Step(st, line).chunks|
    ensures Step(st, line).chunks[..|st.chunks|] == st.chunks
  {
  }

  /** One iteration keeps the state valid. */
  lemma StepValid(st: Segmenter, line: string)
    requires Valid(st)
    ensures Valid(Step(st, line))
  {
    var stripped := Strip(line);
    var f := Flush(st);
    assert forall k :: 0 <= k < |st.chunks| ==> f.chunks[k] == st.chunks[k];
    if |stripped| > 0 && !(stripped[0] == '-' && |st.current| > 0) {
      var r := Step(st, line);
      assert r.current == st.current + [stripped];
      assert forall k :: 0 < k < |r.current| ==> r.current[k][0] != '-' by {
        forall k | 0 < k < |r.current|
          ensures r.current[k][0] != '-'
        {
          if k < |st.current| {
            assert r.current[k] == st.current[k];
          } else {
            assert r.current[k] == stripped;
          }
        }
      }
    }
  }

  /** The loop over the lines. */
  function Run(st: Segmenter, lines: seq<string>): (r: Segmenter)
    ensures |st.chunks| <= |r.chunks| && r.chunks[..|st.chunks|] == st.chunks
    decreases |lines|
  {
    if |lines| == 0 then st
    else
      StepExtends(st, lines[0]);
      var r := Run(Step(st, lines[0]), lines[1..]);
      assert r.chunks[..|st.chunks|] == r.chunks[..|Step(st, lines[0]).chunks|][..|st.chunks|];
      r
  }

  /** The loop keeps the state valid. */
  lemma {:induction false} RunValid(st: Segmenter, lines: seq<string>)
    requires Valid(st)
    ensures Valid(Run(st, lines))
    decreases |lines|
  {
    if |lines| > 0 {
      StepValid(st, lines[0]);
      RunValid(Step(st, lines[0]), lines[1..]);
    }
  }

  /** `split_chunks` applied to the lines of a text. */
  function ChunkLines(lines: seq<string>): (chunks: seq<string>)
    ensures forall k :: 0 <= k < |chunks| ==> IsChunk(chunks[k])
  {
    RunValid(Start, lines);
    Flush(Run(Start, lines)).chunks
  }

  /** `split_chunks`. */
  function SplitChunks(text: string): (chunks: seq<string>)
    ensures forall k :: 0 <= k < |chunks| ==> IsChunk(chunks[k])
  {
    ChunkLines(SplitLines(text))
  }

  /** The stripped lines of `lines`. */
  function StripAll(lines: seq<string>): (r: seq<string>)
    ensures |r| == |lines|
    ensures forall k :: 0 <= k < |lines| ==> r[k] == Strip(lines[k])
  {
    seq(|lines|, k requires 0 <= k < |lines| => Strip(lines[k]))
  }

  lemma RunCons(st: Segmenter, line: string, rest: seq<string>)
    ensures Run(st, [line] + rest) == Run(Step(st, line), rest)
  {
    assert ([line] + rest)[0] == line;
    assert ([line] + rest)[1..] == rest;
  }

  /** Running the loop over `a + b` is running it over `a`, then `b`. */
  lemma {:induction false} RunAppend(st: Segmenter, a: seq<string>, b: seq<string>)
    ensures Run(st, a + b) == Run(Run(st, a), b)
    decreases |a|
  {
    if |a| == 0 {
      assert a + b == b;
    } else {
      assert (a + b)[0] == a[0];
      assert (a + b)[1..] == a[1..] + b;
      RunAppend(Step(st, a[0]), a[1..], b);
    }
  }

  /** The chunks already emitted do not influence what comes next. */
  lemma StepShift(cur: seq<string>, out: seq<string>, line: string)
    ensures Step(Segmenter(cur, out), line) ==
      var s := Step(Segmenter(cur, []), line); Segmenter(s.current, out + s.chunks)
  {
  }

  lemma FlushShift(cur: seq<string>, out: seq<string>)
    ensures Flush(Segmenter(cur, out)) ==
      var f := Flush(Segmenter(cur, [])); Segmenter(f.current, out + f.chunks)
  {
  }

  /** Concatenation is associative. */
  lemma ConcatAssoc<T>(a: seq<T>, b: seq<T>, c: seq<T>)
    ensures (a + b) + c == a + (b + c)
  {
  }

  lemma {:induction false} RunShift(cur: seq<string>, out: seq<string>, lines: seq<string>)
    ensures Run(Segmenter(cur, out), lines) ==
      var r := Run(Segmenter(cur, []), lines); Segmenter(r.current, out + r.chunks)
    decreases |lines|
  {
    if |lines| > 0 {
      var s := Step(Segmenter(cur, []), lines[0]);
      StepShift(cur, out, lines[0]);
      RunShift(s.current, out + s.chunks, lines[1..]);
      RunShift(s.current, s.chunks, lines[1..]);
      var r := Run(Segmenter(s.current, []), lines[1..]);
      ConcatAssoc(out, s.chunks, r.chunks);
    }
  }

  /** Splitting the chunks of a run that ends in an empty accumulator
      from what follows it. */
  lemma ContinueAfter(out: seq<string>, b: seq<string>)
    ensures Flush(Run(Segmenter([], out), b)).chunks == out + ChunkLines(b)
  {
    RunShift([], out, b);
    var r := Run(Start, b);
    FlushShift(r.current, out + r.chunks);
    FlushShift(r.current, r.chunks);
  }

  /** A blank line always ends the current chunk: the chunks of the lines
      before it and of the lines after it are computed independently. */
  lemma BlankLineEndsChunk(a: seq<string>, blank: string, b: seq<string>)
    requires IsBlankLine(blank)
    ensures ChunkLines(a + [blank] + b) == ChunkLines(a) + ChunkLines(b)
  {
    assert a + [blank] + b == a + ([blank] + b);
    RunAppend(Start, a, [blank] + b);
    var x := Run(Start, a);
    assert Run(x, [blank] + b) == Run(Step(x, blank), b);
    ContinueAfter(ChunkLines(a), b);
  }

  /** A line starting with `-` always starts a new chunk. */
  lemma DashLineStartsChunk(a: seq<string>, dash: string, b: seq<string>)
    requires StartsWithDash(dash)
    ensures ChunkLines(a + [dash] + b) == ChunkLines(a) + ChunkLines([dash] + b)
  {
    DashAfter(a, dash, b);
    DashRestarts(ChunkLines(a), dash, b);
  }

  lemma DashAfter(a: seq<string>, dash: string, b: seq<string>)
    requires StartsWithDash(dash)
    ensures ChunkLines(a + [dash] + b) == Flush(Run(Segmenter([Strip(dash)], ChunkLines(a)), b)).chunks
  {
    var x := Run(Start, a);
    assert a + [dash] + b == a + ([dash] + b);
    RunAppend(Start, a, [dash] + b);
    DashStep(x, dash);
    RunCons(x, dash, b);
  }

  lemma DashRestarts(out: seq<string>, dash: string, b: seq<string>)
    requires StartsWithDash(dash)
    ensures Flush(Run(Segmenter([Strip(dash)], out), b)).chunks == out + ChunkLines([dash] + b)
  {
    var d := Strip(dash);
    DashStep(Start, dash);
    RunCons(Start, dash, b);
    var r := Run(Segmenter([d], []), b);
    assert ChunkLines([dash] + b) == Flush(r).chunks;
    RunShift([d], out, b);
    FlushShift(r.current, out + r.chunks);
    FlushShift(r.current, r.chunks);
  }

  /** A dash line flushes whatever was accumulated and starts over. */
  lemma DashStep(x: Segmenter, dash: string)
    requires StartsWithDash(dash)
    ensures Step(x, dash) == Segmenter([Strip(dash)], Flush(x).chunks)
  {
  }

  /** A non-blank line that does not start with `-` joins the current
      chunk. */
  lemma StepJoins(st: Segmenter, line: string)
    requires !IsBlankLine(line) && !StartsWithDash(line)
    ensures Step(st, line) == Segmenter(st.current + [Strip(line)], st.chunks)
  {
  }

  /** The stripped lines are the first one stripped, then the rest. */
  lemma StripAllCons(lines: seq<string>)
    requires |lines| > 0
    ensures StripAll(lines) == [Strip(lines[0])] + StripAll(lines[1..])
  {
  }

  /** Non-blank lines that do not start with `-` join the current chunk. */
  lemma {:induction false} RunParagraph(cur: seq<string>, out: seq<string>, lines: seq<string>)
    requires forall k :: 0 <= k < |lines| ==> !IsBlankLine(lines[k]) && !StartsWithDash(lines[k])
    ensures Run(Segmenter(cur, out), lines) == Segmenter(cur + StripAll(lines), out)
    decreases |lines|
  {
    if |lines| > 0 {
      var next := cur + [Strip(lines[0])];
      assert Step(Segmenter(cur, out), lines[0]) == Segmenter(next, out) by {
        StepJoins(Segmenter(cur, out), lines[0]);
      }
      RunParagraph(next, out, lines[1..]);
      StripAllCons(lines);
      ConcatAssoc(cur, [Strip(lines[0])], StripAll(lines[1..]));
    }
  }

  /** A paragraph, a run of non-blank lines none of which but the first
      starts with `-`, is one chunk: its stripped lines joined, kept when it
      has at least five words. */
  lemma ParagraphIsOneChunk(lines: seq<string>)
    requires |lines| > 0 && !IsBlankLine(lines[0])
    requires forall k :: 0 < k < |lines| ==> !IsBlankLine(lines[k]) && !StartsWithDash(lines[k])
    ensures ChunkLines(lines) ==
      var c := Render(StripAll(lines)); if |Words(c)| >= MinWords then [c] else []
  {
    var first := Strip(lines[0]);
    assert Step(Start, lines[0]) == Segmenter([first], []);
    RunParagraph([first], [], lines[1..]);
    StripAllCons(lines);
  }
}
