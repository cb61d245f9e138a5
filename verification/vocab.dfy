/** The vocabulary of `build_pack` and the per-chunk term-frequency
    vectors: Python's string order, `sorted` on a set of tokens, the
    token-to-index map, `collections.Counter` over a chunk's tokens and the
    sort of its `(index, count)` pairs. */
module Vocab {
  import opened Text

  /** Python's `<` on `str`: lexicographic by code point, a proper prefix
      before its extensions. */
  predicate Less(a: string, b: string)
    decreases |a|
  {
    |b| > 0 && (|a| == 0 || a[0] < b[0] || (a[0] == b[0] && Less(a[1..], b[1..])))
  }

  lemma {:induction false} LessIrreflexive(a: string)
    ensures !Less(a, a)
    decreases |a|
  {
    if |a| > 0 {
      LessIrreflexive(a[1..]);
    }
  }

  lemma {:induction false} LessTransitive(a: string, b: string, c: string)
    requires Less(a, b) && Less(b, c)
    ensures Less(a, c)
    decreases |a|
  {
    if |a| > 0 && a[0] == b[0] && b[0] == c[0] {
      LessTransitive(a[1..], b[1..], c[1..]);
    }
  }

  lemma LessAsymmetric(a: string, b: string)
    requires Less(a, b)
    ensures !Less(b, a)
  {
    if Less(b, a) {
      LessTransitive(a, b, a);
      LessIrreflexive(a);
    }
  }

  lemma {:induction false} LessTotal(a: string, b: string)
    requires a != b
    ensures Less(a, b) || Less(b, a)
    decreases |a|
  {
    if |a| > 0 && |b| > 0 && a[0] == b[0] {
      assert a == [a[0]] + a[1..] && b == [b[0]] + b[1..];
      LessTotal(a[1..], b[1..]);
    }
  }

  lemma LessAntisymmetric(a: string, b: string)
    ensures !(Less(a, b) && Less(b, a))
  {
    if Less(a, b) {
      LessAsymmetric(a, b);
    }
  }

  predicate StrictlySorted(v: seq<string>) {
    forall i, j :: 0 <= i < j < |v| ==> Less(v[i], v[j])
  }

  /** A strictly sorted sequence has no duplicates. */
  lemma SortedDistinct(v: seq<string>)
    requires StrictlySorted(v)
    ensures forall i, j :: 0 <= i < j < |v| ==> v[i] != v[j]
  {
    forall i, j | 0 <= i < j < |v|
      ensures v[i] != v[j]
    {
      LessIrreflexive(v[i]);
    }
  }

  /** The head of a strictly sorted sequence is below every other element. */
  lemma SortedHeadLeast(v: seq<string>)
    requires StrictlySorted(v) && |v| > 0
    ensures forall y :: y in v ==> y == v[0] || Less(v[0], y)
  {
  }

  /** Inserts `x` into a strictly sorted sequence unless it is already there. */
  function InsertSorted(x: string, v: seq<string>): (r: seq<string>)
    requires StrictlySorted(v)
    ensures StrictlySorted(r)
    ensures forall y :: y in r <==> y == x || y in v
    decreases |v|
  {
    if |v| == 0 then [x]
    else if x == v[0] then v
    else if Less(x, v[0]) then
      assert forall j :: 0 < j < |v| ==> Less(x, v[j]) by {
        forall j | 0 < j < |v|
          ensures Less(x, v[j])
        {
          LessTransitive(x, v[0], v[j]);
        }
      }
      [x] + v
    else
      LessTotal(x, v[0]);
      var rest := InsertSorted(x, v[1..]);
      assert forall j :: 0 <= j < |rest| ==> Less(v[0], rest[j]) by {
        forall j | 0 <= j < |rest|
          ensures Less(v[0], rest[j])
        {
          assert rest[j] in rest;
        }
      }
      [v[0]] + rest
  }

  /** `sorted(set(xs))`: the distinct elements of `xs` in increasing order. */
  function SortedSet(xs: seq<string>): (v: seq<string>)
    ensures StrictlySorted(v)
    ensures forall y :: y in v <==> y in xs
    decreases |xs|
  {
    if |xs| == 0 then [] else InsertSorted(xs[0], SortedSet(xs[1..]))
  }

  lemma HeadMember(v: seq<string>)
    ensures |v| > 0 ==> v[0] in v
  {
  }

  /** There is only one strictly sorted sequence of a given set of
      strings, so the vocabulary does not depend on how it is sorted. */
  lemma {:induction false} SortedUnique(a: seq<string>, b: seq<string>)
    requires StrictlySorted(a) && StrictlySorted(b)
    requires forall y :: y in a <==> y in b
    ensures a == b
    decreases |a|
  {
    if |a| == 0 {
      HeadMember(b);
    } else {
      assert a[0] in b;
      assert b[0] in a;
      SortedHeadLeast(a);
      SortedHeadLeast(b);
      LessAntisymmetric(a[0], b[0]);
      assert a[0] == b[0];
      SortedDistinct(a);
      SortedDistinct(b);
      assert forall y :: y in a[1..] <==> y in b[1..] by {
        forall y
          ensures y in a[1..] <==> y in b[1..]
        {
          if y in a[1..] {
            assert y in b && y != b[0];
          }
          if y in b[1..] {
            assert y in a && y != a[0];
          }
        }
      }
      SortedUnique(a[1..], b[1..]);
      assert a == [a[0]] + a[1..] && b == [b[0]] + b[1..];
    }
  }

  /** `index` is the inverse of the position map of `vocab`. */
  ghost predicate IsIndexOf(index: map<string, nat>, vocab: seq<string>) {
    && (forall t :: t in index <==> t in vocab)
    && (forall t :: t in index ==> index[t] < |vocab| && vocab[index[t]] == t)
  }

  /** `{token: idx for idx, token in enumerate(vocab)}`. */
  function IndexMap(vocab: seq<string>): (index: map<string, nat>)
    requires StrictlySorted(vocab)
    ensures IsIndexOf(index, vocab)
    ensures forall i :: 0 <= i < |vocab| ==> index[vocab[i]] == i
  {
    SortedDistinct(vocab);
    map i | 0 <= i < |vocab| :: vocab[i] := i
  }

  /** The keys of a `Counter` built from `s`: its distinct elements in order
      of first occurrence. */
  function Distinct(s: seq<string>): (d: seq<string>)
    ensures forall x :: x in d <==> x in s
    ensures forall i, j :: 0 <= i < j < |d| ==> d[i] != d[j]
    decreases |s|
  {
    if |s| == 0 then []
    else
      var d := Distinct(s[..|s| - 1]);
      var x := s[|s| - 1];
      assert forall y :: y in s <==> y in s[..|s| - 1] || y == x by {
        assert s == s[..|s| - 1] + [x];
      }
      if x in d then d else d + [x]
  }

  /** `(token_to_index[token], count)` for each key of the chunk's Counter. */
  function CountPairs(index: map<string, nat>, keys: seq<string>, tokens: seq<string>): (ps: seq<(nat, nat)>)
    requires forall t :: t in keys ==> t in index
    ensures |ps| == |keys|
    ensures forall k :: 0 <= k < |keys| ==> ps[k] == (index[keys[k]], Count(keys[k], tokens))
  {
    seq(|keys|, k requires 0 <= k < |keys| => (index[keys[k]], Count(keys[k], tokens)))
  }

  /** Python's tuple order `p <= q` on `(index, count)`. */
  predicate PairLe(p: (nat, nat), q: (nat, nat)) {
    p.0 < q.0 || (p.0 == q.0 && p.1 <= q.1)
  }

  predicate KeysIncreasing(ps: seq<(nat, nat)>) {
    forall i, j :: 0 <= i < j < |ps| ==> ps[i].0 < ps[j].0
  }

  predicate KeysDistinct(ps: seq<(nat, nat)>) {
    forall i, j :: 0 <= i < j < |ps| ==> ps[i].0 != ps[j].0
  }

  /** Sum of the counts. */
  function SumCounts(ps: seq<(nat, nat)>): nat {
    if |ps| == 0 then 0 else ps[0].1 + SumCounts(ps[1..])
  }

  /** Insertion of one pair into a list sorted by key. */
  function InsertPair(p: (nat, nat), ps: seq<(nat, nat)>): (r: seq<(nat, nat)>)
    requires KeysIncreasing(ps)
    requires forall k :: 0 <= k < |ps| ==> ps[k].0 != p.0
    ensures KeysIncreasing(r)
    ensures |r| == |ps| + 1
    ensures forall q :: q in r <==> q == p || q in ps
    ensures SumCounts(r) == p.1 + SumCounts(ps)
    decreases |ps|
  {
    if |ps| == 0 then [p]
    else if PairLe(p, ps[0]) then [p] + ps
    else
      var rest := InsertPair(p, ps[1..]);
      assert forall j :: 0 <= j < |rest| ==> ps[0].0 < rest[j].0 by {
        forall j | 0 <= j < |rest|
          ensures ps[0].0 < rest[j].0
        {
          assert rest[j] in rest;
        }
      }
      [ps[0]] + rest
  }

  /** `sorted(tf_vector)` for pairs with distinct keys. */
  function SortPairs(ps: seq<(nat, nat)>): (r: seq<(nat, nat)>)
    requires KeysDistinct(ps)
    ensures KeysIncreasing(r)
    ensures |r| == |ps|
    ensures forall q :: q in r <==> q in ps
    ensures SumCounts(r) == SumCounts(ps)
    decreases |ps|
  {
    if |ps| == 0 then []
    else
      var rest := SortPairs(ps[1..]);
      assert forall k :: 0 <= k < |rest| ==> rest[k].0 != ps[0].0 by {
        forall k | 0 <= k < |rest|
          ensures rest[k].0 != ps[0].0
        {
          assert rest[k] in ps[1..];
        }
      }
      InsertPair(ps[0], rest)
  }

  /** Sum over `keys` of the number of occurrences of each in `tokens`. */
  function SumOccurrences(keys: seq<string>, tokens: seq<string>): nat {
    if |keys| == 0 then 0 else Count(keys[0], tokens) + SumOccurrences(keys[1..], tokens)
  }

  lemma {:induction false} CountAppend(x: string, s: seq<string>, y: string)
    ensures Count(x, s + [y]) == Count(x, s) + (if x == y then 1 else 0)
    decreases |s|
  {
    if |s| > 0 {
      assert (s + [y])[1..] == s[1..] + [y];
      CountAppend(x, s[1..], y);
    } else {
      assert s + [y] == [y];
    }
  }

  lemma {:induction false} CountAbsent(x: string, s: seq<string>)
    requires x !in s
    ensures Count(x, s) == 0
    decreases |s|
  {
    if |s| > 0 {
      CountAbsent(x, s[1..]);
    }
  }

  lemma {:induction false} CountOnce(x: string, d: seq<string>)
    requires x in d
    requires forall i, j :: 0 <= i < j < |d| ==> d[i] != d[j]
    ensures Count(x, d) == 1
    decreases |d|
  {
    if d[0] == x {
      assert x !in d[1..];
      CountAbsent(x, d[1..]);
    } else {
      CountOnce(x, d[1..]);
    }
  }

  lemma {:induction false} SumOccurrencesAppendToken(keys: seq<string>, s: seq<string>, y: string)
    ensures SumOccurrences(keys, s + [y]) == SumOccurrences(keys, s) + Count(y, keys)
    decreases |keys|
  {
    if |keys| > 0 {
      CountAppend(keys[0], s, y);
      SumOccurrencesAppendToken(keys[1..], s, y);
    }
  }

  lemma {:induction false} SumOccurrencesAppendKey(keys: seq<string>, x: string, s: seq<string>)
    ensures SumOccurrences(keys + [x], s) == SumOccurrences(keys, s) + Count(x, s)
    decreases |keys|
  {
    if |keys| > 0 {
      assert (keys + [x])[1..] == keys[1..] + [x];
      SumOccurrencesAppendKey(keys[1..], x, s);
    } else {
      assert keys + [x] == [x];
    }
  }

  /** The counts of a Counter add up to the number of elements counted. */
  lemma {:induction false} DistinctCountsSum(s: seq<string>)
    ensures SumOccurrences(Distinct(s), s) == |s|
    decreases |s|
  {
    if |s| > 0 {
      var init := s[..|s| - 1];
      var x := s[|s| - 1];
      var d := Distinct(init);
      assert s == init + [x];
      DistinctCountsSum(init);
      SumOccurrencesAppendToken(d, init, x);
      if x in d {
        CountOnce(x, d);
      } else {
        CountAbsent(x, d);
        CountAbsent(x, init);
        SumOccurrencesAppendKey(d, x, s);
        SumOccurrencesAppendToken(d, init, x);
        CountAppend(x, init, x);
      }
    }
  }

  lemma {:induction false} CountPairsSum(index: map<string, nat>, keys: seq<string>, tokens: seq<string>)
    requires forall t :: t in keys ==> t in index
    ensures SumCounts(CountPairs(index, keys, tokens)) == SumOccurrences(keys, tokens)
    decreases |keys|
  {
    if |keys| > 0 {
      CountPairsSum(index, keys[1..], tokens);
      assert CountPairs(index, keys, tokens)[1..] == CountPairs(index, keys[1..], tokens);
    }
  }

  /** A token occurs at least once in a sequence that contains it. */
  lemma {:induction false} CountPositive(x: string, s: seq<string>)
    requires x in s
    ensures Count(x, s) >= 1
    decreases |s|
  {
    if s[0] != x {
      CountPositive(x, s[1..]);
    }
  }

  /** The `(index, count)` pairs of the distinct tokens of a chunk:
      distinct keys, exact positive counts, a pair for every token, and
      counts adding up to the number of tokens. */
  lemma CountPairsFacts(index: map<string, nat>, vocab: seq<string>, tokens: seq<string>)
    requires IsIndexOf(index, vocab)
    requires forall t :: t in tokens ==> t in vocab
    ensures var ps := CountPairs(index, Distinct(tokens), tokens);
      && KeysDistinct(ps)
      && (forall k :: 0 <= k < |ps| ==>
            && ps[k].0 < |vocab|
            && ps[k].1 == Count(vocab[ps[k].0], tokens)
            && ps[k].1 >= 1)
      && (forall t :: t in tokens ==> (index[t], Count(t, tokens)) in ps)
      && SumCounts(ps) == |tokens|
  {
    var keys := Distinct(tokens);
    var ps := CountPairs(index, keys, tokens);
    assert KeysDistinct(ps) by {
      forall i, j | 0 <= i < j < |ps|
        ensures ps[i].0 != ps[j].0
      {
        assert vocab[index[keys[i]]] == keys[i] && vocab[index[keys[j]]] == keys[j];
      }
    }
    forall k | 0 <= k < |keys|
      ensures Count(keys[k], tokens) >= 1
    {
      assert keys[k] in keys;
      CountPositive(keys[k], tokens);
    }
    forall t | t in tokens
      ensures (index[t], Count(t, tokens)) in ps
    {
      assert t in keys;
      var k :| 0 <= k < |keys| && keys[k] == t;
      assert ps[k] == (index[t], Count(t, tokens));
    }
    DistinctCountsSum(tokens);
    CountPairsSum(index, keys, tokens);
  }

  /** The sorted `(index, count)` list of one chunk. */
  function TfVector(index: map<string, nat>, vocab: seq<string>, tokens: seq<string>): (tf: seq<(nat, nat)>)
    requires IsIndexOf(index, vocab)
    requires forall t :: t in tokens ==> t in vocab
    ensures KeysIncreasing(tf)
    ensures forall k :: 0 <= k < |tf| ==>
      && tf[k].0 < |vocab|
      && tf[k].1 == Count(vocab[tf[k].0], tokens)
      && tf[k].1 >= 1
    ensures forall t :: t in tokens ==> (index[t], Count(t, tokens)) in tf
    ensures SumCounts(tf) == |tokens|
  {
    var ps := CountPairs(index, Distinct(tokens), tokens);
    CountPairsFacts(index, vocab, tokens);
    var tf := SortPairs(ps);
    assert forall k :: 0 <= k < |tf| ==> tf[k] in ps by {
      forall k | 0 <= k < |tf|
        ensures tf[k] in ps
      {
        assert tf[k] in tf;
      }
    }
    tf
  }
}
