/** `build_pack`: the TF-IDF pack built from the chunk texts. The integer
    and ordering content (surviving chunks, vocabulary, term-frequency
    vectors, document frequencies, the keys of `idf_pairs`) is modelled
    exactly; the floating-point values are reals computed through the `ln`
    and `sqrt` functions the caller supplies. */
module Pack {
  import opened Text
  import opened Vocab

  /** A chunk survives when it yields at least this many tokens. */
  const MinTokens: nat := 5
  const Schema: string := "tfidf-rag-pack@v1"
  const SourceName: string := "Siddharth_Suresh_Resume.pdf"

  /** The only way `build_pack` fails: no chunk survives. */
  datatype BuildError = NoUsableChunks

  datatype Result<T> = Ok(value: T) | Err(error: BuildError)

  /** One entry of the pack's `chunks` list. `tf` holds `(index, raw count)`
      pairs. */
  datatype ChunkEntry = ChunkEntry(text: string, tf: seq<(nat, nat)>, norm: real)

  datatype Pack = Pack(
    schema: string,
    source: string,
    created: string,
    vocab: seq<string>,
    idfPairs: seq<(nat, real)>,
    chunks: seq<ChunkEntry>)

  // ---------------------------------------------------------------------
  // Surviving chunks and their tokens
  // ---------------------------------------------------------------------

  predicate Survives(tokenize: string -> seq<string>, chunk: string) {
    |tokenize(chunk)| >= MinTokens
  }

  /** `Survives` as a test on chunks, for filtering. */
  function SurvivalTest(tokenize: string -> seq<string>): string -> bool {
    chunk => Survives(tokenize, chunk)
  }

  /** `tokenize(chunk)` for every chunk. */
  function ChunkTokens(tokenize: string -> seq<string>, texts: seq<string>): (toks: seq<seq<string>>)
    ensures |toks| == |texts|
    ensures forall k :: 0 <= k < |texts| ==> toks[k] == tokenize(texts[k])
  {
    seq(|texts|, k requires 0 <= k < |texts| => tokenize(texts[k]))
  }

  /** `t` is a token of some chunk. */
  predicate Occurs(toks: seq<seq<string>>, t: string) {
    exists k :: 0 <= k < |toks| && t in toks[k]
  }

  /** The tokens of all chunks, one chunk after the other. */
  function AllTokens(toks: seq<seq<string>>): (ts: seq<string>)
    ensures forall t :: t in ts <==> Occurs(toks, t)
    decreases |toks|
  {
    if |toks| == 0 then []
    else
      var rest := AllTokens(toks[1..]);
      assert forall t :: Occurs(toks, t) <==> t in toks[0] || Occurs(toks[1..], t) by {
        forall t
          ensures Occurs(toks, t) <==> t in toks[0] || Occurs(toks[1..], t)
        {
          if k :| 0 < k < |toks| && t in toks[k] {
            assert t in toks[1..][k - 1];
          }
          if k :| 0 <= k < |toks[1..]| && t in toks[1..][k] {
            assert t in toks[k + 1];
          }
        }
      }
      toks[0] + rest
  }

  /** `sorted(vocab_counter.keys())`. */
  function BuildVocab(toks: seq<seq<string>>): (vocab: seq<string>)
    ensures StrictlySorted(vocab)
    ensures forall t :: t in vocab <==> Occurs(toks, t)
  {
    SortedSet(AllTokens(toks))
  }

  /** The sorted term-frequency vector of every surviving chunk. */
  function TfVectors(index: map<string, nat>, vocab: seq<string>, toks: seq<seq<string>>): (tfs: seq<seq<(nat, nat)>>)
    requires IsIndexOf(index, vocab)
    requires forall k, t :: 0 <= k < |toks| && t in toks[k] ==> t in vocab
    ensures |tfs| == |toks|
    ensures forall k :: 0 <= k < |toks| ==> tfs[k] == TfVector(index, vocab, toks[k])
  {
    seq(|toks|, k requires 0 <= k < |toks| => TfVector(index, vocab, toks[k]))
  }

  // ---------------------------------------------------------------------
  // Document frequency
  // ---------------------------------------------------------------------

  /** `m.get(k, 0)`. */
  function Get(m: map<nat, nat>, k: nat): nat {
    if k in m then m[k] else 0
  }

  /** `idx` is a key of the vector. */
  predicate HasKey(tf: seq<(nat, nat)>, idx: nat) {
    exists j :: 0 <= j < |tf| && tf[j].0 == idx
  }

  /** Adds one to the document frequency of every index of one chunk. The
      keys of a term-frequency vector are distinct, so they are the chunk's
      `seen_indices`. */
  function DfAdd(df: map<nat, nat>, tf: seq<(nat, nat)>): map<nat, nat>
    decreases |tf|
  {
    if |tf| == 0 then df
    else DfAdd(df[tf[0].0 := Get(df, tf[0].0) + 1], tf[1..])
  }

  /** `doc_freq` after the chunks in `tfs`, in order. */
  function DocFreq(tfs: seq<seq<(nat, nat)>>): map<nat, nat>
    decreases |tfs|
  {
    if |tfs| == 0 then map[]
    else DfAdd(DocFreq(tfs[..|tfs| - 1]), tfs[|tfs| - 1])
  }

  /** Reference definition: the number of chunks whose vector has `idx`. */
  function ChunksWith(tfs: seq<seq<(nat, nat)>>, idx: nat): nat
    decreases |tfs|
  {
    if |tfs| == 0 then 0
    else ChunksWith(tfs[..|tfs| - 1], idx) + (if HasKey(tfs[|tfs| - 1], idx) then 1 else 0)
  }

  lemma {:induction false} DfAddCounts(df: map<nat, nat>, tf: seq<(nat, nat)>)
    requires KeysDistinct(tf)
    ensures forall idx :: idx in DfAdd(df, tf) <==> idx in df || HasKey(tf, idx)
    ensures forall idx :: Get(DfAdd(df, tf), idx) == Get(df, idx) + (if HasKey(tf, idx) then 1 else 0)
    decreases |tf|
  {
    if |tf| > 0 {
      var df' := df[tf[0].0 := Get(df, tf[0].0) + 1];
      var rest := tf[1..];
      DfAddCounts(df', rest);
      forall idx
        ensures HasKey(tf, idx) <==> idx == tf[0].0 || HasKey(rest, idx)
        ensures !(idx == tf[0].0 && HasKey(rest, idx))
      {
        if j :| 0 <= j < |tf| && tf[j].0 == idx {
          if j > 0 {
            assert rest[j - 1].0 == idx;
          }
        }
        if j :| 0 <= j < |rest| && rest[j].0 == idx {
          assert tf[j + 1].0 == idx;
          assert tf[0].0 != tf[j + 1].0;
        }
      }
    }
  }

  /** Some chunk's vector has `idx`. */
  predicate Covered(tfs: seq<seq<(nat, nat)>>, idx: nat) {
    exists k :: 0 <= k < |tfs| && HasKey(tfs[k], idx)
  }

  /** Every key of every vector is below `bound`. */
  predicate KeysBelow(tfs: seq<seq<(nat, nat)>>, bound: nat) {
    forall k, j :: 0 <= k < |tfs| && 0 <= j < |tfs[k]| ==> tfs[k][j].0 < bound
  }

  /** `doc_freq[idx]` is the number of chunks whose vector contains `idx`,
      and `doc_freq` holds exactly the indices some chunk contains. */
  lemma {:induction false} DocFreqCounts(tfs: seq<seq<(nat, nat)>>)
    requires forall k :: 0 <= k < |tfs| ==> KeysDistinct(tfs[k])
    ensures forall idx :: idx in DocFreq(tfs) <==> ChunksWith(tfs, idx) > 0
    ensures forall idx :: Get(DocFreq(tfs), idx) == ChunksWith(tfs, idx)
    decreases |tfs|
  {
    if |tfs| > 0 {
      var init := tfs[..|tfs| - 1];
      DocFreqCounts(init);
      DfAddCounts(DocFreq(init), tfs[|tfs| - 1]);
    }
  }

  lemma {:induction false} ChunksWithBounds(tfs: seq<seq<(nat, nat)>>, idx: nat)
    ensures ChunksWith(tfs, idx) <= |tfs|
    ensures ChunksWith(tfs, idx) > 0 <==> Covered(tfs, idx)
    decreases |tfs|
  {
    if |tfs| > 0 {
      var init := tfs[..|tfs| - 1];
      ChunksWithBounds(init, idx);
      if k :| 0 <= k < |tfs| && HasKey(tfs[k], idx) {
        if k < |tfs| - 1 {
          assert HasKey(init[k], idx);
        }
      }
      if k :| 0 <= k < |init| && HasKey(init[k], idx) {
        assert HasKey(tfs[k], idx);
      }
    }
  }

  // ---------------------------------------------------------------------
  // Inverse document frequency
  // ---------------------------------------------------------------------

  /** The argument of the logarithm: `(1 + N) / (1 + df)`. */
  function IdfRatio(n: nat, df: nat): real {
    (1 + n) as real / (1 + df) as real
  }

  /** `math.log((1 + num_docs) / (1 + df)) + 1.0`. */
  function Idf(ln: real -> real, n: nat, df: nat): real {
    ln(IdfRatio(n, df)) + 1.0
  }

  /** `idf_values`: one value per key of `doc_freq`. */
  function IdfValues(df: map<nat, nat>, n: nat, ln: real -> real): (idf: map<nat, real>)
    ensures idf.Keys == df.Keys
    ensures forall idx :: idx in df ==> idf[idx] == Idf(ln, n, df[idx])
  {
    map idx | idx in df :: Idf(ln, n, df[idx])
  }

  /** The keys of `keys` below `bound`, in increasing order. */
  function SortedBelow(keys: set<nat>, bound: nat): (r: seq<nat>)
    ensures forall i, j :: 0 <= i < j < |r| ==> r[i] < r[j]
    ensures forall i :: 0 <= i < |r| ==> r[i] < bound
    ensures forall x :: x in r <==> x in keys && x < bound
    decreases bound
  {
    if bound == 0 then []
    else SortedBelow(keys, bound - 1) + (if bound - 1 in keys then [bound - 1] else [])
  }

  /** When every index below `bound` is a key, the sorted keys are exactly
      `0, 1, ..., bound - 1`. */
  lemma {:induction false} SortedBelowFull(keys: set<nat>, bound: nat)
    requires forall i :: 0 <= i < bound ==> i in keys
    ensures |SortedBelow(keys, bound)| == bound
    ensures forall i :: 0 <= i < bound ==> SortedBelow(keys, bound)[i] == i
    decreases bound
  {
    if bound > 0 {
      var prev := SortedBelow(keys, bound - 1);
      SortedBelowFull(keys, bound - 1);
      assert bound - 1 in keys;
      var r := SortedBelow(keys, bound);
      assert r == prev + [bound - 1];
      forall i | 0 <= i < bound
        ensures r[i] == i
      {
        if i < bound - 1 {
          assert r[i] == prev[i];
        }
      }
    }
  }

  /** `sorted((idx, idf_values[idx]) for idx in idf_values)`, given that no
      key reaches `bound`. */
  function IdfPairs(idf: map<nat, real>, bound: nat): (ps: seq<(nat, real)>)
    ensures forall i, j :: 0 <= i < j < |ps| ==> ps[i].0 < ps[j].0
    ensures forall i :: 0 <= i < |ps| ==> ps[i].0 in idf && ps[i].1 == idf[ps[i].0]
    ensures (forall idx :: idx in idf ==> idx < bound) ==>
      forall idx :: idx in idf ==> exists i :: 0 <= i < |ps| && ps[i].0 == idx
  {
    var keys := SortedBelow(idf.Keys, bound);
    var ps := seq(|keys|, i requires 0 <= i < |keys| => (keys[i], idf[keys[i]]));
    assert forall idx :: idx in idf && idx < bound ==> exists i :: 0 <= i < |ps| && ps[i].0 == idx by {
      forall idx | idx in idf && idx < bound
        ensures exists i :: 0 <= i < |ps| && ps[i].0 == idx
      {
        assert idx in keys;
        var i :| 0 <= i < |keys| && keys[i] == idx;
        assert ps[i].0 == idx;
      }
    }
    ps
  }

  /** When the keys are exactly `0 .. bound - 1`, the pairs are keyed
      `0, 1, ..., bound - 1` in that order. */
  lemma IdfPairsFull(idf: map<nat, real>, bound: nat)
    requires forall idx: nat :: idx in idf <==> idx < bound
    ensures |IdfPairs(idf, bound)| == bound
    ensures forall i :: 0 <= i < bound ==> IdfPairs(idf, bound)[i].0 == i
  {
    SortedBelowFull(idf.Keys, bound);
  }

  // ---------------------------------------------------------------------
  // Norms and entries
  // ---------------------------------------------------------------------

  /** `sum((raw_tf * idf_values[idx]) ** 2 for idx, raw_tf in tf_vector)`. */
  function NormSum(tf: seq<(nat, nat)>, idf: map<nat, real>): real
    requires forall j :: 0 <= j < |tf| ==> tf[j].0 in idf
    decreases |tf|
  {
    if |tf| == 0 then 0.0
    else
      var w := tf[0].1 as real * idf[tf[0].0];
      w * w + NormSum(tf[1..], idf)
  }

  /** `math.sqrt(norm_sum) if norm_sum else 1.0`. */
  function ChunkNorm(tf: seq<(nat, nat)>, idf: map<nat, real>, sqrt: real -> real): (norm: real)
    requires forall j :: 0 <= j < |tf| ==> tf[j].0 in idf
    ensures NormSum(tf, idf) != 0.0 ==> norm == sqrt(NormSum(tf, idf))
    ensures NormSum(tf, idf) == 0.0 ==> norm == 1.0
  {
    var sum := NormSum(tf, idf);
    if sum == 0.0 then 1.0 else sqrt(sum)
  }

  function Entries(texts: seq<string>, tfs: seq<seq<(nat, nat)>>, idf: map<nat, real>, sqrt: real -> real): (es: seq<ChunkEntry>)
    requires |tfs| == |texts|
    requires forall k, j :: 0 <= k < |tfs| && 0 <= j < |tfs[k]| ==> tfs[k][j].0 in idf
    ensures |es| == |texts|
    ensures forall k :: 0 <= k < |es| ==> es[k].text == texts[k] && es[k].tf == tfs[k]
    ensures forall k :: 0 <= k < |es| ==> es[k].norm == ChunkNorm(tfs[k], idf, sqrt)
  {
    seq(|texts|, k requires 0 <= k < |texts| => ChunkEntry(texts[k], tfs[k], ChunkNorm(tfs[k], idf, sqrt)))
  }

  // ---------------------------------------------------------------------
  // The pack
  // ---------------------------------------------------------------------

  /** The vectors of a pack's chunks. */
  function TfsOf(es: seq<ChunkEntry>): (tfs: seq<seq<(nat, nat)>>)
    ensures |tfs| == |es|
    ensures forall k :: 0 <= k < |es| ==> tfs[k] == es[k].tf
  {
    seq(|es|, k requires 0 <= k < |es| => es[k].tf)
  }

  function TextsOf(es: seq<ChunkEntry>): (texts: seq<string>)
    ensures |texts| == |es|
    ensures forall k :: 0 <= k < |es| ==> texts[k] == es[k].text
  {
    seq(|es|, k requires 0 <= k < |es| => es[k].text)
  }

  /** Every chunk's tokens are in the vocabulary. */
  lemma TokensInVocab(vocab: seq<string>, toks: seq<seq<string>>)
    requires forall t :: t in vocab <==> Occurs(toks, t)
    ensures forall k, t :: 0 <= k < |toks| && t in toks[k] ==> t in vocab
  {
    forall k, t | 0 <= k < |toks| && t in toks[k]
      ensures t in vocab
    {
      assert Occurs(toks, t);
    }
  }

  /** One chunk's vector has distinct keys below `len(vocab)` and holds the
      index of each of the chunk's tokens. */
  lemma TfVectorKeys(index: map<string, nat>, vocab: seq<string>, tokens: seq<string>)
    requires IsIndexOf(index, vocab)
    requires forall t :: t in tokens ==> t in vocab
    ensures KeysDistinct(TfVector(index, vocab, tokens))
    ensures forall j :: 0 <= j < |TfVector(index, vocab, tokens)| ==> TfVector(index, vocab, tokens)[j].0 < |vocab|
    ensures forall t :: t in tokens ==> HasKey(TfVector(index, vocab, tokens), index[t])
  {
    var tf := TfVector(index, vocab, tokens);
    forall t | t in tokens
      ensures HasKey(tf, index[t])
    {
      var j :| 0 <= j < |tf| && tf[j] == (index[t], Count(t, tokens));
    }
  }

  /** Vectors with distinct keys below `bound`, where every index below
      `bound` is held by some vector. */
  predicate WellFormedVectors(tfs: seq<seq<(nat, nat)>>, bound: nat) {
    && KeysBelow(tfs, bound)
    && (forall k :: 0 <= k < |tfs| ==> KeysDistinct(tfs[k]))
    && (forall i :: 0 <= i < bound ==> Covered(tfs, i))
  }

  /** Vectors that each hold the index of every token of their chunk cover
      every index of a vocabulary made of those tokens. */
  lemma VectorsCoverVocab(index: map<string, nat>, vocab: seq<string>, toks: seq<seq<string>>, tfs: seq<seq<(nat, nat)>>)
    requires IsIndexOf(index, vocab)
    requires forall i :: 0 <= i < |vocab| ==> index[vocab[i]] == i
    requires forall t :: t in vocab ==> Occurs(toks, t)
    requires forall k, t :: 0 <= k < |toks| && t in toks[k] ==> t in vocab
    requires |tfs| == |toks|
    requires forall k, t :: 0 <= k < |toks| && t in toks[k] ==> HasKey(tfs[k], index[t])
    ensures forall i :: 0 <= i < |vocab| ==> Covered(tfs, i)
  {
    forall i | 0 <= i < |vocab|
      ensures Covered(tfs, i)
    {
      var t := vocab[i];
      assert t in vocab;
      var k :| 0 <= k < |toks| && t in toks[k];
      assert HasKey(tfs[k], i);
    }
  }

  /** The vectors of the surviving chunks have distinct keys below
      `len(vocab)`, and every vocabulary index occurs in one of them. */
  lemma TfVectorsFacts(index: map<string, nat>, vocab: seq<string>, toks: seq<seq<string>>)
    requires IsIndexOf(index, vocab)
    requires forall i :: 0 <= i < |vocab| ==> index[vocab[i]] == i
    requires forall t :: t in vocab ==> Occurs(toks, t)
    requires forall k, t :: 0 <= k < |toks| && t in toks[k] ==> t in vocab
    ensures WellFormedVectors(TfVectors(index, vocab, toks), |vocab|)
  {
    var tfs := TfVectors(index, vocab, toks);
    forall k | 0 <= k < |toks|
      ensures KeysDistinct(tfs[k])
      ensures forall j :: 0 <= j < |tfs[k]| ==> tfs[k][j].0 < |vocab|
      ensures forall t :: t in toks[k] ==> HasKey(tfs[k], index[t])
    {
      TfVectorKeys(index, vocab, toks[k]);
    }
    VectorsCoverVocab(index, vocab, toks, tfs);
  }

  /** A covered index is below any bound on the keys. */
  lemma CoveredBelow(tfs: seq<seq<(nat, nat)>>, bound: nat, idx: nat)
    requires KeysBelow(tfs, bound)
    requires Covered(tfs, idx)
    ensures idx < bound
  {
    var k :| 0 <= k < |tfs| && HasKey(tfs[k], idx);
    var j :| 0 <= j < |tfs[k]| && tfs[k][j].0 == idx;
  }

  /** `doc_freq` has exactly the keys `0 .. len(vocab) - 1`. */
  lemma DocFreqKeys(tfs: seq<seq<(nat, nat)>>, bound: nat)
    requires WellFormedVectors(tfs, bound)
    ensures forall idx: nat :: idx in DocFreq(tfs) <==> idx < bound
  {
    DocFreqCounts(tfs);
    forall idx: nat
      ensures idx in DocFreq(tfs) <==> idx < bound
    {
      ChunksWithBounds(tfs, idx);
      if Covered(tfs, idx) {
        CoveredBelow(tfs, bound, idx);
      }
    }
  }

  /** A strictly increasing vocabulary holding exactly the chunks' tokens,
      and one term-frequency vector per chunk over that vocabulary. */
  ghost predicate Indexed(toks: seq<seq<string>>, vocab: seq<string>, tfs: seq<seq<(nat, nat)>>) {
    && StrictlySorted(vocab)
    && (forall t :: t in vocab <==> Occurs(toks, t))
    && (forall k, t :: 0 <= k < |toks| && t in toks[k] ==> t in vocab)
    && |tfs| == |toks|
    && (forall k :: 0 <= k < |toks| ==> tfs[k] == TfVector(IndexMap(vocab), vocab, toks[k]))
  }

  /** Well-formed vectors over indices below `bound`, and document
      frequencies that have exactly those indices as keys and count, for
      each, the vectors holding it. */
  ghost predicate Counted(tfs: seq<seq<(nat, nat)>>, df: map<nat, nat>, bound: nat) {
    && WellFormedVectors(tfs, bound)
    && df == DocFreq(tfs)
    && (forall idx: nat :: idx in df <==> idx < bound)
    && (forall idx :: Get(df, idx) == ChunksWith(tfs, idx))
  }

  /** The vocabulary, the chunks' term-frequency vectors and the document
      frequencies that `build_pack` computes from the surviving chunks'
      tokens. */
  datatype Tables = Tables(vocab: seq<string>, tfs: seq<seq<(nat, nat)>>, df: map<nat, nat>)

  /** The counting half of `build_pack`: every token lands in the sorted
      vocabulary, every vocabulary index is held by some chunk's vector, and
      `doc_freq` counts, for each index below `len(vocab)`, the chunks whose
      vector holds it. */
  function BuildTables(toks: seq<seq<string>>): (tb: Tables)
    ensures |tb.tfs| == |toks|
    ensures Indexed(toks, tb.vocab, tb.tfs)
    ensures Counted(tb.tfs, tb.df, |tb.vocab|)
  {
    var vocab := BuildVocab(toks);
    var index := IndexMap(vocab);
    TokensInVocab(vocab, toks);
    var tfs := TfVectors(index, vocab, toks);
    TfVectorsFacts(index, vocab, toks);
    DocFreqKeys(tfs, |vocab|);
    DocFreqCounts(tfs);
    Tables(vocab, tfs, DocFreq(tfs))
  }

  /** When `doc_freq` has exactly the indices below the bound on the
      vectors' keys, every key of every vector has an IDF value. */
  lemma IdfCoversVectors(tfs: seq<seq<(nat, nat)>>, df: map<nat, nat>, bound: nat, n: nat, ln: real -> real)
    requires Counted(tfs, df, bound)
    ensures forall k, j :: 0 <= k < |tfs| && 0 <= j < |tfs[k]| ==> tfs[k][j].0 in IdfValues(df, n, ln)
  {
  }

  /** The pack built from the surviving chunk texts and their tables. */
  function AssembleFrom(texts: seq<string>, tb: Tables, created: string, ln: real -> real, sqrt: real -> real): (p: Pack)
    requires |tb.tfs| == |texts|
    requires Counted(tb.tfs, tb.df, |tb.vocab|)
    ensures p.schema == Schema && p.source == SourceName && p.created == created
    ensures TextsOf(p.chunks) == texts
  {
    var idf := IdfValues(tb.df, |texts|, ln);
    IdfCoversVectors(tb.tfs, tb.df, |tb.vocab|, |texts|, ln);
    var entries := Entries(texts, tb.tfs, idf, sqrt);
    assert TextsOf(entries) == texts;
    Pack(Schema, SourceName, created, tb.vocab, IdfPairs(idf, |tb.vocab|), entries)
  }

  /** How a pack's vocabulary and vectors come from its chunks' tokens: the
      vocabulary is strictly increasing and holds exactly the tokens, and
      each chunk's vector is the term-frequency vector of its tokens. */
  ghost predicate VectorFacts(tokenize: string -> seq<string>, p: Pack) {
    Indexed(ChunkTokens(tokenize, TextsOf(p.chunks)), p.vocab, TfsOf(p.chunks))
  }

  /** How a pack's weights come from the document frequencies of its
      vectors: `doc_freq` has exactly the indices below `len(vocab)` and
      counts the chunks holding each, `idf_pairs` lists their IDF values in
      index order, and each norm is computed from those values. */
  ghost predicate WeightFacts(p: Pack, ln: real -> real, sqrt: real -> real) {
    var tfs := TfsOf(p.chunks);
    var idf := IdfValues(DocFreq(tfs), |p.chunks|, ln);
    && Counted(tfs, DocFreq(tfs), |p.vocab|)
    && p.idfPairs == IdfPairs(idf, |p.vocab|)
    && (forall k, j :: 0 <= k < |p.chunks| && 0 <= j < |p.chunks[k].tf| ==> p.chunks[k].tf[j].0 in idf)
    && (forall k :: 0 <= k < |p.chunks| ==> p.chunks[k].norm == ChunkNorm(p.chunks[k].tf, idf, sqrt))
  }

  /** A pack assembled from tables has the tables' vocabulary and vectors. */
  lemma AssembleVectors(texts: seq<string>, tb: Tables, created: string, ln: real -> real, sqrt: real -> real)
    requires |tb.tfs| == |texts|
    requires Counted(tb.tfs, tb.df, |tb.vocab|)
    ensures var p := AssembleFrom(texts, tb, created, ln, sqrt);
      p.vocab == tb.vocab && TfsOf(p.chunks) == tb.tfs
  {
    var p := AssembleFrom(texts, tb, created, ln, sqrt);
    assert TfsOf(p.chunks) == tb.tfs;
  }

  /** A pack assembled from tables takes its weights from the tables'
      document frequencies. */
  lemma AssembleWeights(texts: seq<string>, tb: Tables, created: string, ln: real -> real, sqrt: real -> real)
    requires |tb.tfs| == |texts|
    requires Counted(tb.tfs, tb.df, |tb.vocab|)
    ensures WeightFacts(AssembleFrom(texts, tb, created, ln, sqrt), ln, sqrt)
  {
    var p := AssembleFrom(texts, tb, created, ln, sqrt);
    IdfCoversVectors(tb.tfs, tb.df, |tb.vocab|, |texts|, ln);
    assert TfsOf(p.chunks) == tb.tfs;
    assert forall k :: 0 <= k < |p.chunks| ==> p.chunks[k].tf == tb.tfs[k];
  }

  /** The pack built from the surviving chunk texts. */
  function Assemble(tokenize: string -> seq<string>, texts: seq<string>, created: string, ln: real -> real, sqrt: real -> real): (p: Pack)
    ensures p.schema == Schema && p.source == SourceName && p.created == created
    ensures TextsOf(p.chunks) == texts
  {
    AssembleFrom(texts, BuildTables(ChunkTokens(tokenize, texts)), created, ln, sqrt)
  }

  /** `build_pack(chunks)`, with the creation timestamp, the natural
      logarithm and the square root supplied by the caller. */
  function BuildPack(tokenize: string -> seq<string>, chunks: seq<string>, created: string, ln: real -> real, sqrt: real -> real): (r: Result<Pack>)
    ensures r.Err? <==> forall c :: c in chunks ==> !Survives(tokenize, c)
    ensures r.Ok? ==> r.value.schema == Schema && r.value.source == SourceName && r.value.created == created
    ensures r.Ok? ==> TextsOf(r.value.chunks) == Filter(chunks, SurvivalTest(tokenize))
  {
    var texts := Filter(chunks, SurvivalTest(tokenize));
    FilterEmpty(chunks, SurvivalTest(tokenize));
    if |texts| == 0 then Err(NoUsableChunks)
    else Ok(Assemble(tokenize, texts, created, ln, sqrt))
  }

  // ---------------------------------------------------------------------
  // Properties of a built pack
  // ---------------------------------------------------------------------

  /** `t` is a token of one of the pack's chunks. */
  predicate TokenOfPack(tokenize: string -> seq<string>, p: Pack, t: string) {
    exists k :: 0 <= k < |p.chunks| && t in tokenize(p.chunks[k].text)
  }

  /** The texts kept by the survival filter: each has at least five
      tokens, they keep their input order, and a text occurs among them as
      often as in the input when it survives, and not at all otherwise. */
  lemma SurvivorsOf(tokenize: string -> seq<string>, chunks: seq<string>, texts: seq<string>)
    requires texts == Filter(chunks, SurvivalTest(tokenize))
    ensures forall k :: 0 <= k < |texts| ==> |tokenize(texts[k])| >= MinTokens
    ensures IsSubsequence(texts, chunks)
    ensures forall c :: Count(c, texts) == if Survives(tokenize, c) then Count(c, chunks) else 0
  {
    FilterIsSubsequence(chunks, SurvivalTest(tokenize));
    FilterAllKept(chunks, SurvivalTest(tokenize));
  }

  /** The pack's chunks are the input chunks that survive, in input order,
      each with its text unchanged: a text occurs among the pack's chunks as
      often as among the input chunks when it has at least five tokens, and
      not at all otherwise. */
  lemma BuildPackChunks(tokenize: string -> seq<string>, chunks: seq<string>, created: string, ln: real -> real, sqrt: real -> real, p: Pack)
    requires BuildPack(tokenize, chunks, created, ln, sqrt) == Ok(p)
    ensures IsSubsequence(TextsOf(p.chunks), chunks)
    ensures forall c :: Count(c, TextsOf(p.chunks)) == if Survives(tokenize, c) then Count(c, chunks) else 0
  {
    SurvivorsOf(tokenize, chunks, TextsOf(p.chunks));
  }

  /** The entries whose texts are the survivors each have at least five
      tokens. */
  lemma EntriesSurvive(tokenize: string -> seq<string>, chunks: seq<string>, es: seq<ChunkEntry>)
    requires TextsOf(es) == Filter(chunks, SurvivalTest(tokenize))
    ensures forall k :: 0 <= k < |es| ==> |tokenize(es[k].text)| >= MinTokens
  {
    var texts := TextsOf(es);
    FilterAllKept(chunks, SurvivalTest(tokenize));
    forall k | 0 <= k < |es|
      ensures |tokenize(es[k].text)| >= MinTokens
    {
      assert texts[k] == es[k].text;
      assert SurvivalTest(tokenize)(texts[k]);
    }
  }

  /** Every chunk of the pack has at least five tokens. */
  lemma BuildPackChunkTokens(tokenize: string -> seq<string>, chunks: seq<string>, created: string, ln: real -> real, sqrt: real -> real, p: Pack)
    requires BuildPack(tokenize, chunks, created, ln, sqrt) == Ok(p)
    ensures forall k :: 0 <= k < |p.chunks| ==> |tokenize(p.chunks[k].text)| >= MinTokens
  {
    EntriesSurvive(tokenize, chunks, p.chunks);
  }

  /** A built pack's vocabulary and vectors come from its chunks' tokens. */
  lemma BuildPackVectorFacts(tokenize: string -> seq<string>, chunks: seq<string>, created: string, ln: real -> real, sqrt: real -> real, p: Pack)
    requires BuildPack(tokenize, chunks, created, ln, sqrt) == Ok(p)
    ensures VectorFacts(tokenize, p)
  {
    var texts := Filter(chunks, SurvivalTest(tokenize));
    AssembleVectors(texts, BuildTables(ChunkTokens(tokenize, texts)), created, ln, sqrt);
  }

  /** A built pack's weights come from its vectors. */
  lemma BuildPackWeightFacts(tokenize: string -> seq<string>, chunks: seq<string>, created: string, ln: real -> real, sqrt: real -> real, p: Pack)
    requires BuildPack(tokenize, chunks, created, ln, sqrt) == Ok(p)
    ensures WeightFacts(p, ln, sqrt)
  {
    var texts := Filter(chunks, SurvivalTest(tokenize));
    AssembleWeights(texts, BuildTables(ChunkTokens(tokenize, texts)), created, ln, sqrt);
  }

  /** A vocabulary that holds exactly the tokens of the chunk texts holds
      exactly the tokens of the pack's chunks. */
  lemma VocabOfVectors(tokenize: string -> seq<string>, p: Pack)
    requires VectorFacts(tokenize, p)
    ensures StrictlySorted(p.vocab)
    ensures forall t :: t in p.vocab <==> TokenOfPack(tokenize, p, t)
  {
    var toks := ChunkTokens(tokenize, TextsOf(p.chunks));
    forall t
      ensures Occurs(toks, t) <==> TokenOfPack(tokenize, p, t)
    {
      if k :| 0 <= k < |toks| && t in toks[k] {
        assert t in tokenize(p.chunks[k].text);
      }
      if k :| 0 <= k < |p.chunks| && t in tokenize(p.chunks[k].text) {
        assert t in toks[k];
      }
    }
  }

  /** The vocabulary is strictly increasing (so sorted and free of
      duplicates) and holds exactly the tokens of the pack's chunks. */
  lemma BuildPackVocab(tokenize: string -> seq<string>, chunks: seq<string>, created: string, ln: real -> real, sqrt: real -> real, p: Pack)
    requires BuildPack(tokenize, chunks, created, ln, sqrt) == Ok(p)
    ensures StrictlySorted(p.vocab)
    ensures forall t :: t in p.vocab <==> TokenOfPack(tokenize, p, t)
  {
    BuildPackVectorFacts(tokenize, chunks, created, ln, sqrt, p);
    VocabOfVectors(tokenize, p);
  }

  /** A chunk's vector, read through the vocabulary: sorted by strictly
      increasing index, exact positive counts for every token, counts
      adding up to the number of tokens. */
  lemma TfVectorMeaning(index: map<string, nat>, vocab: seq<string>, tokens: seq<string>)
    requires IsIndexOf(index, vocab)
    requires forall t :: t in tokens ==> t in vocab
    ensures var tf := TfVector(index, vocab, tokens);
      && KeysIncreasing(tf)
      && (forall j :: 0 <= j < |tf| ==> tf[j].0 < |vocab| && tf[j].1 == Count(vocab[tf[j].0], tokens) && tf[j].1 >= 1)
      && (forall t :: t in tokens ==> exists j :: 0 <= j < |tf| && vocab[tf[j].0] == t)
      && SumCounts(tf) == |tokens|
  {
    var tf := TfVector(index, vocab, tokens);
    forall t | t in tokens
      ensures exists j :: 0 <= j < |tf| && vocab[tf[j].0] == t
    {
      var j :| 0 <= j < |tf| && tf[j] == (index[t], Count(t, tokens));
      assert vocab[tf[j].0] == t;
    }
  }

  /** Chunk `k`'s vector, read through the vocabulary, when the vectors
      are the term-frequency vectors of the chunks' tokens. */
  lemma TfOfVectors(tokenize: string -> seq<string>, p: Pack, k: nat)
    requires VectorFacts(tokenize, p)
    requires k < |p.chunks|
    ensures KeysIncreasing(p.chunks[k].tf)
    ensures forall j :: 0 <= j < |p.chunks[k].tf| ==>
      && p.chunks[k].tf[j].0 < |p.vocab|
      && p.chunks[k].tf[j].1 == Count(p.vocab[p.chunks[k].tf[j].0], tokenize(p.chunks[k].text))
      && p.chunks[k].tf[j].1 >= 1
    ensures forall t :: t in tokenize(p.chunks[k].text) ==>
      exists j :: 0 <= j < |p.chunks[k].tf| && p.vocab[p.chunks[k].tf[j].0] == t
    ensures SumCounts(p.chunks[k].tf) == |tokenize(p.chunks[k].text)|
  {
    TfVectorMeaning(IndexMap(p.vocab), p.vocab, tokenize(p.chunks[k].text));
  }

  /** Each chunk's `tf` list is sorted by strictly increasing index; every
      index is inside the vocabulary; every count is at least one and is
      the number of occurrences of that vocabulary entry in the chunk's
      tokens; every token of the chunk has an entry; and the counts add up
      to the number of tokens. */
  lemma BuildPackTf(tokenize: string -> seq<string>, chunks: seq<string>, created: string, ln: real -> real, sqrt: real -> real, p: Pack, k: nat)
    requires BuildPack(tokenize, chunks, created, ln, sqrt) == Ok(p)
    requires k < |p.chunks|
    ensures KeysIncreasing(p.chunks[k].tf)
    ensures forall j :: 0 <= j < |p.chunks[k].tf| ==>
      && p.chunks[k].tf[j].0 < |p.vocab|
      && p.chunks[k].tf[j].1 == Count(p.vocab[p.chunks[k].tf[j].0], tokenize(p.chunks[k].text))
      && p.chunks[k].tf[j].1 >= 1
    ensures forall t :: t in tokenize(p.chunks[k].text) ==>
      exists j :: 0 <= j < |p.chunks[k].tf| && p.vocab[p.chunks[k].tf[j].0] == t
    ensures SumCounts(p.chunks[k].tf) == |tokenize(p.chunks[k].text)|
  {
    BuildPackVectorFacts(tokenize, chunks, created, ln, sqrt, p);
    TfOfVectors(tokenize, p, k);
  }

  /** The IDF pairs built from document frequencies that count, for each
      index below `len(vocab)`, the vectors holding it: one pair per index,
      in index order, each the IDF of a count between 1 and the number of
      chunks. */
  lemma IdfPairsFromCounts(tfs: seq<seq<(nat, nat)>>, df: map<nat, nat>, bound: nat, ln: real -> real)
    requires Counted(tfs, df, bound)
    ensures |IdfPairs(IdfValues(df, |tfs|, ln), bound)| == bound
    ensures forall i :: 0 <= i < bound ==> IdfPairs(IdfValues(df, |tfs|, ln), bound)[i].0 == i
    ensures forall i :: 0 <= i < bound ==>
      && 1 <= ChunksWith(tfs, i) <= |tfs|
      && IdfPairs(IdfValues(df, |tfs|, ln), bound)[i].1 == Idf(ln, |tfs|, ChunksWith(tfs, i))
  {
    var idf := IdfValues(df, |tfs|, ln);
    IdfPairsFull(idf, bound);
    var ps := IdfPairs(idf, bound);
    forall i | 0 <= i < bound
      ensures 1 <= ChunksWith(tfs, i) <= |tfs|
      ensures ps[i].1 == Idf(ln, |tfs|, ChunksWith(tfs, i))
    {
      ChunksWithBounds(tfs, i);
      assert Get(df, i) == df[i];
    }
  }

  /** `idf_pairs` of a pack whose weights come from its vectors, indexed by
      vocabulary index. */
  lemma IdfOfWeights(p: Pack, ln: real -> real, sqrt: real -> real)
    requires WeightFacts(p, ln, sqrt)
    ensures |p.idfPairs| == |p.vocab|
    ensures forall i :: 0 <= i < |p.idfPairs| ==> p.idfPairs[i].0 == i
    ensures forall i :: 0 <= i < |p.idfPairs| ==>
      && 1 <= ChunksWith(TfsOf(p.chunks), i) <= |p.chunks|
      && p.idfPairs[i].1 == Idf(ln, |p.chunks|, ChunksWith(TfsOf(p.chunks), i))
  {
    IdfPairsFromCounts(TfsOf(p.chunks), DocFreq(TfsOf(p.chunks)), |p.vocab|, ln);
  }

  /** `idf_pairs` has one pair per vocabulary index, in index order, and the
      value for index `i` is the IDF of a document frequency that counts the
      chunks whose `tf` holds `i`, between 1 and the number of chunks. */
  lemma BuildPackIdf(tokenize: string -> seq<string>, chunks: seq<string>, created: string, ln: real -> real, sqrt: real -> real, p: Pack)
    requires BuildPack(tokenize, chunks, created, ln, sqrt) == Ok(p)
    ensures |p.idfPairs| == |p.vocab|
    ensures forall i :: 0 <= i < |p.idfPairs| ==> p.idfPairs[i].0 == i
    ensures forall i :: 0 <= i < |p.idfPairs| ==>
      && 1 <= ChunksWith(TfsOf(p.chunks), i) <= |p.chunks|
      && p.idfPairs[i].1 == Idf(ln, |p.chunks|, ChunksWith(TfsOf(p.chunks), i))
  {
    BuildPackWeightFacts(tokenize, chunks, created, ln, sqrt, p);
    IdfOfWeights(p, ln, sqrt);
  }

  // ---------------------------------------------------------------------
  // The IDF formula and the norms
  // ---------------------------------------------------------------------

  /** The ratio inside the logarithm is at least 1 for a document frequency
      of at most `n`, and never grows as the document frequency grows. */
  lemma IdfRatioBounds(n: nat, df: nat, df': nat)
    requires df <= df' <= n
    ensures IdfRatio(n, df) >= IdfRatio(n, df') >= 1.0
  {
    var a := (1 + n) as real;
    var b := (1 + df) as real;
    var b' := (1 + df') as real;
    assert a / b' >= 1.0 by {
      assert a >= b';
    }
    assert a / b >= a / b' by {
      assert a / b - a / b' == a * (b' - b) / (b * b');
      assert a * (b' - b) >= 0.0;
    }
  }

  /** With a logarithm that is not negative from 1 on, every IDF value is
      at least 1. */
  lemma IdfAtLeastOne(ln: real -> real, n: nat, df: nat)
    requires forall x: real :: x >= 1.0 ==> ln(x) >= 0.0
    requires df <= n
    ensures Idf(ln, n, df) >= 1.0
  {
    IdfRatioBounds(n, df, df);
  }

  /** With a non-decreasing logarithm, a term found in more chunks never
      gets a larger IDF. */
  lemma IdfNonIncreasing(ln: real -> real, n: nat, df: nat, df': nat)
    requires forall x: real, y: real :: 1.0 <= x <= y ==> ln(x) <= ln(y)
    requires df <= df' <= n
    ensures Idf(ln, n, df') <= Idf(ln, n, df)
  {
    IdfRatioBounds(n, df, df');
  }

  /** The sum of squared weights of a vector, reading each IDF value from
      `idf_pairs` by index. */
  function WeightSum(tf: seq<(nat, nat)>, pairs: seq<(nat, real)>): real
    requires forall j :: 0 <= j < |tf| ==> tf[j].0 < |pairs|
    decreases |tf|
  {
    if |tf| == 0 then 0.0
    else
      var w := tf[0].1 as real * pairs[tf[0].0].1;
      w * w + WeightSum(tf[1..], pairs)
  }

  lemma {:induction false} NormSumMatches(tf: seq<(nat, nat)>, idf: map<nat, real>, pairs: seq<(nat, real)>)
    requires forall j :: 0 <= j < |tf| ==> tf[j].0 in idf && tf[j].0 < |pairs| && pairs[tf[j].0].1 == idf[tf[j].0]
    ensures NormSum(tf, idf) == WeightSum(tf, pairs)
    decreases |tf|
  {
    if |tf| > 0 {
      NormSumMatches(tf[1..], idf, pairs);
    }
  }

  /** A nonempty vector of positive counts whose IDF values are at least 1
      has a sum of squared weights of at least 1. */
  lemma {:induction false} WeightSumAtLeastOne(tf: seq<(nat, nat)>, pairs: seq<(nat, real)>)
    requires |tf| > 0
    requires forall j :: 0 <= j < |tf| ==> tf[j].0 < |pairs| && tf[j].1 >= 1 && pairs[tf[j].0].1 >= 1.0
    ensures WeightSum(tf, pairs) >= 1.0
    decreases |tf|
  {
    var c := tf[0].1 as real;
    var v := pairs[tf[0].0].1;
    assert c * v >= 1.0 by {
      assert c * v - 1.0 == (c - 1.0) * v + (v - 1.0);
      assert (c - 1.0) * v >= 0.0;
    }
    assert (c * v) * (c * v) >= 1.0 by {
      assert (c * v) * (c * v) - 1.0 == (c * v - 1.0) * (c * v + 1.0);
      assert (c * v - 1.0) * (c * v + 1.0) >= 0.0;
    }
    if |tf| > 1 {
      WeightSumAtLeastOne(tf[1..], pairs);
    } else {
      assert WeightSum(tf[1..], pairs) == 0.0;
    }
  }

  /** A nonempty vector of positive counts, looked up in pairs keyed
      `0, 1, ...` whose IDF values are at least 1, takes no fallback: its
      norm is the square root of its sum of squared weights, which is at
      least 1. */
  lemma VectorNorm(tf: seq<(nat, nat)>, idf: map<nat, real>, pairs: seq<(nat, real)>, sqrt: real -> real)
    requires |tf| > 0
    requires forall j :: 0 <= j < |tf| ==> tf[j].0 in idf && tf[j].0 < |pairs| && tf[j].1 >= 1
    requires forall i :: 0 <= i < |pairs| ==> pairs[i].0 == i && i in idf && pairs[i].1 == idf[i] && pairs[i].1 >= 1.0
    ensures WeightSum(tf, pairs) >= 1.0
    ensures ChunkNorm(tf, idf, sqrt) == sqrt(WeightSum(tf, pairs))
  {
    NormSumMatches(tf, idf, pairs);
    WeightSumAtLeastOne(tf, pairs);
  }

  /** Chunk `k` takes no norm fallback when its vector is nonempty with
      positive counts and the document frequencies count the vectors
      holding each index below `len(vocab)`. */
  lemma NormFromCounts(tfs: seq<seq<(nat, nat)>>, df: map<nat, nat>, bound: nat, ln: real -> real, sqrt: real -> real, k: nat)
    requires Counted(tfs, df, bound)
    requires forall x: real :: x >= 1.0 ==> ln(x) >= 0.0
    requires k < |tfs| && |tfs[k]| > 0
    requires forall j :: 0 <= j < |tfs[k]| ==> tfs[k][j].1 >= 1
    ensures forall j :: 0 <= j < |tfs[k]| ==> tfs[k][j].0 < |IdfPairs(IdfValues(df, |tfs|, ln), bound)|
    ensures WeightSum(tfs[k], IdfPairs(IdfValues(df, |tfs|, ln), bound)) >= 1.0
    ensures ChunkNorm(tfs[k], IdfValues(df, |tfs|, ln), sqrt) ==
      sqrt(WeightSum(tfs[k], IdfPairs(IdfValues(df, |tfs|, ln), bound)))
  {
    var idf := IdfValues(df, |tfs|, ln);
    var ps := IdfPairs(idf, bound);
    IdfPairsFromCounts(tfs, df, bound, ln);
    IdfCoversVectors(tfs, df, bound, |tfs|, ln);
    forall i | 0 <= i < |ps|
      ensures i in idf && ps[i].1 == idf[i] && ps[i].1 >= 1.0
    {
      IdfAtLeastOne(ln, |tfs|, ChunksWith(tfs, i));
    }
    assert forall j :: 0 <= j < |tfs[k]| ==> tfs[k][j].0 < |ps|;
    VectorNorm(tfs[k], idf, ps, sqrt);
  }

  /** A chunk with at least five tokens takes no norm fallback when the
      pack's vectors and weights come from its tokens. */
  lemma NormOfFacts(tokenize: string -> seq<string>, p: Pack, ln: real -> real, sqrt: real -> real, k: nat)
    requires VectorFacts(tokenize, p) && WeightFacts(p, ln, sqrt)
    requires forall x: real :: x >= 1.0 ==> ln(x) >= 0.0
    requires k < |p.chunks| && |tokenize(p.chunks[k].text)| >= MinTokens
    ensures forall j :: 0 <= j < |p.chunks[k].tf| ==> p.chunks[k].tf[j].0 < |p.idfPairs|
    ensures WeightSum(p.chunks[k].tf, p.idfPairs) >= 1.0
    ensures p.chunks[k].norm == sqrt(WeightSum(p.chunks[k].tf, p.idfPairs))
  {
    var tf := p.chunks[k].tf;
    TfOfVectors(tokenize, p, k);
    assert |tf| > 0 by {
      assert SumCounts(tf) >= MinTokens;
    }
    NormFromCounts(TfsOf(p.chunks), DocFreq(TfsOf(p.chunks)), |p.vocab|, ln, sqrt, k);
  }

  /** With a logarithm that is not negative from 1 on, no chunk takes the
      `1.0` fallback: its norm is the square root of its sum of squared
      weights, and that sum is at least 1. */
  lemma BuildPackNorm(tokenize: string -> seq<string>, chunks: seq<string>, created: string, ln: real -> real, sqrt: real -> real, p: Pack, k: nat)
    requires BuildPack(tokenize, chunks, created, ln, sqrt) == Ok(p)
    requires forall x: real :: x >= 1.0 ==> ln(x) >= 0.0
    requires k < |p.chunks|
    ensures forall j :: 0 <= j < |p.chunks[k].tf| ==> p.chunks[k].tf[j].0 < |p.idfPairs|
    ensures WeightSum(p.chunks[k].tf, p.idfPairs) >= 1.0
    ensures p.chunks[k].norm == sqrt(WeightSum(p.chunks[k].tf, p.idfPairs))
  {
    BuildPackVectorFacts(tokenize, chunks, created, ln, sqrt, p);
    BuildPackWeightFacts(tokenize, chunks, created, ln, sqrt, p);
    BuildPackChunkTokens(tokenize, chunks, created, ln, sqrt, p);
    NormOfFacts(tokenize, p, ln, sqrt, k);
  }
}
