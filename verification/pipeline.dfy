/** The script's pipeline without its file I/O: the extracted PDF text is
    normalized, split into chunks, and the chunks are indexed. */
module Pipeline {
  import opened Text
  import opened Normalize
  import opened Segment
  import opened Tokenizer
  import opened Pack

  /** The entries kept from a list of segments are segments too. */
  lemma KeptChunks(tokenize: string -> seq<string>, chunks: seq<string>, es: seq<ChunkEntry>)
    requires forall k :: 0 <= k < |chunks| ==> IsChunk(chunks[k])
    requires TextsOf(es) == Filter(chunks, SurvivalTest(tokenize))
    ensures forall k :: 0 <= k < |es| ==> IsChunk(es[k].text)
  {
    var texts := TextsOf(es);
    forall k | 0 <= k < |es|
      ensures IsChunk(es[k].text)
    {
      assert texts[k] in texts;
      var i :| 0 <= i < |chunks| && chunks[i] == texts[k];
    }
  }

  /** `build_pack(split_chunks(normalize_text(raw_text)))`. Every chunk of
      the pack is a segment of the normalized text: at least five words,
      trimmed and single-spaced. */
  function PackFromText(raw: string, created: string, ln: real -> real, sqrt: real -> real): (r: Result<Pack>)
    ensures r.Err? <==> forall c :: c in SplitChunks(NormalizeText(raw)) ==> !Survives(Tokenize, c)
    ensures r.Ok? ==> forall k :: 0 <= k < |r.value.chunks| ==> IsChunk(r.value.chunks[k].text)
  {
    var chunks := SplitChunks(NormalizeText(raw));
    var r := BuildPack(Tokenize, chunks, created, ln, sqrt);
    if r.Ok? then
      KeptChunks(Tokenize, chunks, r.value.chunks);
      r
    else r
  }
}
