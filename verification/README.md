# TF-IDF resume pack builder, modelled in Dafny

`scripts/make_pack.py` turns the text extracted from a resume PDF into a
small JSON "pack" that a browser-side retrieval chatbot loads. The script
works in four stages: normalizing, chunking, tokenizing and building the
pack. The modules follow the stages, except that pack building is split
over two modules and a last module chains the stages together:

- **Normalize** (`normalize.dfy`) models `normalize_text`. It replaces
  CR LF, turns bullet glyphs and Unicode dashes into `-`, removes spaces and
  tabs before a newline, caps runs of newlines at two, and rewrites line-start
  hyphens to `"- "`. It then drops every non-ASCII character, repairs three
  icon-glyph artifacts and strips the result.
- **Segment** (`segment.dfy`) models `split_chunks` as a state machine over
  the lines of the text. An accumulator of stripped lines is flushed on a
  blank line, before a line starting with `-`, and at the end. A flushed
  accumulator becomes a chunk only if it has at least five words.
- **Tokenizer** (`tokenize.dfy`) models `STOPWORDS`, `TOKEN_PATTERN` and
  `tokenize`. The pattern's matches are found leftmost-longest on the
  lower-cased text. All-digit matches and stopwords are then dropped.
- **Vocab** (`vocab.dfy`) and **Pack** (`pack.dfy`) model `build_pack`:
  - chunks with fewer than five tokens are dropped;
  - the vocabulary is sorted and indexed;
  - each chunk gets a `(index, count)` vector built from a Counter;
  - document frequencies and IDF values are computed per index;
  - `idf_pairs` and the chunk entries are assembled.
- **Pipeline** (`pipeline.dfy`) chains `normalize_text`, `split_chunks`
  and `build_pack` as `main` does, without the file I/O.

`text.dfy` holds the Python string primitives the stages share:
- `str.isspace`, `str.strip` and `str.split`;
- `str.replace`, related to `str.split(pat)` and `sep.join` by an identity
  that holds for a non-empty pattern, and `re.sub(r"\s{2,}", " ", ...)`;
- a generic order-keeping filter, element counts and the subsequence relation.

Every function is pure. Floating-point values are `real`s. `math.log` and
`math.sqrt` are parameters `ln` and `sqrt` of `BuildPack`, and so is the
creation timestamp. `BuildPack` also takes the tokenizer as a parameter
`tokenize`, so its properties hold for any tokenizer; `Pipeline` passes
`Tokenizer.Tokenize`, as the script does.

Where the script's documented behaviour and its code differ, the model
follows the code:
- Only the two-character sequence CR LF is replaced. A lone CR stays, and
  `splitlines` treats it as a line break.
- The newline clean-ups run before the ASCII filter. A non-ASCII character
  that sat alone on a line disappears afterwards, which can leave three
  newlines in a row. `NormalizeExamples.DroppedGlyphRejoinsBlankLines`
  exhibits such an input.
- A chunk is cut before any stripped line that starts with `-`, not only
  before `"- "`.
- `BULLET_CHARS` contains U+FE0E (VARIATION SELECTOR-15) after the second
  U+25AA. That character is replaced by `-` like the bullets.

## Model

| member | source | states |
|---|---|---|
| Text.Strip | scripts/make_pack.py:85 | `str.strip()`: the result has no whitespace at either end. A trimmed input is unchanged. |
| Text.StripSlice | scripts/make_pack.py:85 | `str.strip()` returns the slice of the input between its leading and trailing whitespace runs. Everything cut off on either side is whitespace. With Strip's trimmed result, this determines the result. |
| Text.StripIdempotent | scripts/make_pack.py:104 | Stripping twice is stripping once. |
| Text.Replace | scripts/make_pack.py:73 | `str.replace`: every character of the result comes from the input or the replacement. Without an occurrence of the pattern the input is unchanged. |
| Text.SplitOn | scripts/make_pack.py:73 | `str.split(pat)`: the first piece is a prefix of the text that stops before the leftmost occurrence of the pattern. With a single piece, that piece is the whole text. No piece contains the pattern. |
| Text.SplitOnLeftmost | scripts/make_pack.py:73 | The pieces split the text at the leftmost, non-overlapping occurrences of the pattern: each first piece stops before the leftmost occurrence, and the rest split what follows it. |
| Text.LeftmostSplitUnique | scripts/make_pack.py:73 | Only one list of pieces splits a text that way, so `str.split(pat)` is fully determined, for self-overlapping patterns too. |
| Text.SplitOnOverlapping | scripts/make_pack.py:73 | `"aaa".split("aa") == ["", "a"]`: the leftmost match wins. |
| Text.SplitOnJoin | scripts/make_pack.py:73 | `pat.join(s.split(pat)) == s`: joining the pieces with the pattern gives the text back. |
| Text.ReplaceIsJoin | scripts/make_pack.py:73 | An identity that holds for a non-empty pattern: `s.replace(pat, rep) == rep.join(s.split(pat))`. |
| Text.ReplaceRemoves | scripts/make_pack.py:82-84 | Take a replacement that is non-empty, holds no copy of the pattern, and whose first and last characters are not in the pattern. Then no occurrence of the pattern is left. |
| Text.ReplaceKeepsNoOccurrence | scripts/make_pack.py:82-84 | The same kind of replacement, safe for another string `q`, creates no `q` in a text that had none. |
| Text.Words | scripts/make_pack.py:99 | `str.split()`: every word is non-empty and contains no whitespace. |
| Text.WordsCoverNonSpace | scripts/make_pack.py:99 | The words, concatenated, are exactly the non-whitespace characters of the input, in order. |
| Text.WordsSingle | scripts/make_pack.py:99 | A non-empty string without whitespace is exactly one word. |
| Text.WordsSplit | scripts/make_pack.py:99 | A whitespace character splits the words: `(a + c + b).split() == a.split() + b.split()`. With WordsSingle, this determines `str.split()` and so the word count `flush` tests. |
| Text.WordsCollapse | scripts/make_pack.py:98-99 | Collapsing whitespace runs keeps the words, so the count `flush` tests is that of the joined lines. |
| Text.CollapseSpaces | scripts/make_pack.py:98 | `re.sub(r"\s{2,}", " ", s)`: no two whitespace characters are adjacent. The result is empty iff the input is. Whether the first and last characters are whitespace is preserved. |
| Text.CollapseKeepsNonSpace | scripts/make_pack.py:98 | Collapsing whitespace keeps every non-whitespace character, in order. |
| Text.CollapseSpacesRun | scripts/make_pack.py:98 | A maximal run of two or more whitespace characters becomes exactly one space `" "`; a lone whitespace character is kept as it is; collapsing goes on after the run. |
| Text.CollapseSpacesCons | scripts/make_pack.py:98 | A non-whitespace character is copied unchanged and collapsing goes on after it. |
| Text.CollapseSpacesPairExample | scripts/make_pack.py:98 | A space followed by a tab between two words becomes a single space. |
| Text.CollapseSpacesLoneExample | scripts/make_pack.py:98 | A single tab between two words is left as a tab. |
| Text.FilterIsSubsequence | scripts/make_pack.py:130-133 | A filter's result is a subsequence of its input. Each value occurs in it as often as in the input if it passes the test, otherwise never. |
| Normalize.ReplaceEach | scripts/make_pack.py:74-77 | Replacing each listed character: the result has none of them (when the replacement has none) and gains no new characters. Input without them is unchanged. |
| Normalize.ReplaceEachPointwise | scripts/make_pack.py:74-77 | With the one-character replacement `-`, the length is kept. Each listed character becomes `-` in place, and every other character stays where it was. |
| Normalize.DropTrailingBlanks | scripts/make_pack.py:78 | No space or tab is left directly before a newline. |
| Normalize.DropTrailingBlanksKeepsText | scripts/make_pack.py:78 | Only spaces and tabs are removed: the other characters remain, in order. |
| Normalize.DropTrailingBlanksFixesNormal | scripts/make_pack.py:78 | Text with no blank before a newline is left unchanged. |
| Normalize.DropTrailingBlanksLocal | scripts/make_pack.py:78 | A character that is neither blank nor a newline stays in place, and the text on each side of it is rewritten independently. Blanks not followed by a newline are therefore kept. |
| Normalize.DropTrailingBlanksRun | scripts/make_pack.py:78 | A maximal run of spaces and tabs is deleted when a newline follows it and kept otherwise. |
| Normalize.CollapseNewlines | scripts/make_pack.py:79 | No three newlines remain in a row. |
| Normalize.CollapseNewlinesKeepsText | scripts/make_pack.py:79 | Only newlines are removed: the other characters remain, in order. |
| Normalize.CollapseNewlinesFixesNormal | scripts/make_pack.py:79 | Text without three newlines in a row is left unchanged. |
| Normalize.CollapseNewlinesLocal | scripts/make_pack.py:79 | A character other than a newline stays in place, and the text on each side of it is rewritten independently. |
| Normalize.CollapseNewlinesRun | scripts/make_pack.py:79 | A maximal run of `n` newlines becomes exactly two when `n >= 3` and is kept when `n < 3`. |
| Normalize.NormalizeBullets | scripts/make_pack.py:80 | After the rewrite, every line-start hyphen is followed by exactly one space and then a non-whitespace character or the end. |
| Normalize.NormalizeBulletsKeepsText | scripts/make_pack.py:80 | The rewrite changes only whitespace: the non-whitespace characters remain, in order. |
| Normalize.NormalizeBulletsFixesNormal | scripts/make_pack.py:80 | Text already in that form is left unchanged. |
| Normalize.NormalizeBulletsLocal | scripts/make_pack.py:80 | A character other than whitespace and `-` stays in place, and the text on each side of it is rewritten independently. Whitespace away from line-start hyphens is therefore kept. |
| Normalize.NormalizeBulletsMarker | scripts/make_pack.py:80 | A newline, a hyphen and all the whitespace after it become exactly `"\n- "`. |
| Normalize.DropNonAscii | scripts/make_pack.py:81 | The ASCII encode with `ignore`: the result is all ASCII and is a subsequence of the input. Each ASCII character occurs in it exactly as often as in the input, and no other character occurs. ASCII input is unchanged. |
| Normalize.ApplyLabels | scripts/make_pack.py:82-84 | The glyph repairs keep ASCII text ASCII. Text shorter than every pattern is unchanged. |
| Normalize.ApplyLabelsRemoves | scripts/make_pack.py:82-84 | When no label can form or complete a pattern, none of the table's patterns is left after the repairs. |
| Normalize.GlyphLabelsSafe | scripts/make_pack.py:82-84 | The three icon-glyph labels cannot form or complete any of the three broken glyph names. |
| Normalize.NormalizeText | scripts/make_pack.py:71-85 | The normalized text is entirely ASCII and has no leading or trailing whitespace. None of the broken icon names (`ap-arker-alt`, `/envelpe`, `phone-alt`) is left in it. |
| NormalizeExamples.DroppedGlyphRejoinsBlankLines | scripts/make_pack.py:78-81 | For `"x\n\né\ny"`, normalizing yields `"x\n\n\ny"`, which has three newlines in a row. |
| Segment.SplitLines | scripts/make_pack.py:90 | `str.splitlines()`: no line contains a line break. There are no lines iff the text is empty. |
| Segment.SplitLinesJoin | scripts/make_pack.py:90 | For text whose only breaks are `\n` and that does not end in one, joining the lines with `\n` gives the text back. |
| Segment.SplitLinesCrLf | scripts/make_pack.py:90 | CR LF ends one line: the break-free text before it is the next line and splitting resumes after the LF, so no empty line appears between. |
| Segment.SplitLinesBreak | scripts/make_pack.py:90 | Every other line break (LF, a CR not followed by LF, VT, FF, U+001C-U+001E, U+0085, U+2028, U+2029) ends one line on its own, and splitting resumes right after it. So a final break adds no empty line. |
| Segment.SplitLinesLast | scripts/make_pack.py:90 | A non-empty tail without a break is the last line. |
| Segment.SplitLinesExamples | scripts/make_pack.py:90 | `"x\r\ny"` and `"x\ry\n"` both split into the lines `x` and `y`. |
| Segment.RenderShape | scripts/make_pack.py:97-98 | The text `flush` builds is trimmed and single-spaced. |
| Segment.Flush | scripts/make_pack.py:94-101 | `flush` always clears the accumulator and keeps the earlier chunks. It appends exactly one chunk iff the accumulator is non-empty and its text has at least five words. An under-length accumulator is dropped. |
| Segment.StepExtends | scripts/make_pack.py:103-110 | One loop iteration only appends chunks: the earlier chunks stay as they were. |
| Segment.StepValid | scripts/make_pack.py:103-110 | One loop iteration keeps the invariant. The invariant: the accumulator holds non-empty stripped lines, only its first line may start with `-`, and every emitted string is a chunk. |
| Segment.Run | scripts/make_pack.py:103-110 | The whole loop only extends the emitted chunks. |
| Segment.RunValid | scripts/make_pack.py:103-110 | The whole loop keeps the invariant. |
| Segment.SplitChunks | scripts/make_pack.py:88-112 | Every returned chunk has at least five words, no leading or trailing whitespace and no two adjacent whitespace characters. |
| Segment.BlankLineEndsChunk | scripts/make_pack.py:105-107 | Chunking lines with a blank line between `a` and `b` equals chunking `a` and `b` separately and concatenating. |
| Segment.DashLineStartsChunk | scripts/make_pack.py:108-109 | A line starting with `-` begins a new segment: chunking `a + [dash] + b` equals chunking `a`, then `[dash] + b`. |
| Segment.RunParagraph | scripts/make_pack.py:104-110 | Lines that are neither blank nor dash-led are appended, stripped, to the accumulator, and no chunk is emitted. |
| Segment.ParagraphIsOneChunk | scripts/make_pack.py:103-111 | A non-blank first line followed by lines that are neither blank nor dash-led yields exactly one chunk, their rendered text, or none when it has fewer than five words. |
| Tokenizer.Lower | scripts/make_pack.py:117 | Lower-casing keeps the length. Each character maps to its lower-case form, which is never an ASCII capital. |
| Tokenizer.MatchLength | scripts/make_pack.py:36 | A match of `[A-Za-z0-9]+(?:'[A-Za-z0-9]+)?` at an alphanumeric has token shape and is the longest token-shaped prefix: no longer prefix has token shape. It is not followed by an alphanumeric. |
| Tokenizer.Matches | scripts/make_pack.py:117-118 | `finditer`: every match has token shape. The matches are slices of the text, in order and not overlapping. They are what a leftmost-greedy scan finds: non-alphanumerics are passed over, and at every alphanumeric the scan reaches, the match is the longest token-shaped prefix. Input without capitals gives matches without capitals. |
| Tokenizer.LeftmostGreedyUnique | scripts/make_pack.py:117-118 | A leftmost-greedy scan has exactly one outcome, so `finditer`'s matches are fully determined. |
| Tokenizer.MatchesKeepsContraction | scripts/make_pack.py:36 | `"don't"` is a single match, not `"don"` and `"t"`. |
| Tokenizer.MatchesCoverAlnum | scripts/make_pack.py:117-118 | The matches together contain every alphanumeric character of the text, in order: no match is skipped. |
| Tokenizer.Tokenize | scripts/make_pack.py:115-124 | Every token has token shape, is not all digits, is not a stopword and has no capitals. The tokens are a subsequence of the matches of the lower-cased text. Each string occurs as often as among the matches if it is kept, else never. |
| Vocab.LessTotal | scripts/make_pack.py:142 | Python's string order is total on distinct strings. |
| Vocab.LessTransitive | scripts/make_pack.py:142 | Python's string order is transitive. |
| Vocab.SortedSet | scripts/make_pack.py:142 | `sorted(set(xs))` is strictly increasing and holds exactly the elements of `xs`. |
| Vocab.SortedUnique | scripts/make_pack.py:142 | Two strictly increasing sequences with the same elements are equal, so the vocabulary is uniquely determined. |
| Vocab.IndexMap | scripts/make_pack.py:143 | `token_to_index` is defined exactly on the vocabulary, with `vocab[index[t]] == t` and `index[vocab[i]] == i`. |
| Vocab.Distinct | scripts/make_pack.py:148 | The keys of `Counter(tokens)` are duplicate-free and are exactly the tokens that occur. |
| Vocab.DistinctCountsSum | scripts/make_pack.py:148 | The counts of a Counter add up to the number of tokens counted. |
| Vocab.SortPairs | scripts/make_pack.py:157 | Sorting pairs with distinct indices gives strictly increasing indices and the same pairs with the same count total. |
| Vocab.CountPairsFacts | scripts/make_pack.py:148-153 | The unsorted `(index, count)` pairs of a chunk have distinct indices below `len(vocab)` and exact positive counts, include every token's pair, and sum to the number of tokens. |
| Vocab.TfVector | scripts/make_pack.py:147-157 | A chunk's vector has strictly increasing indices below `len(vocab)` and exact positive counts. Every token appears with its index and count. The counts sum to the number of tokens. |
| Pack.BuildPack | scripts/make_pack.py:127-192 | Fails iff no chunk has at least five tokens. Otherwise the pack has the fixed schema and source tags and the given timestamp. Its chunk texts are exactly the surviving input chunks, in order. |
| Pack.BuildPackChunks | scripts/make_pack.py:128-136 | The chunk texts are a subsequence of the input. Each input text appears as often as in the input if it survives, else never. |
| Pack.BuildPackChunkTokens | scripts/make_pack.py:128-133 | Every pack chunk has at least five tokens. |
| Pack.BuildTables | scripts/make_pack.py:138-157 | The counting half of `build_pack`: the vocabulary is strictly increasing and holds exactly the chunks' tokens; each vector is the chunk's term-frequency vector; the vectors have distinct indices below `len(vocab)` and together hold every index; `doc_freq` has exactly the keys below `len(vocab)` and counts the chunks holding each. |
| Pack.BuildPackVocab | scripts/make_pack.py:138-142 | `vocab` is strictly increasing and holds exactly the tokens of the pack's chunks. |
| Pack.TfVectorMeaning | scripts/make_pack.py:147-157 | Read through the vocabulary, a vector lists each token of the chunk once with its exact count, by increasing index, and its counts sum to the number of tokens. |
| Pack.BuildPackTf | scripts/make_pack.py:146-157 | For every chunk: the `tf` indices are strictly increasing and below `len(vocab)`; each count is at least 1 and equals the occurrences of `vocab[idx]` among the chunk's tokens; every token has an entry; the counts sum to the token count. |
| Pack.DfAddCounts | scripts/make_pack.py:150-156 | One chunk adds 1 to the document frequency of exactly the indices its vector holds. |
| Pack.DocFreqCounts | scripts/make_pack.py:145-156 | `doc_freq[idx]` equals the number of chunks whose vector holds `idx`, and its keys are exactly the indices some chunk holds. |
| Pack.ChunksWithBounds | scripts/make_pack.py:145-156 | That number is at most the number of chunks. It is positive iff some chunk holds the index. |
| Pack.DocFreqKeys | scripts/make_pack.py:145-156 | When every index below `len(vocab)` is held by some vector and none above, the keys of `doc_freq` are exactly `0 .. len(vocab)-1`. |
| Pack.IdfPairsFromCounts | scripts/make_pack.py:159-165 | From document frequencies that count the vectors holding each index, `idf_pairs` has one pair per index, in order, each the IDF of a count between 1 and N. |
| Pack.BuildPackIdf | scripts/make_pack.py:159-165 | `idf_pairs` has one pair per vocabulary index, with keys `0 .. len(vocab)-1` in order. Pair `i` carries the IDF of a document frequency between 1 and N that counts the chunks holding `i`. |
| Pack.IdfPairs | scripts/make_pack.py:165 | The pairs are strictly increasing by index, each carrying its index's IDF value. No key below the bound is lost. |
| Pack.IdfPairsFull | scripts/make_pack.py:165 | When the keys are exactly `0 .. n-1`, the pairs are keyed `0, 1, ..., n-1` in order. |
| Pack.IdfRatioBounds | scripts/make_pack.py:162 | For document frequencies `df <= df' <= N`, `(1+N)/(1+df) >= (1+N)/(1+df') >= 1`. |
| Pack.IdfAtLeastOne | scripts/make_pack.py:162 | With a logarithm that is non-negative from 1 on, every IDF is at least 1. |
| Pack.IdfNonIncreasing | scripts/make_pack.py:162 | With a non-decreasing logarithm, a larger document frequency never gives a larger IDF. |
| Pack.VectorNorm | scripts/make_pack.py:169-175 | A nonempty vector of positive counts whose IDF values are at least 1 has a sum of squared weights of at least 1, and its norm is the square root of that sum. |
| Pack.NormFromCounts | scripts/make_pack.py:159-175 | With a logarithm that is non-negative from 1 on, a chunk with a nonempty vector of positive counts never takes the 1.0 fallback. |
| Pack.BuildPackNorm | scripts/make_pack.py:167-175 | With a logarithm that is non-negative from 1 on, every chunk's sum of squared weights, read through `idf_pairs`, is at least 1. Its norm is the square root of that sum, so the 1.0 fallback is never used. |
| Pipeline.PackFromText | scripts/make_pack.py:214-217 | The pipeline fails iff no segment of the normalized text has five tokens. Otherwise every chunk of the pack has at least five words, is trimmed and is single-spaced. |

## Left out

- `load_pdf_text` (scripts/make_pack.py:41-68) is not modelled: it calls PDF libraries and handles their import errors. The model starts from the extracted text.
- `write_pack`, `parse_args` and the argument checks and printing of `main` are not modelled. They are file and console I/O.
- The `created` timestamp is a parameter of `BuildPack`, because it reads the clock.
- Floating point is not modelled. `math.log` and `math.sqrt` are parameters over `real`, and sums are exact rather than rounded.
- Pack.BuildPackNorm and Pack.IdfAtLeastOne: both assume the supplied logarithm is non-negative from 1 on, which the real `math.log` satisfies. Pack.IdfNonIncreasing assumes it is non-decreasing.
- Tokenizer.Lower: only maps `A`-`Z` to `a`-`z`. Python's `str.lower()` also maps some non-ASCII characters to ASCII letters (U+212A KELVIN SIGN becomes `k`, U+0130 becomes `i` plus a combining dot). In the pipeline the input is already ASCII, so this does not arise there.
- Text.Replace: requires a non-empty pattern. Python's `str.replace` with an empty pattern inserts the replacement between characters, but every call site uses a non-empty pattern.
- Text.SplitOn: requires a non-empty pattern, as Python's `str.split` does (it raises `ValueError` for an empty separator). It exists only to characterise `replace`.
- Pack.IdfPairs: sorts the keys of `idf_values` by scanning the indices below `len(vocab)`, not by a general sort. Pack.DocFreqKeys proves that the keys of `doc_freq` are exactly the indices below `len(vocab)`, so the scan drops nothing.
- The regular expressions are modelled as one explicit function per pattern, not through a regex engine. The failure `SystemExit` message is modelled by the single error value `NoUsableChunks`.
- The JSON shapes (`tf` as lists of two-element lists, the key names) are datatype fields here.
