# classi-cine core, modelled in Dafny

classi-cine sorts a video collection into a playlist by learning from the
user's choices. Each file path is turned into tokens, token n-grams are
counted, and a classifier scores unseen files. The user's positive and
negative choices are stored in an M3U playlist. This project models the
text and data core of that pipeline and proves properties of it:

- `normalize` (normalize.dfy): lower-cases a path, replaces every run of
  other characters with one space, drops apostrophes, and keeps single
  separators.
- Lexical path normalisation (path.dfy): `.` and `..` are removed without
  touching the file system. The absolute-path wrapper `AbsPath` and its
  display relative to a base directory are modelled too.
- The 128-bit Bloom filter (bloom.dfy). Each `Tokens` value carries one to
  skip strings that cannot contain a pair.
- Token maps and token sequences (tokens.dfy): creating, looking up and
  merging tokens, the adjacent non-special pairs of a sequence, and the
  rewrite of one pair into its merged token.
- The pair-merge tokenizer (tokenize.dfy), covering:
  - sharded pair counts;
  - training, which repeatedly merges the most frequent pair until its
    count falls below `max(2, floor(log2(n + 1)))`;
  - encoding a new string with the learned merges.
- N-grams (ngrams.dfy): hashed windows of 1 to `w` tokens, stored sorted
  and without duplicates. Also counting over many paths, keeping the
  n-grams that at least two paths yield.
- The older word/character tokenizer (tokenizer.dfy). It interns token
  strings and token windows that occur in more than one file.
- The M3U playlist (playlist.dfy): opening an existing or new file, the
  header check, reading positive and `#NEGATIVE:` lines, and appending
  entries as paths relative to the playlist's directory.

Pure code is modelled as functions with lemmas. Loops are methods proved
against those functions. Objects whose fields the source updates are
classes: `Bloom`, `TokenMap`, `PairCounts`, `Ngrams`, the legacy
`Tokenizer` and `M3uPlaylist`. Characters are ASCII (chars.dfy). Option
and Result live in wrappers.dfy.

## Model

| member | source | states |
|---|---|---|
| BloomFilter.Mask | src/bloom.rs:29-31 | The mask of a hash fits in 128 bits. |
| BloomFilter.MaskSingleBit | src/bloom.rs:29-31 | A mask has exactly one bit set, and that bit is `hash % 128`. This is the power-of-two property of the test at bloom.rs:55-58. |
| BloomFilter.CoversIsAbsorption | src/bloom.rs:37-40 | `(bits & m) == m` holds exactly when or-ing `m` into `bits` changes nothing. |
| BloomFilter.BloomOf | src/bloom.rs:33-35 | The filter after setting a list of hashes fits in 128 bits. |
| BloomFilter.BloomOfBits | src/bloom.rs:33-35 | Bit `i` is set iff some hash in the list is `i` modulo 128. |
| BloomFilter.BloomOfCovers | src/bloom.rs:33-40 | No false negatives: the filter contains the mask of every hash that was set. |
| BloomFilter.SupersetCovers | src/bloom.rs:37-40 | A filter built from a superset of hashes contains the filter of the subset. |
| BloomFilter.Bloom.constructor | src/bloom.rs:6-7 | `Bloom::default()` has no bit set. |
| BloomFilter.Bloom.Set | src/bloom.rs:33-35 | The bits become the old bits plus the mask. The mask is then contained, everything contained before stays contained, and the bits still fit in 128. |
| BloomFilter.Bloom.Contains | src/bloom.rs:37-40 | True exactly when every bit of the mask is set. |
| BloomFilter.ExampleSubset | src/bloom.rs:84-95 | A filter of hashes 1, 2, 3 contains the filter of 1, 2. |
| BloomFilter.ExampleNotSuperset | src/bloom.rs:96 | The filter of 1, 2 does not contain that of 1, 2, 3 when the third hash lands on a new bit. |
| Chars.Lower | src/normalize.rs:12 | Lower-casing keeps the length and maps every character through `ToLower`. |
| Chars.LowerIdempotent | src/normalize.rs:12 | Lower-casing twice is lower-casing once. |
| Normalize.Normalize | src/normalize.rs:11-34 | The loop's result is `Normalized(file)`: lower-case, the per-character step, and the final pop of a trailing space. The result is well formed. |
| Normalize.NormalizedWellFormed | src/normalize.rs:12-32 | Every output holds only lower-case alphanumerics, spaces and separators. It has no leading or trailing space and no two marks (space or separator) side by side. |
| Normalize.Idempotent | src/normalize.rs:3-8 | Normalising a normalised path changes nothing. |
| Normalize.KeepsAlnums | src/normalize.rs:20-21 | The alphanumerics of the output are exactly those of the lower-cased input, in order. |
| Normalize.ApostrophesDropped | src/normalize.rs:22 | Removing all apostrophes from the input does not change the output. |
| Normalize.ExampleMinimal | src/normalize.rs:53-57 | `""` gives `""` and `"a"` gives `"a"`. |
| Normalize.ExampleOnlyMarks | src/normalize.rs:77 | `"***"` gives `""`. |
| Normalize.ExampleOnlySeparators | src/normalize.rs:78 | `"///"` gives `"/"`. |
| Normalize.ExampleApostrophe | src/normalize.rs:102-105 | `"it's"` gives `"its"`. |
| Normalize.ExampleTests | src/normalize.rs:41-104 | The expected outputs of the ASCII unit tests: special characters (43-44), repeated separators and marks (61-64), a trailing mark before a separator (84-85), mixed case (91), extensions (97-98) and apostrophes (104). |
| Normalize.LongPath | src/normalize.rs:68-73 | For any word repeated `n` times after a separator, followed by `name.ext`, only the dot becomes a space. |
| Normalize.ExampleLongPath | src/normalize.rs:68-73 | `"/path"` repeated 100 times plus `"file.mp4"` gives the same prefix plus `"file mp4"`. |
| Paths.NormalizePath | src/path.rs:5-23 | The stack loop returns `Resolve(path)`. The result has no `.` or `..` and is a subsequence of the input's components. |
| Paths.ResolveEmbeds | src/path.rs:7-17 | Normalisation only removes components: the result embeds in the input in order. |
| Paths.ResolveNoDots | src/path.rs:9-15 | No `.` or `..` survives normalisation. |
| Paths.ResolveOntoNoDots | src/path.rs:15 | Components without dots are pushed unchanged. |
| Paths.ResolveKeepsBase | src/path.rs:10-13 | `..` never pops a root or a prefix, so the first component stays. |
| Paths.ResolveAbsolute | src/path.rs:5-23 | An absolute path stays absolute, and with its root first it becomes a normalised absolute path. |
| Paths.Idempotent | src/path.rs:5-23 | Normalising twice is normalising once. |
| Paths.PushLast | src/path.rs:7-17 | The loop over `p + [c]` is the loop over `p` followed by one step for `c`. |
| Paths.ExampleParentOfName | src/path.rs:95-96 | `/non/existing/../path.txt` gives `/non/path.txt`. |
| Paths.ExampleRelative | src/path.rs:99-100 | `test/../file.txt` gives `file.txt`. |
| Paths.ExampleMixed | src/path.rs:103-104 | `/a/b/../c/./d/../../e` gives `/a/e`. |
| Paths.ExampleTrailing | src/path.rs:106-108 | `a/b/` has the components of `a/b` and normalises to itself. |
| Paths.ExampleNoEscape | src/path.rs:10-13 | `..` at the root or at the start of a relative path is dropped. |
| Paths.FromAbsPath | src/path.rs:30-33 | The input must be absolute (the source asserts it). The result is its normalisation: absolute, without dots, and canonical when the input's names are proper. |
| Paths.BuildContext | src/path.rs:72-75 | The base must be absolute. The context is relative to its normalisation. |
| Paths.CommonPrefix | src/path.rs:39-40 | The longest common prefix of two paths: the paths agree on it and differ right after it. |
| Paths.Ups | src/path.rs:39-40 | `n` parent components. |
| Paths.RelativizeJoin | src/path.rs:39-40 | The relative path from a base to a path is not absolute, and joining it onto the base and normalising gives the path back. |
| Paths.RelativizePlain | src/path.rs:39-41 | Between normalised absolute paths with valid names, the relative path is plain: `..` components then names. |
| Paths.Split | src/path.rs:41 | Cutting text at separators gives at least one piece. |
| Paths.ParseRender | src/path.rs:41 | A plain relative path rendered as text parses back to itself. |
| Paths.ParseRenderAbsolute | src/path.rs:37 | A normalised absolute path with valid names rendered as text parses back to itself. |
| Paths.ParseComponents | src/path.rs:7 | Parsed text has the shape `Path::components` yields, and it is absolute exactly when the text starts with a separator. |
| Paths.JoinComponents | src/path.rs:103 | Joining parsed text onto a canonical base keeps the root first and the names proper. |
| Paths.ToTextReadsBack | src/path.rs:35-44 | The absolute display parses back to the path. The relative display parses to a relative path that, joined onto the base and normalised, gives the path back. |
| Tokens.PairMask | src/tokens.rs:12-16 | A pair's mask is the Bloom mask of its hash. This row records the stand-in hash. |
| Tokens.TokenMap.constructor | src/tokens.rs:127-146 | `<UNK>` is created first. Each special character gets a token that is recorded in order. With distinct special characters the specials are `0..n`. The table's strings are exactly `<UNK>` and the special characters. |
| Tokens.TokenMap.AddSpecials | src/tokens.rs:140-143 | The loop over the special characters records one special per character, with that character's token. The table's strings become the old ones plus exactly the one-character strings of the special characters. |
| Tokens.TokenMap.PushSpecial | src/tokens.rs:141-142 | The character's existing token or a new one is appended to the specials. |
| Tokens.TokenMap.CreateToken | src/tokens.rs:152-165 | The new token is the current size of the map. Both maps gain the entry and nothing else changes. The source's assert that the string is new is a precondition. |
| Tokens.TokenMap.GetOrCreateToken | src/tokens.rs:167-173 | An existing string keeps its token, otherwise a new token is created. The invariant that the two maps are inverse is kept. |
| Tokens.TokenMap.Merge | src/tokens.rs:175-182 | The concatenated spelling gets the next token, which is above every special and leaves old tokens unchanged. When the spelling already exists (where the source panics) the result is `None` and nothing changes. |
| Tokens.TokenMap.GetToken | src/tokens.rs:184-186 | A known string gives its token, and any other string gives 0 (`<UNK>`). |
| Tokens.TokenMap.GetStr | src/tokens.rs:188-190 | `Some` exactly for known tokens, holding their string. |
| Tokens.TokenMap.LookupsInverse | src/tokens.rs:184-190 | In a valid table the two lookups undo each other: a known token's string looks up that token, a known string's token spells that string, an unknown string spells `<UNK>`, and `get_token` gives 0 exactly for unknown strings and `<UNK>` itself. |
| Tokens.PairsIff | src/tokens.rs:98-108 | A pair is yielded iff it occurs adjacently and both its tokens are above the last special. |
| Tokens.ContainsEveryPair | src/tokens.rs:86-88 | A filter computed from the current tokens reports every yielded pair. |
| Tokens.CalcBloom | src/tokens.rs:25-31 | The filter is the one computed from the pairs of the tokens. |
| Tokens.CharStringsIff | src/tokens.rs:37-41 | A string is one of the one-character strings of `s` exactly when it is `[s[j]]` for some position `j`. |
| Tokens.FromStrAndCreate | src/tokens.rs:33-44 | Every character gets a token, existing tokens keep their strings, and the tokens spell the input back. The table's strings become the old ones plus exactly the input's one-character strings. |
| Tokens.FromStrOrUnknown | src/tokens.rs:46-57 | One token per character, 0 exactly for characters not in the map. When all characters are known the tokens spell the input back. |
| Tokens.DecodeAppend | src/tokens.rs:110-116 | The text of a concatenation is the concatenation of the texts. |
| Tokens.ReplaceLength | src/tokens.rs:66-83 | The rewrite shortens the sequence by the number of replacements. |
| Tokens.ReplacementsOccurs | src/tokens.rs:83 | At least one replacement happens iff the pair occurs adjacently. |
| Tokens.ReplaceAbsent | src/tokens.rs:66-81 | A sequence without the pair is unchanged. |
| Tokens.ReplaceDecode | src/tokens.rs:74 | When the merged token spells the pair, the rewrite keeps the text. |
| Tokens.ReplaceKeepsSpecials | src/tokens.rs:102 | Merging non-special tokens leaves the count of every special token unchanged. |
| Tokens.SkipIsSound | src/tokenize.rs:207-209 | When the filter does not report the pair, the rewrite would change nothing, so skipping the string is sound. |
| Tokens.ReplaceLoop | src/tokens.rs:66-81 | The index loop computes `Replace`, merging left to right without overlaps. |
| Tokens.ReplaceAt | src/tokens.rs:69-80 | One loop step: the pair at `i` becomes the merged token, otherwise the token at `i` is copied. |
| Tokens.FromReplace | src/tokens.rs:59-84 | The tokens are the rewrite and the filter is current. `changed` is true iff the pair occurs, and the length drops by the number of replacements. |
| Tokenize.MapUpdatePair | src/tokenize.rs:17-34 | The count of `p` moves by `delta` and no other count changes. A count reaching 0 removes the key, and a new key gets `delta`. |
| Tokenize.UpdatePairExample | src/tokenize.rs:262-269 | Adding 3 then -3 leaves the pair absent. |
| Tokenize.UpdateAll | src/tokenize.rs:155-162 | Updating every pair of a list by ±1 moves each count by its multiplicity, and keeps no zero entries. |
| Tokenize.MapMaxCount | src/tokenize.rs:75-77 | `None` iff the map is empty. Otherwise the greatest `(count, pair)` of the map. |
| Tokenize.ShardIndex | src/tokenize.rs:64-71 | The shard index is below the shard count. |
| Tokenize.PairCounts.constructor | src/tokenize.rs:52-60 | One empty shard per CPU. |
| Tokenize.PairCounts.UpdatePair | src/tokenize.rs:37-42 | Only the pair's shard changes. The pair's total moves by `delta`, other totals stay, and no zero entry appears. |
| Tokenize.PairCounts.Apply | src/tokenize.rs:86-91 | Every total moves by the delta's count. |
| Tokenize.PairCounts.Max | src/tokenize.rs:81-83 | `None` iff every shard is empty. Otherwise an entry of some shard that is the greatest `(count, pair)` over all shards. |
| Tokenize.MaxIsGreatestTotal | src/tokenize.rs:81-83 | The greatest shard entry is the greatest total over all pairs. |
| Tokenize.ExampleCountsMax | src/tokenize.rs:271-281 | A single pair added with 5 is the maximum with count 5. After -5 there is no maximum. |
| Tokenize.RoundShrinks | src/tokenize.rs:184-225 | A round that merges an occurring pair shortens the corpus, so training terminates. |
| Tokenize.LearnedExtend | src/tokenize.rs:170-188 | Appending the current top pair, with a count of at least `min_freq`, keeps "every merge was the top pair of its round" true. |
| Tokenize.ApplyMergesDecode | src/tokenize.rs:240-247 | Applying sound merges keeps the text a sequence spells. |
| Tokenize.ApplyMergesKeepsSpecials | src/tokenize.rs:240-247 | Applying merges keeps every special token, count for count. |
| Tokenize.EncodingFacts | src/tokenize.rs:235-250 | Encoding with sound merges yields known tokens, spells back an input whose characters are all known, and keeps the specials. |
| Tokenize.CharIdsDecode | src/tokens.rs:46-57 | Per-character tokens of known characters spell the input back. |
| Tokenize.PairTokenizer.constructor | src/tokenize.rs:229 | The tokenizer holds the given map and merges. |
| Tokenize.PairTokenizer.Tokenize | src/tokenize.rs:235-250 | The result is the learned merges applied in order to the per-character tokens. The filter is current, every token is known, the input is spelled back when all its characters are known, and the specials are kept. |
| Tokenize.Log2FloorBounds | src/tokenize.rs:143 | `2^l <= n < 2^(l+1)` for the integer log. |
| Tokenize.MinFreqBounds | src/tokenize.rs:143 | The threshold is at least 2. Otherwise it is the largest `k` with `2^k <= n + 1`. |
| Tokenize.Intern | src/tokenize.rs:128-131 | Each corpus string becomes its per-character tokens with a current filter. The specials are untouched. The table's strings become the old ones plus exactly the corpus's one-character strings. |
| Tokenize.CountPairs | src/tokenize.rs:155-162 | After the initial count, each pair's total is its number of occurrences in the corpus. |
| Tokenize.RewriteOne | src/tokenize.rs:205-221 | One string is rewritten, and the delta gains the new pairs and loses the old ones. |
| Tokenize.ProcessChunk | src/tokenize.rs:198-224 | Each string of a chunk is rewritten. The chunk's delta is the change in its pair multiset. |
| Tokenize.RoundChunk | src/tokenize.rs:198-224 | After one more chunk, the shared counts equal the pair occurrences of the partly rewritten corpus. |
| Tokenize.RunChunks | src/tokenize.rs:197-225 | After all chunks the corpus is one merge round further, and the counts match it again. |
| Tokenize.MergeRound | src/tokenize.rs:188-225 | A round with a fresh merged token extends the learned merges and shortens the corpus. |
| Tokenize.MergeTop | src/tokenize.rs:184-225 | With a new spelling the round is done as above, and the table gains exactly the new token and its spelling. Otherwise nothing changes and the spelling already exists. |
| Tokenize.Learn | src/tokenize.rs:167-226 | The loop stops either with merges that were each the top pair of their round, after which no pair reaches the threshold, or at a pair whose spelling already exists. The table gains exactly the spellings of the merges done. |
| Tokenize.CorpusCharsIff | src/tokenize.rs:128-131 | A string is a corpus character exactly when it is one character of some corpus string. |
| Tokenize.MergedSpellingsIff | src/tokenize.rs:186-187 | A string is a merged spelling exactly when it is the string of a token some merge created. |
| Tokenize.Setup | src/tokenize.rs:120-131 | The table starts with `<UNK>` and the specials space and `/` as tokens 0, 1 and 2. After interning, its strings are exactly those three plus the corpus characters. |
| Tokenize.Train | src/tokenize.rs:116-229 | An empty corpus gives no merges. Otherwise success means every merge was the top pair, at least `min_freq` times, of the corpus as the earlier merges left it, and afterwards no pair reaches `min_freq`. Failure happens only on a non-empty corpus, after merges learned by that same rule over the corpus's own ids, when the next top pair's spelling is already in the table. The table training built is returned, and its strings are exactly `<UNK>`, space, `/`, the corpus characters and the spellings of the merges done. |
| Ngrams.WindowsOfSizeIff | src/ngrams.rs:33 | A window of size `n` is generated iff it is a contiguous slice of length `n`. |
| Ngrams.GeneratedIff | src/ngrams.rs:32-33 | A window is generated iff it is a slice of length 1 to `w`. |
| Ngrams.KeptIff | src/ngrams.rs:35-39 | A window is kept iff it is generated and its hash is allowed, or no filter is given. |
| Ngrams.KeptNone | src/ngrams.rs:35 | Without a filter every window is kept. |
| Ngrams.HashesOfIff | src/ngrams.rs:34 | A hash is produced iff some kept window hashes to it. |
| Ngrams.StoredIff | src/ngrams.rs:24-48 | An n-gram is stored iff some allowed window of length 1 to `w` hashes to it. |
| Ngrams.StoredAllowed | src/ngrams.rs:35-39 | With a filter, every stored n-gram is allowed. |
| Ngrams.AscendingUnique | src/ngrams.rs:46-47 | Two strictly ascending lists with the same elements are equal, so sort plus dedup has one result. |
| Ngrams.SortDedup | src/ngrams.rs:46-47 | The result is strictly ascending and has the same elements. |
| Ngrams.Consider | src/ngrams.rs:34-43 | One window is hashed, filtered, pushed and added to the debug list. |
| Ngrams.CollectSize | src/ngrams.rs:33-44 | After all windows of size `n`, the buffer holds the kept windows of sizes 1 to `n`. |
| Ngrams.Ngrams.constructor | src/ngrams.rs:12-13 | `Ngrams::default()` is empty. |
| Ngrams.Ngrams.Windows | src/ngrams.rs:24-48 | The stored n-grams are strictly ascending and are exactly the allowed window hashes. The debug list grows by the kept windows, in order. |
| Ngrams.SatAddCap | src/ngrams.rs:77-88 | Saturating u8 addition of capped counts is the cap of the sum, for both the per-path update (77) and the merge (88). |
| Ngrams.PathCountAppend | src/ngrams.rs:84-91 | Path counts add over a split of the paths. |
| Ngrams.CountItems | src/ngrams.rs:75-78 | Each n-gram of one path adds 1 to its saturating counter. |
| Ngrams.CountPath | src/ngrams.rs:72-78 | One path is tokenized, its n-grams are generated unfiltered, and they are counted. |
| Ngrams.CountChunk | src/ngrams.rs:68-81 | A chunk's counters are the capped number of its paths that yield each n-gram. |
| Ngrams.MergeCounts | src/ngrams.rs:84-91 | Merging two count maps with saturating addition counts the concatenated paths. |
| Ngrams.CountRange | src/ngrams.rs:64-92 | Counting chunk after chunk counts the whole range. |
| Ngrams.Frequent | src/ngrams.rs:93-98 | The n-grams whose count is above 1. |
| Ngrams.FrequentCounts | src/ngrams.rs:93-98 | An n-gram is frequent iff at least two paths yield it. The u8 cap does not change the answer. |
| Ngrams.CountAndFilterFromPaths | src/ngrams.rs:59-99 | The result is exactly the n-grams that at least two of the paths yield. |
| LegacyTokenizer.PiecesJoin | src/tokenizer.rs:144-147 | Splitting words joined by a non-alphanumeric character gives the words back. |
| LegacyTokenizer.NonEmptyWords | src/tokenizer.rs:146 | Filtering out empty pieces keeps a list of words unchanged. |
| LegacyTokenizer.JoinNoUpper | src/tokenizer.rs:139 | Lower-case words joined by a separator contain no capital. |
| LegacyTokenizer.WordsRoundTrip | src/tokenizer.rs:137-149 | Word mode is a left inverse of joining lower-case words with a non-alphanumeric separator. |
| LegacyTokenizer.WordsAreWords | src/tokenizer.rs:143-149 | Every token of word mode is a non-empty lower-case alphanumeric word. |
| LegacyTokenizer.CharTokensShape | src/tokenizer.rs:151-160 | Character mode yields single kept characters and single spaces, never two spaces in a row, and no more tokens than characters. |
| LegacyTokenizer.CharTokensKeep | src/tokenizer.rs:153-155 | Without the spaces, character mode yields exactly the alphanumerics and separators of the input. |
| LegacyTokenizer.CharTokensSpace | src/tokenizer.rs:156-158 | A space token appears iff the input has some other character. |
| LegacyTokenizer.SizedIff | src/tokenizer.rs:181-187 | A window is collected iff it is a slice whose length is within the mode's range. |
| LegacyTokenizer.SizedOrdered | src/tokenizer.rs:181-187 | Windows come shortest first, and every length is within the range. |
| LegacyTokenizer.InternFresh | src/tokenizer.rs:114-118 | Giving a new key the next id keeps the two maps inverse and numbered 1 to `count`. |
| LegacyTokenizer.CachedDecodes | src/tokenizer.rs:165-171 | A cached lookup is 0 exactly for unknown keys, and other ids map back to their key. |
| LegacyTokenizer.TallySet | src/tokenizer.rs:59-62 | Each distinct element of one file adds 1 to its count. The window count at lines 82-85 is the same loop. |
| LegacyTokenizer.Lookup | src/tokenizer.rs:167-169 | The loop computes the cached lookup of every element. |
| LegacyTokenizer.CollectWindows | src/tokenizer.rs:181-187 | The loop collects the windows of sizes `j + 1` to `k`. |
| LegacyTokenizer.PushWindows | src/tokenizer.rs:182-186 | The windows of one size are appended in order. |
| LegacyTokenizer.Tokenizer.constructor | src/tokenizer.rs:34-107 | `k` and the file list must be non-empty (the source asserts both). A token string gets an id iff more than one file contains it. A window of ids gets an id iff more than one file yields it. |
| LegacyTokenizer.Tokenizer.CountTokens | src/tokenizer.rs:54-63 | Each token string is counted once per file that contains it. |
| LegacyTokenizer.Tokenizer.InternTokens | src/tokenizer.rs:67-75 | Exactly the strings counted more than once are interned. The window state is untouched. |
| LegacyTokenizer.Tokenizer.CountWindows | src/tokenizer.rs:79-86 | Each window is counted once per file that yields it. |
| LegacyTokenizer.Tokenizer.InternWindows | src/tokenizer.rs:90-98 | Exactly the windows counted more than once are interned. The token state is untouched. |
| LegacyTokenizer.Tokenizer.MakeToken | src/tokenizer.rs:109-121 | A known string keeps its id. A new one gets `token_count + 1`. The maps stay inverse. |
| LegacyTokenizer.Tokenizer.MakeNgram | src/tokenizer.rs:123-135 | A known window keeps its id. A new one gets `ngram_count + 1`. The maps stay inverse. |
| LegacyTokenizer.Tokenizer.TokenizeNew | src/tokenizer.rs:137-163 | The loop yields the token strings of the mode: non-empty words, or characters with runs of others collapsed to one space. |
| LegacyTokenizer.Tokenizer.TokenizeCached | src/tokenizer.rs:165-171 | Ids of the token strings: 0 exactly for unknown strings, and other ids map back to their string. |
| LegacyTokenizer.Tokenizer.NgramsNew | src/tokenizer.rs:173-189 | The windows of the cached ids, of sizes 1 to `k` (2 to `k` in character mode). |
| LegacyTokenizer.Tokenizer.NgramsCached | src/tokenizer.rs:191-197 | Ids of the windows: 0 exactly for unknown windows, and other ids map back to their window. |
| Playlist.TrimFixes | src/playlist.rs:110 | `trim` (also at lines 90 and 102) leaves text unchanged iff it neither starts nor ends with whitespace. |
| Playlist.LineEntry | src/playlist.rs:99-115 | One line yields at most one entry. |
| Playlist.LineShape | src/playlist.rs:99-115 | A line yields an entry iff it starts with `#NEGATIVE:` or not with `#`. The entry is negative iff the line starts with `#NEGATIVE:`. |
| Playlist.PositiveText | src/playlist.rs:108-114 | A line not starting with `#` is the positive entry of the root joined with the trimmed text. |
| Playlist.NegativeLine | src/playlist.rs:99-107 | `#NEGATIVE:` plus trimmed text is the negative entry of the root joined with that text. |
| Playlist.Parsed | src/playlist.rs:97-116 | The lines after the header yield no more entries than there are lines. |
| Playlist.ParsedAppend | src/playlist.rs:97-116 | Reading is line by line: the entries of two blocks of lines are concatenated. |
| Playlist.ParsedCanonical | src/playlist.rs:103-114 | Every entry read under a canonical root is a canonical absolute path. |
| Playlist.LocatedComponents | src/playlist.rs:61-65 | A relative playlist path joined onto the working directory keeps the root first and the names proper. |
| Playlist.ParentCanonical | src/playlist.rs:66-67 | The playlist's path and its parent directory become canonical absolute paths. |
| Playlist.Loaded | src/playlist.rs:75-118 | A missing file gives only the header and no entries. An empty file fails with "Empty playlist file". A first line that is not `#EXTM3U` after trimming fails with "missing M3U header". Otherwise the entries are those of the remaining lines. |
| Playlist.Reopen | src/playlist.rs:175-184 | Opening a file whose entries match its lines reads back exactly those entries. |
| Playlist.FileLines | src/playlist.rs:83-97 | The lines of a text: at least one, none holding a newline. |
| Playlist.RawReadsBack | src/playlist.rs:124-142 | A line written as the source writes it reads back as one line holding the added entry, provided its path text is clean: no newline, no surrounding whitespace, and no leading `#` for a positive entry. |
| Playlist.CleanLine | src/playlist.rs:99-115 | A clean text, bare or after `#NEGATIVE:`, is one line that reads back as the entry. |
| Playlist.CommentNameLost | src/playlist.rs:127-130 | As written: a file named `#...` directly in the playlist's directory is written as its bare name, which is read back as a comment or a negative entry, never as the added entry. The escaped line reads back correctly. |
| Playlist.SpaceNameMoved | src/playlist.rs:127-130 | As written: a file whose name starts with a space reads back, after the trim at line 110, as a different file without the space. |
| Playlist.NewlineNameSplit | src/playlist.rs:130 | As written: a name holding a newline is written over more than one line. |
| Playlist.EscapedClean | src/playlist.rs:108-111 | The escaped text survives the trim and never starts with `#`. |
| Playlist.EscapedNewline | src/playlist.rs:130 | Escaping adds no newline. |
| Playlist.EscapedParse | src/playlist.rs:102-110 | Escaped text parses to the same relative path, possibly behind a `.`. |
| Playlist.EscapedPath | src/playlist.rs:125-127 | The escaped relative text of an entry, joined onto the root and normalised, gives the entry's path. |
| Playlist.EscapedReadsBack | src/playlist.rs:124-142 | Corrected writer: an entry whose path holds no newline is written as one line that reads back as exactly that entry. |
| Playlist.ChildText | src/playlist.rs:127 | A file directly in the playlist's directory is written as its bare name. |
| Playlist.ChildCanonical | src/playlist.rs:125 | A valid name under a canonical root is canonical. |
| Playlist.ChildRelative | src/path.rs:39-40 | The relative path to a child of the base is its name. |
| Playlist.NestedText | src/playlist.rs:127 | A file one directory down is written as `dir/name`. |
| Playlist.NestedReadsBack | src/playlist.rs:124-142 | A file one directory down with a clean name is written as `dir/name`, or `#NEGATIVE:dir/name`, and reads back as the added entry. |
| Playlist.NameRead | src/playlist.rs:110-114 | A bare name read under a root is the root plus that name. |
| Playlist.ExampleTracksWritten | src/playlist.rs:168-191 | `music/track1.mp3` is written for a positive entry and `#NEGATIVE:music/track2.mp3` for a negative one. |
| Playlist.ExampleTracksRead | src/playlist.rs:175-184 | Those lines read back as the entries that were added. |
| Playlist.M3uPlaylist.constructor | src/playlist.rs:69-73 | The fields are as given. |
| Playlist.M3uPlaylist.Open | src/playlist.rs:59-120 | A relative path is joined onto the working directory. The path and its parent are normalised. Loading then gives the lines and entries or the error. The file ends in a newline when it was created, or when the existing file did. |
| Playlist.M3uPlaylist.OpenAt | src/playlist.rs:66-119 | Opening an absolute path: no parent is an error. Otherwise the playlist holds the normalised path and parent and the loaded lines and entries, and ends in a newline when created or when the existing file did. |
| Playlist.M3uPlaylist.Load | src/playlist.rs:75-118 | The loading loop computes `Loaded`. |
| Playlist.M3uPlaylist.ReadEntries | src/playlist.rs:97-116 | The loop over the remaining lines computes `Parsed`. |
| Playlist.M3uPlaylist.AddPositive | src/playlist.rs:124-132 | The entry is appended. The file gains the raw relative text and a newline: after a final newline as new lines, otherwise continuing the last line. The file then ends in a newline. Entries and file stay in step when they were in step, the file ended in a newline and the text is clean. |
| Playlist.M3uPlaylist.AddNegative | src/playlist.rs:134-142 | The entry is appended. The file gains `#NEGATIVE:`, the raw relative text and a newline, glued onto the last line when the file did not end in a newline. The file then ends in a newline. Entries and file stay in step under the same conditions as AddPositive. |
| Playlist.M3uPlaylist.Append | src/playlist.rs:128-130 | One entry is appended and the text is written in append mode, continuing an unterminated last line. The file then ends in a newline. Nothing else changes. |
| Playlist.Appended | src/playlist.rs:128-130 | Appending never changes the lines before the last one and never shortens the file. |
| Playlist.Glued | src/playlist.rs:128-130 | Without a final newline, a one-line text extends the last line instead of starting a new one. |
| Playlist.HeaderGlued | src/playlist.rs:59-86 | A header-only file without a final newline plus one addition gives the single line `#EXTM3U` followed by the text, and opening that file fails with the missing-header error. |

## Left out

- Normalize.Normalize: characters are ASCII. `char::is_alphanumeric` and `to_lowercase` are Unicode in the source, so the test at src/normalize.rs:50 (`"/path/to/ünîcødé.mp4"`) has no counterpart. The model's letters are `a`-`z`, `A`-`Z` and `0`-`9`.
- Chars.Lower: `str::to_lowercase` is modelled character by character. The Unicode cases that change length or depend on context (final sigma, dotted capital I) do not arise with ASCII.
- LegacyTokenizer.Tokenizer.TokenizeNew: the same ASCII stand-in for `is_alphanumeric` at src/tokenizer.rs:145 and 153. `to_string_lossy` is the identity, because paths are strings here.
- Tokenize.MapUpdatePair: counts are unbounded integers, and the `i64` `saturating_add` at src/tokenize.rs:21 is not modelled. Counts never come near 2^63 for a corpus that fits in memory.
- Tokenize.PairCounts.UpdatePair: same unbounded counts as `MapUpdatePair`.
- Tokens.TokenMap.CreateToken: token ids are unbounded. The `u32` conversion `try_into().unwrap()` at src/tokens.rs:153 that would panic above 2^32 tokens is not modelled.
- LegacyTokenizer.Tokenizer.MakeToken: `token_count += 1` (src/tokenizer.rs:114) is unbounded. The same holds for `ngram_count` in MakeNgram (src/tokenizer.rs:128).
- Tokenize.MinFreq: the `f64` `log2` at src/tokenize.rs:143 is replaced by the exact integer floor of the base-2 logarithm. The two can differ only when `n + 1` is just below a power of two too large for `f64` to represent exactly.
- Tokenize.Train: the number of CPUs is a parameter. The doc comment at src/tokenize.rs:113-114 says `new` panics on an empty corpus. The code returns a tokenizer without merges instead (src/tokenize.rs:133-138), and the model follows the code.
- Tokenize.Train: the panic in `merge` when a top pair's spelling already exists (the assert in `create_token`) becomes a `Failure` result.
- Ties between equally frequent pairs go to the greatest `(count, pair)`, as the code's tuple comparison decides (Tokenize.PairCounts.Max). The model follows the code.
- Tokenize.RunChunks: the parallel `par_chunks_mut` tasks run one after another. The mutex around the counts is left out, because each task adds a delta and addition commutes.
- Ngrams.CountAndFilterFromPaths: the `rayon` map and reduce run one chunk after another. The number of CPUs is a parameter.
- Tokenize.MapMaxCount: `HashMap` iteration order is left open, with a nondeterministic choice standing in for it. The same holds for the other loops over a map.
- Tokens.PairHash: the `AHasher` value of a pair is a fixed stand-in function. No proof depends on which function it is.
- Ngrams.NgramOf: the `DefaultHasher` value of a window is a fixed stand-in function. No proof depends on which function it is.
- Tokens.FromReplace: the source reuses a scratch `Tokens` buffer and swaps it with the string (src/tokenize.rs:202, 220). The model returns the new value, so buffer reuse and aliasing are not represented.
- Paths.ToTextReadsBack: `ToText` covers only bases and paths that are both normalised absolute, where `pathdiff::diff_paths` always succeeds. Its fallback to the absolute path (src/path.rs:40) is not modelled.
- Paths.Parse: the text form follows Unix `Path::components`. Windows prefixes and separators are not modelled, and a trailing separator is dropped as `components` drops it.
- Playlist.M3uPlaylist.Open: file-system I/O becomes parameters. `current_dir()` is the `cwd` argument, and the file's existence and its lines are the `existing` argument. Every `?` error from opening, reading or writing is left out.
- Playlist.M3uPlaylist.Open: `path.parent().unwrap()` (src/playlist.rs:67) panics on a path without a parent. The model returns a `NoParent` error there.
- Playlist.M3uPlaylist.AddPositive: the source pushes the entry before the write that may fail (src/playlist.rs:128-130). With write errors left out, the model always writes.
- Playlist.M3uPlaylist.AddNegative: same as AddPositive (src/playlist.rs:138-140).
- Playlist: the file's lines, and whether it ends in a newline, are kept as fields of the playlist. The source keeps only the entries in memory and re-reads the file on open. Whether an existing file ends in a newline is an argument of `open`.
- LegacyTokenizer.Tokenizer.constructor: the files are a list rather than the keys of a `HashMap`, so the model also admits duplicate paths. Each occurrence then counts as a separate file. The file sizes (the map's values) are unused by the source and left out.
- LegacyTokenizer: the module is not declared in the crate root, so nothing calls it. It is modelled because it is part of the source tree.
- `debug!`, `info!` and `print` logging, and the `unique_*` and `common_*` sets that only feed commented-out logging (src/tokenizer.rs:65-77, 88-100), are left out.
- Trivial accessors are left out: `Tokens::len`, `as_slice` and `debug_strs`, `TokenMap::count`, `Ngrams::iter`, `M3uPlaylist::path`, `root`, `entries` and `display_path`, and `score_list_context` (which reads the working directory).
- The hello-world training test at src/tokenize.rs:284-294 is not restated as a lemma. Its result would follow from `Learned` and `Stopped` for the concrete corpus, but evaluating ten strings through eight merge rounds is beyond what the verifier evaluates in reasonable time.
- The command-line application, VLC control, the directory walk, the visualisation and the naive Bayes classifier are outside this model.

## Findings

| source | as written | input that shows it | evidently intended | confidence | as-written member | corrected member |
|---|---|---|---|---|---|---|
| src/playlist.rs:127-130, 137-140 | The relative path text is written unchanged, and reading trims each line and skips lines starting with `#` (src/playlist.rs:108-111). | A file `/r/#a.mp3` added to a playlist in `/r` is written as `#a.mp3`, which reopening skips as a comment. ` a.mp3` reads back as `/r/a.mp3`. A name holding a newline is split over two lines. | Reopening the playlist yields the entry that was added. | not executed | Playlist.CommentNameLost | Playlist.EscapedReadsBack |
