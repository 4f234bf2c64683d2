# Z.1 verification model

A Dafny model of the inference engine's own logic: the tokenizer, the KV cache and the loop that drives
it, the sampler, the GGUF header parser, and the prefetch thread. Code that changes state step by step is
modelled by methods over fields, arrays and loop variables; each is proved equal to a function of its
input or of the old state, and the properties below are proved about those functions.

`dafny verify dfyconfig.toml` checks everything.

## Layout

| file | subject |
|---|---|
| `Bytes`, `Utf8` | bytes, machine-word bounds, UTF-8 (sections 3 and 4 of RFC 3629) |
| `ByteUnicode` | the GPT-2 byte alphabet, its exact inverse, character boundaries |
| `Tables`, `Segmentation`, `BpeMerge`, `Encoding`, `CompleteVocabulary` | table construction, longest match with fallback, pair merging, encode and decode, vocabularies that cover every text |
| `CacheLayout`, `KvCache` | the one buffer behind the cache and the rows in it |
| `Forward` | prefill and decode as readers and writers of rows; tensor arithmetic is the parameter `Net` |
| `CacheRuns`, `TokenLog`, `LogResults`, `PrefillVsDecode` | whole runs of reset, prefill and decode; what the rows and the results are; when a decode could stand for the end of a prefill |
| `Generation`, `DrawTrace` | the generation loop, and the draw each of its tokens comes from |
| `ChatSession`, `ChatReading` | single-shot calls, templates, the chat; how templates and typed lines read back |
| `Xorshift`, `Sampler` | the random generator and the draw, over reals |
| `ConfiguredChat` | the chat with the sampler it is configured with |
| `GgufFormat`, `GgufReader`, `GgufRoundTrip`, `GgufAccepts` | header grammar, the stream reader, the round trip, what is accepted |
| `Windows`, `Prefetch` | window arithmetic, the worker/owner interleaving, and the windows it advises |

## Where the code differs from its comments or from what one would expect

The model follows the code.

- `src/tokenizer.rs:241-243`: the comment promises the fallback token of the input *byte*; the code indexes
  the table by the input *position*, and positions from 256 on end the program.
  `Segmentation.FallbackMeetsComment` gives the exact condition under which the two coincide,
  `Segmentation.PanicsExactly` the exact condition for the panic.
- `src/tokenizer.rs:183-199`: `decode` does not undo the GPT-2 alphabet, and `decode_one` undoes it for space
  and newline only. `Encoding.DecodeOfEncode` and `Encoding.StreamOfEncode` say for exactly which texts the
  round trips hold.
- `src/tokenizer.rs:302`: the alphabet ends at U+0143, not U+015F (`ByteUnicode.CodePointClosed`).
- `src/generate.rs:322-325`: the cache never holds the model's previous EOT; the end token is sampled but not
  fed (`ChatSession.PreviousEotNeverCached`).
- `src/main.rs:272` keeps chatting after any error, but a draw that fails after the prefill has already
  grown the cache. Draws fail exactly for an invalid configuration (`--temperature 0` gives one) or an empty
  vocabulary; then the bookkeeping is exact only while no message has been prefilled since the last reset
  (`ConfiguredChat.FaithfulByConfiguration`).
- `src/graph.rs:749`: every prefill numbers its positions from 0, so a follow-up turn restarts them
  (`ChatSession.InPlaceExactly`, `TokenLog.FeedInPlaceExactly`).
- `src/graph.rs:466-471`: a decode on an empty cache masks every row alike, which hides none of them
  (`CacheRuns.DecodeIsolatedExactly`). Callers decode only after a prefill.
- `src/graph.rs:653-654` and `469`: a prefill row sees its whole batch, a decode row does not see itself, and
  the two number a token alike only when the prefill starts an empty cache. So prefilling n + 1 tokens is not
  prefilling n >= 1 of them and decoding the last: with any layer some model's logits differ, and some model's
  rows do unless there is no layer, no element in a row, or one layer and an empty cache to start from
  (`PrefillVsDecode.LogitsAgreeExactly`, `PrefillVsDecode.RowsAgreeExactly`).
- `src/generate.rs:218-221` promises a reset after every single shot; a draw that fails returns before it, and
  leaves the prompt's rows behind (`ChatSession.RowsLeftExactly`, `ConfiguredChat.SingleShotLeavesRowsExactly`).
- `src/gguf.rs:129`: the comment says 32 bytes; the code uses the declared alignment, and a declared
  alignment of zero divides by zero (`GgufRoundTrip.HeaderRoundTrip`).
- `src/logits.rs:205-207`: `top_k == Some(0)` makes `k - 1` underflow and ends the program
  (`Sampler.SampleToken`).
- `src/mapper.rs:155-157`: `idx * LAYER_SIZE_BYTES` wraps for huge indices; the range stays inside the mapping
  but is another window's (`Windows.WindowExactly`, `Windows.WrappedIndex`).

## Assumptions

- A mask that is not uniform excludes the positions it sets to -10000, as `exp` underflow does in f32.
- `exp` is any positive monotone function on the reals; sampling arithmetic is exact. The threshold is the
  drawn word over 2^64 - 1.
- A stable or unstable sort, and any choice among equal logits, is allowed: the kept indices are only
  required to be `TopK`.
- A Unicode string is a sequence of scalar values; `trim` removes White_Space.
- Wrapping is that of a release build.

## Model

| member | source | states |
|---|---|---|
| ByteUnicode.BuildTable | src/tokenizer.rs:311-328 | the table loop gives printable bytes themselves and numbers the others upward from U+0100 in byte order |
| ByteUnicode.CodePointClosed | src/tokenizer.rs:316-324 | closed form of the table; the largest code point is U+0143, so the three-byte branch is dead |
| ByteUnicode.BytesToGpt2Unicode | src/tokenizer.rs:330-346 | the byte loop computes the expansion, character by character |
| ByteUnicode.ExpandIsUtf8 | src/tokenizer.rs:306-346 | every expansion is well-formed UTF-8, whatever the input bytes |
| ByteUnicode.CollapseInvertsExpand | src/tokenizer.rs:306-346 | the expansion has an exact inverse: a byte string collapses to a text if and only if it is that text's expansion |
| ByteUnicode.ExpandInjective | src/tokenizer.rs:306-346 | different inputs never expand alike |
| ByteUnicode.BoundaryStep | src/tokenizer.rs:350-354 | at each character boundary the length judged from the first byte is the length of the character there |
| ByteUnicode.OriginOfBoundary | src/tokenizer.rs:358-365 | at the boundary of character k the position map gives exactly k |
| ByteUnicode.OrigByteAt | src/tokenizer.rs:358-365 | the scan indexes in bounds and returns the position whose character starts there, or 0 |
| ByteUnicode.WholePrefix | src/tokenizer.rs:306-346 | the alphabet is a prefix code: a prefix of an expansion made of whole characters expands a prefix of the text |
| ByteUnicode.RaggedExactly | src/tokenizer.rs:306-346 | the strings that end inside a character are exactly those found at the front of some expansion that are not whole |
| Utf8.ValidExactly | src/gguf.rs:214-219 | the byte patterns accepted as UTF-8 are exactly the spellings of sequences of Unicode scalar values, each as RFC 3629 section 3 spells it |
| Utf8.SpellingUnique | src/gguf.rs:214-219 | no two texts have the same spelling |
| Tables.SpellingNeverSurvives | src/tokenizer.rs:103-107 | no stored text is a `<0xNN>` spelling, so the gap-filling lookup can never succeed |
| Tables.SpellingsRead | src/tokenizer.rs:103-107 | `<0xNN>` with digits of either case becomes its one byte; a token without that frame keeps its text |
| Tables.SplitExactly | src/tokenizer.rs:113-126 | a merge rule is cut into (left, right) if and only if it is left, a space, right and left has no space; without a space it names no pair |
| Tables.BuildVocab | src/tokenizer.rs:94-111 | the vocabulary has one entry per token with its defaults; the id map holds exactly its texts, each with the largest such id |
| Tables.BuildRanks | src/tokenizer.rs:113-126 | ranked pairs are those of the rules whose halves are tokens, each with the index of the last such rule |
| Tables.BuildByteTable | src/tokenizer.rs:128-147 | each byte gets the last entry that claims it, else the backup; it panics exactly on a type-6 entry with empty text |
| Tables.FromGgufParts | src/tokenizer.rs:83-150 | when construction fails and how; otherwise the three tables are mutually consistent, and unclaimed bytes map to token 0 |
| Tables.FallbackIsExact | src/tokenizer.rs:128-147 | with one-byte type-6 texts a nonzero fallback of b is a token whose text is exactly [b], and no later claimant exists |
| Tables.FallbackExactly | src/tokenizer.rs:128-147 | a token other than 0 is the fallback of b if and only if its text starts with b, it is of type 6 or is one byte long, it is not of type 1, and no later token is like that |
| Segmentation.LongestMatch | src/tokenizer.rs:230-239 | the match found is a key and no longer one within the window is |
| Segmentation.FindMatch | src/tokenizer.rs:230-239 | the descending length loop finds the longest match of at most 64 bytes |
| Segmentation.TokeniseAt | src/tokenizer.rs:229-245 | one round pushes the match's id and steps over it, or pushes the fallback and steps over one character |
| Segmentation.InitialTokenise | src/tokenizer.rs:221-247 | the cursor loop computes the segmentation, panic included |
| Segmentation.AdvanceAligned | src/tokenizer.rs:228-246 | when no key ends inside a character, one step goes from a character boundary to a strictly later one, never past the end; raw bytes that no expansion contains may be keys |
| Segmentation.CursorsAligned | src/tokenizer.rs:228-246 | over the whole scan every cursor position starts the character of exactly one input byte |
| Segmentation.SameSegmentation | src/tokenizer.rs:240-245 | two fallbacks segment alike if and only if they agree wherever nothing matches |
| Segmentation.IntendedEmitsByte | src/tokenizer.rs:241-244 | at every cursor without a match the promised fallback is the entry of the one input byte there, which is token 0 or the last token for exactly that byte |
| Segmentation.FallbackMeetsComment | src/tokenizer.rs:240-244 | position-indexed fallback equals the promised byte-indexed one if and only if every unmatched position is below 256 and shares its entry with the byte there |
| Segmentation.TwoByteTokensBuilt | src/tokenizer.rs:83-150 | the tables that construction makes of the tokens `<0x00>` and `<0x20>`, which meet every assumption made here |
| Segmentation.FallbackCounterexample | src/tokenizer.rs:240-244 | with those tables a single space gets token 0 from the code and token 1 by the comment |
| Segmentation.PanicsExactly | src/tokenizer.rs:243 | the scan panics if and only if some unmatched cursor maps to position 256 or later |
| Segmentation.LongTextPanics | src/tokenizer.rs:243 | with those tables n unmatched letters panic if and only if n > 256 |
| BpeMerge.BestPair | src/tokenizer.rs:254-266 | the chosen pair is the leftmost of lowest rank; none is chosen only if every rank is at the marker |
| BpeMerge.FindBest | src/tokenizer.rs:254-266 | the scan with its strict comparison finds that pair |
| BpeMerge.Merge | src/tokenizer.rs:250-285 | the in-place loop terminates, indexes in bounds, and computes the functional rewriter's result, which the next two rows pin down |
| BpeMerge.MergedRewrites | src/tokenizer.rs:250-285 | the result is reached by a sequence of rewrites, each replacing the leftmost pair of lowest rank by the id of its concatenated text, and from the last no such rewrite is possible |
| BpeMerge.RewritingEndsInMerged | src/tokenizer.rs:250-285 | every such sequence of rewrites ends in that result |
| BpeMerge.MergedKeepsSurface | src/tokenizer.rs:250-285 | merging keeps the concatenated text and the id range and never grows the sequence |
| BpeMerge.MergedIsStable | src/tokenizer.rs:250-285 | the result is left alone by another pass: merging is idempotent |
| BpeMerge.StableExactly | src/tokenizer.rs:268-283 | a sequence is left alone if and only if no pair is best or the best pair's concatenation is unknown |
| BpeMerge.MergedIsNormal | src/tokenizer.rs:268-283 | with every rule's result in the vocabulary and ranks below the marker no adjacent pair is left in the merge table |
| BpeMerge.ClosedExactly | src/tokenizer.rs:113-126 | for a table built from fewer than 2^32 - 1 rules that condition holds if and only if every rule of two tokens has its concatenation as a token |
| BpeMerge.MissingResultBlocks | src/tokenizer.rs:279-283 | one missing result at the best rank stops all other merges too |
| Encoding.Encode | src/tokenizer.rs:160-174 | encode is the optional BOS and then the merged segmentation, panicking with it |
| Encoding.EncodedSpells | src/tokenizer.rs:160-174 | without fallback the ids are vocabulary ids whose texts concatenate to the text's expansion |
| Encoding.EncodedInjective | src/tokenizer.rs:160-179 | two different fallback-free texts never encode to the same ids |
| Encoding.LongestMatchLeavesNoPair | src/tokenizer.rs:226-246 | no adjacent pair left by longest match concatenates to a vocabulary text, when texts fit the window |
| Encoding.MergeIsRedundant | src/tokenizer.rs:160-174 | then merging changes nothing: encode is the longest-match segmentation |
| Encoding.MergeTableIsIrrelevant | src/tokenizer.rs:160-174 | so two tokenizers that differ only in their merge tables encode alike |
| Encoding.WindowMatters | src/tokenizer.rs:230 | with a 65-byte text in a valid vocabulary merging does change the result |
| Encoding.Decode | src/tokenizer.rs:185-199 | the loop concatenates the texts of the ids that are not skipped, and repairs ill-formed bytes |
| Encoding.DecodedExactly | src/tokenizer.rs:185-199 | ids 128000, 128001 and 128004, ids without a vocabulary entry and tokens of type 3 vanish; every other id, byte tokens included, gives its text |
| Encoding.PrintedExactly | src/tokenizer.rs:203-210 | `decode_one` gives nothing for those ids and 128009; otherwise a well-formed text with U+0120 and U+010A replaced, so an ASCII byte token prints its byte |
| Encoding.DecodeOfEncode | src/tokenizer.rs:160-199 | decoding an encoding gives the text's expansion, with or without BOS; it is the text if and only if every byte is graphic ASCII |
| Encoding.RestoreExpansion | src/tokenizer.rs:209 | the two character replacements act on an expansion byte by byte, restoring spaces and newlines only |
| Encoding.RestoreExactly | src/tokenizer.rs:209 | on any well-formed text they act character by character, changing U+0120 to a space and U+010A to a newline and nothing else |
| Encoding.StreamOfEncode | src/tokenizer.rs:160-210 | concatenating `decode_one` over an encoding gives back the text if and only if it is graphic ASCII, spaces and newlines |
| CompleteVocabulary.FallbackFreeExactly | src/tokenizer.rs:226-246 | when no key ends inside a character, every byte string is segmented without fallback if and only if each byte's character is a key |
| CompleteVocabulary.CompleteEncodes | src/tokenizer.rs:160-179 | with such a vocabulary encoding never panics and is injective on all texts |
| CompleteVocabulary.EveryTextRoundTrips | src/tokenizer.rs:160-210 | if moreover every id a text can give is printed as whole characters, decode and the stream give back exactly the graphic and the readable texts |
| CompleteVocabulary.AlphabetWorks | src/tokenizer.rs:83-150 | consistent tables with one normal token for each byte's character meet all of these conditions |
| CompleteVocabulary.AlphabetExists | src/tokenizer.rs:83-150 | such tables exist |
| CacheLayout.RegionsFit | src/graph.rs:131-165 | each layer's K and V region ends before the slack of the allocation |
| CacheLayout.RegionsDisjoint | src/graph.rs:150-166 | the 2 * n_layers regions are pairwise disjoint |
| CacheLayout.RowInRegion | src/graph.rs:486-494 | a row below n_ctx stays inside its own region under the writers' stride |
| CacheLayout.RowsDisjoint | src/graph.rs:486-494 | different (K or V, layer, position) triples own disjoint byte ranges |
| CacheLayout.SlotInjective | src/graph.rs:152-163 | the addressing is injective on such triples |
| KvCache.KVCache.constructor | src/graph.rs:124-180 | a new cache is empty, zeroed in every row, and its buffer is as long as the layout asks |
| KvCache.BacksAfterWrite | src/graph.rs:486-494 | overwriting one row's elements of the flat buffer changes that row and no other of any layer |
| KvCache.KVCache.SetRow | src/graph.rs:486-494 | the element loop writes exactly one row |
| KvCache.KVCache.SetRows | src/graph.rs:619-627 | copying a batch writes consecutive rows of one layer and nothing else |
| KvCache.KVCache.GetRows | src/graph.rs:634-637 | reading gives the first n rows of a layer |
| KvCache.KVCache.Clear | src/graph.rs:182 | reset moves the head and keeps every row |
| Forward.LlamaGraph.BuildMask | src/graph.rs:466-469 | the mask opens exactly the first `head` positions |
| Forward.SeenThroughPrefix | src/graph.rs:350-372 | such a mask shows the rows in use, except that an empty prefix shows all rows |
| Forward.LlamaGraph.ExecuteDecode | src/graph.rs:442-519 | a full cache refuses and is unchanged; otherwise logits, appended rows and the whole buffer are those of one token at position `head` seeing the rows before it |
| Forward.LlamaGraph.WriteBack | src/graph.rs:479-496 | the layer loop writes one K and one V row per layer at `head` and leaves all else |
| Forward.LlamaGraph.PrefillLayer | src/graph.rs:613-658 | a layer's rows are written before they are read back, so the batch attends to history and itself |
| Forward.LlamaGraph.RunBatch | src/graph.rs:523-738 | overflow refuses without change; otherwise the batch's rows are appended and the logits are those of the state that `LogResults.RunAnswers` identifies as the last token's |
| Forward.LlamaGraph.Prefill | src/graph.rs:742-751 | the empty prompt is refused; positions start at 0 |
| Forward.OverwrittenIsAppended | src/graph.rs:480-498 | writing at `head` in every layer is appending to the rows in use |
| CacheRuns.Replay | src/graph.rs:442-759 | executing any sequence of reset, prefill and decode on the object does what the physical run says, results and all rows |
| CacheRuns.RunRefines | src/graph.rs:466-498 | every run that never decodes on an empty cache is a run on the rows in use alone |
| CacheRuns.StaleRowsUnobservable | src/graph.rs:466-498 | two caches that agree on the rows in use, and on no others, give the same results in every such run and still agree after it |
| CacheRuns.ResetIsFresh | src/graph.rs:182 | a reset cache is indistinguishable from a freshly zeroed one in every such run |
| CacheRuns.DecodeIsolatedExactly | src/graph.rs:466-471 | decode is blind to stale rows for all models if and only if at least one row is in use |
| CacheRuns.EarlierRowsKept | src/graph.rs:480-498 | prefill and decode leave every earlier row of every layer as it was |
| TokenLog.RunAccounted | src/graph.rs:442-738 | in every run the rows in use are those of the tokens appended since the last reset, in order, and their number is at most n_ctx |
| TokenLog.BufferAccounted | src/graph.rs:442-738 | the same for the flat buffer, whatever stale rows it started with |
| TokenLog.LogDeterminesCache | src/graph.rs:442-738 | such a log leaves no freedom: it determines every K and V row of every layer |
| TokenLog.CacheOfLog | src/graph.rs:442-738 | and every log whose entries see no row past its end has such a cache |
| TokenLog.SameLogSameRows | src/graph.rs:442-738 | any two guarded runs with the same log end with the same rows, whatever was stale at the start |
| LogResults.RunAnswers | src/graph.rs:442-751 | in every run each successful prefill or decode returns the projection of the state in which the last log entry leaves the top layer; an empty prompt, or tokens past n_ctx, are the failures |
| LogResults.BufferAnswers | src/graph.rs:442-751 | the same for results read off the flat buffer, whatever stale rows it started with |
| LogResults.AnswerUnique | src/graph.rs:442-751 | that description leaves no freedom: the log determines the result |
| LogResults.AsI32Exactly | src/graph.rs:458-462 | a token id is passed as the one signed 32-bit number congruent to it modulo 2^32 |
| TokenLog.FeedInPlaceExactly | src/graph.rs:749 | a prefill gives rows their own index as position if and only if the cache was empty |
| TokenLog.PositionsMatterExactly | src/graph.rs:462-749 | for all models the rows of a log equal those of the same tokens numbered by row, if and only if every entry already is, or rows are empty, or there is no layer |
| PrefillVsDecode.RowsAgreeExactly | src/graph.rs:458-749 | from any cache, for all models, prefilling n + 1 tokens leaves the same rows as prefilling n >= 1 and decoding the last, if and only if there is no layer, rows are empty, or there is one layer and no row was in use |
| PrefillVsDecode.LogitsAgreeExactly | src/graph.rs:458-749 | from any cache, for all models, the two give the same last logits if and only if there is no layer |
| PrefillVsDecode.OwnRowsMatterExactly | src/graph.rs:469-654 | for all models, a result depends on the rows the operation itself appends if and only if it is a prefill that appends some; a decode never sees its own row |
| Generation.DecodeNext | src/generate.rs:204 | below capacity decode cannot hit the cache's own overflow error |
| Generation.DecodeLoop | src/generate.rs:186-208 | the loop terminates; counts, text, recent window and cache are those of the tokens fed, which `DrawTrace.TurnDraws` derives from the draws |
| Generation.RunGeneration | src/generate.rs:141-216 | a whole turn: its checks in order, its errors, its cache and its result; neither overflow error can surface |
| Generation.LoopAccounting | src/generate.rs:186-208 | fed tokens are never EOS or EOT, cost one row each, and stay within the token limit and the context |
| Generation.LoopStops | src/generate.rs:187-189 | without a failed draw the loop ends only at an end token, the token limit or a full cache |
| Generation.TurnAccounting | src/generate.rs:150-215 | a turn reaches its prefill if and only if the prompt is nonempty and fits; then, even if a draw fails, head grows by prompt and fed tokens and fed <= min(max_new_tokens, room); otherwise nothing changes and the error says which check failed |
| Generation.ReliableTurn | src/generate.rs:150-208 | with a sampler that never fails a turn succeeds if and only if the prompt is nonempty and fits; one that never ends fills the room exactly |
| DrawTrace.TurnDraws | src/generate.rs:169-208 | the tokens fed are those of a sequence of draws: draw k is made from the k-th result of the turn, the last min(64, k) tokens fed, and the random word draw k - 1 left; the draw after the last fed token failed, is an end token, or meets a limit; the text is the fed tokens' texts in order |
| ConfiguredChat.DrawWords | src/logits.rs:240-265 | with the configured sampler successful draw k leaves the random state exactly k + 1 steps after the seed |
| ChatSession.BuildChatTokens | src/generate.rs:294-320 | the first-turn template is the preamble followed by the follow-up template |
| ChatSession.BuildFollowupChatTokens | src/generate.rs:326-343 | the follow-up template has no BOS and no system turn |
| ChatReading.FirstTurnReadsExactly | src/generate.rs:294-320 | after BOS a first turn reads back as a system, a user and an open assistant section with their contents, if and only if no encoding holds a mark that ends it |
| ChatReading.FollowupReadsExactly | src/generate.rs:326-343 | a follow-up reads back as a user and an open assistant section under the same condition |
| ChatReading.ClosedExactly | src/generate.rs:286-343 | one section reads back as its role and content if and only if they hold no end mark of their own |
| ChatReading.SingleShotReads | src/generate.rs:231-240 | a templated single shot reads back as a first turn; otherwise the prompt is encoded bare, with BOS as configured |
| ChatSession.Generate | src/generate.rs:223-251 | the result of a single shot does not depend on earlier use of the cache, and the cache afterwards is untouched, empty, or holds a failed draw's rows |
| ChatReading.SingleShotRefused | src/generate.rs:223-246 | each refusal of a single shot by the property of the prompt that causes it, in the order of the checks; otherwise the turn starts |
| ChatSession.RowsLeftExactly | src/generate.rs:246-250 | after a prompt with text rows are left in the cache if and only if a draw failed |
| ChatSession.SingleShotInPlace | src/generate.rs:233-249 | in a single shot every row p carries position p |
| ChatSession.GenerateTurn | src/generate.rs:263-281 | one turn on the existing cache, first-turn template exactly when the count is 0 |
| ChatReading.TurnRefused | src/generate.rs:263-281 | a chat turn is refused exactly for a blank message or one that does not fit, and then leaves the cache alone |
| ChatSession.ReadLine | src/main.rs:249-273 | one input line moves count, cache and transcript as the chat step says |
| ChatReading.TrimExactly | src/main.rs:249 | trimming removes all the white space at both ends and nothing else |
| ChatReading.CommandsRead | src/main.rs:249-258 | what each typed line means, whatever white space surrounds it |
| ChatReading.LineEffects | src/main.rs:249-258 | `/reset` empties count, cache and transcript, a blank line does nothing, `/quit` and `/exit` end the chat as it is |
| ChatSession.RunChat | src/main.rs:228-275 | the REPL over any input is the chat run, ending at the first quit |
| ChatSession.StepKeepsStanding | src/main.rs:252-273 | a step keeps the cache equal to the recorded conversation unless a draw fails; any other failure is a full context and changes nothing; what a failed draw spoils only a reset repairs |
| ChatSession.FaithfulExactly | src/main.rs:241-274 | for any sampler and input the cache is one first-turn template with its answer, then one follow-up with its answer per later turn, if and only if no draw has failed since the last reset |
| ChatSession.ReliableNeverSpoils | src/main.rs:241-274 | with a sampler that never fails that condition holds for every input |
| ChatSession.ChatAccounting | src/main.rs:252-271 | then turn count is 0 if and only if no row is in use, and every row is accounted for by the conversation's log |
| ChatSession.LogTokens | src/generate.rs:294-343 | token for token the log is one preamble and then each message in follow-up form with its answer |
| ConfiguredChat.DrawOnce | src/logits.rs:184-252 | the sampler method panics exactly for a valid draw with top_k 0, and otherwise returns a draw the chat's sampler may return |
| ConfiguredChat.FollowerExists | src/logits.rs:184-252 | for every other configuration a sampler that always returns such a draw exists |
| ConfiguredChat.DrawFailsExactly | src/logits.rs:190-191 | a draw of the generation loop fails if and only if the configuration is invalid or the vocabulary is empty |
| ConfiguredChat.FaithfulByConfiguration | src/main.rs:241-274 | over any input the session law holds if and only if the configuration is valid and the vocabulary nonempty, or no message since the last reset was short enough to be prefilled |
| ConfiguredChat.SingleShotLeavesRowsExactly | src/generate.rs:231-250 | a single shot leaves rows if and only if its prompt passes every check and draws fail for the configuration |
| ConfiguredChat.FailedDrawDesynchronises | src/generate.rs:170-175 | at temperature 0 the first message fails after its prefill and leaves rows that no turn counts |
| ChatSession.PreviousEotNeverCached | src/generate.rs:187 | the last cached token of a completed turn is never EOS or EOT |
| ChatSession.InPlaceExactly | src/graph.rs:749 | rows carry their own index as position if and only if the chat has at most one turn |
| ChatSession.RowsInPlaceExactly | src/graph.rs:749 | for all models the rows of a chat equal those of contiguous positions, if and only if it has at most one turn, or rows are empty, or there is no layer |
| Xorshift.Step | src/logits.rs:258-265 | the three shift-xor updates compute the step |
| Xorshift.StepExactly | src/logits.rs:258-265 | the step is the three folds: left by 13, right by 7, left by 17, bit by bit |
| Xorshift.ValueHalves | src/logits.rs:239-241 | the number a word stands for is its lowest bit plus twice the rest |
| Xorshift.MixLeftInverse | src/logits.rs:260-262 | folding a word with a left shift of itself is invertible for every nonzero distance |
| Xorshift.MixRightInverse | src/logits.rs:261 | the same for right shifts |
| Xorshift.StepIsBijection | src/logits.rs:258-265 | the step is a bijection of the 2^64 states |
| Xorshift.ZeroExactly | src/logits.rs:256-265 | a stream reaches 0 if and only if it was seeded with 0 |
| Xorshift.SeedsStayApart | src/logits.rs:258-265 | streams from different seeds differ at every step |
| Sampler.Validate | src/logits.rs:145-153 | a configuration is accepted if and only if temperature > 0 and 0 < top_p <= 1; the temperature is judged first |
| Sampler.ApplyRepeatPenalty | src/logits.rs:158-171 | the in-place loop is the fold over the recent tokens, skipped near penalty 1 |
| Sampler.PenaltyClosedForm | src/logits.rs:160-170 | a logit becomes l / p^c or l * p^c by its sign, c being its token's count in the recent tokens |
| Sampler.AdjustedExactly | src/logits.rs:158-198 | an adjusted logit times the temperature is the logit when the penalty is within 1e-6 of 1, and otherwise the logit divided or multiplied, by its sign, by the penalty once per recent occurrence |
| Sampler.PenaltyOrderIrrelevant | src/logits.rs:160-170 | the order of the recent tokens does not matter |
| Sampler.SelectTop | src/logits.rs:201-214 | the kept indices are distinct, sorted descending, and dominate every dropped logit |
| Sampler.SoftmaxSound | src/logits.rs:216-220 | kept probabilities are positive, descending, and sum to 1; `Sampler.NucleusIsSoftmax` says which they are |
| Sampler.FindCutoff | src/logits.rs:223-231 | the cumulative loop stops at the first sum that reaches top_p |
| Sampler.CutoffIsShortest | src/logits.rs:222-233 | the nucleus is the shortest nonempty prefix of mass at least top_p |
| Sampler.NucleusSound | src/logits.rs:222-237 | the nucleus is never empty and renormalises to a distribution in the same proportions |
| Sampler.NucleusIsSoftmax | src/logits.rs:216-237 | before and after the cut the probabilities are in the proportions of exp(logit - largest logit) and sum to 1, and the cut is the shortest prefix that reaches top_p |
| Sampler.Draw | src/logits.rs:242-251 | the draw loop returns the first position whose cumulative mass reaches the threshold |
| Sampler.DrawExact | src/logits.rs:239-251 | a position is drawn if and only if the threshold lies in its interval, whose length is its probability; the fallback return is unreachable |
| Sampler.PickedExactly | src/logits.rs:216-252 | an id is picked if and only if it sits at the position of such a nucleus, renormalised, whose interval holds the threshold |
| Sampler.ThresholdExactly | src/logits.rs:239-241 | the threshold is the word's value divided by 2^64 - 1 |
| Sampler.PickedInNucleus | src/logits.rs:190-252 | the returned id is in the nucleus, and no token outside it has a larger adjusted logit |
| Sampler.DominantTokenWins | src/logits.rs:222-252 | if the largest probability alone reaches top_p the draw is greedy for every random number |
| Sampler.SampleToken | src/logits.rs:184-252 | which inputs are rejected and when it panics; otherwise the logits end up adjusted, the generator moves one step, and the id is one that softmax, nucleus and the new word's threshold select from min(top_k, vocabulary) best logits |
| GgufReader.Reader.String | src/gguf.rs:214-219 | reading moves the stream past an 8-byte length and as many bytes, or fails for want of bytes or of UTF-8 |
| GgufReader.Reader.ByType | src/gguf.rs:256-275 | an element is read by its declared type; array and unknown types are refused |
| GgufReader.Reader.Value | src/gguf.rs:221-254 | a value is a type and a scalar, or an array's element type, count and elements in order |
| GgufReader.Reader.Pairs | src/gguf.rs:107-113 | metadata is filled pair by pair, a repeated key keeping its last value |
| GgufReader.Reader.Tensors | src/gguf.rs:115-127 | tensor descriptors are read in order |
| GgufReader.Parse | src/gguf.rs:85-138 | the stream parser computes the header function, errors and the division by zero included |
| GgufRoundTrip.PreambleExactly | src/gguf.rs:85-105 | the preamble is read exactly when the file starts with the bytes "GGUF" and version 1, 2 or 3, with 4-byte counts in version 1 and 8-byte counts later |
| GgufRoundTrip.StartsAsGguf | src/gguf.rs:85-104 | no other file has a header |
| GgufFormat.AlignUpIsLeast | src/gguf.rs:135 | the data offset is the least multiple of the alignment at or above the header's end |
| GgufRoundTrip.TypedBack | src/gguf.rs:221-275 | every scalar and every array of scalars in range is read back from its encoding, whatever follows |
| GgufRoundTrip.HeaderRoundTrip | src/gguf.rs:85-138 | a version 2 or 3 header laid out as the GGUF specification's File Structure says is parsed back exactly, whatever follows, and consumed exactly |
| GgufRoundTrip.DataOffsetExactly | src/gguf.rs:129-135 | if the last pair named `general.alignment` has type u32 and value a > 0 the data is at the least multiple of a at or after the header; value 0 divides by zero; in every other case the multiple is of 32 |
| GgufRoundTrip.DeclaredExactly | src/gguf.rs:107-113 | the metadata holds exactly the declared keys, each with the value declared last |
| GgufRoundTrip.StrictPrefixFails | src/gguf.rs:85-138 | every strict prefix of a header fails for want of bytes |
| GgufRoundTrip.BodyExtends | src/gguf.rs:85-127 | bytes added at the end change neither a parse that succeeded nor a verdict that the data is invalid |
| GgufRoundTrip.NestedArrayExactly | src/gguf.rs:239-273 | an array of arrays is refused if and only if it has an element |
| GgufAccepts.AcceptedIsEncoded | src/gguf.rs:85-127 | every version 2 or 3 stream that is accepted starts with the encoding of a valid document of the length consumed, up to bytes above 1 read as true, and is read as that document |
| Windows.WindowExactly | src/mapper.rs:109-111 | the range is the index's own window if and only if the index is below the window count |
| Windows.WindowsPartition | src/mapper.rs:155-174 | the windows partition the file's bytes |
| Windows.WrappedIndex | src/mapper.rs:156 | an index whose product wraps to 0 acts on window 0 |
| Prefetch.StepKeepsInv | src/mapper.rs:211-256 | every step of worker and owner keeps the protocol invariant |
| Prefetch.RunKeepsInv | src/mapper.rs:211-312 | hence every interleaving does, from any state that meets it |
| Prefetch.EveryRunIsSafe | src/mapper.rs:200-312 | in every interleaving from the start each madvise lies inside the still-mapped file, and at most PREFETCH_DEPTH follow the stop flag |
| Prefetch.RoundsExactly | src/mapper.rs:211-237 | in every interleaving the worker's calls are, for each value of `current_layer` it loaded in turn, the next two windows that exist, in order; only the round it is in may be incomplete |
| Prefetch.RoundCovers | src/mapper.rs:221-227 | a round covers exactly the bytes of windows c + 1 and c + 2, cut off at the end of the file |
| Prefetch.DepthBoundIsTight | src/mapper.rs:221-236 | an interleaving that reaches that bound |
| Prefetch.StepMakesProgress | src/mapper.rs:211-256 | once stop is set every step brings the end nearer |
| Prefetch.NeverStuck | src/mapper.rs:214-218 | until everything is released some step is possible without any notification |
| Prefetch.ShutdownTerminates | src/mapper.rs:250-312 | after stop every run is bounded, and one that cannot go on has joined the worker and then unmapped |
| Prefetch.SecondShutdownIsNoOp | src/mapper.rs:303-312 | the shutdown that drop repeats changes nothing |

## Left out

- ggml tensor operations, graph building, FFI and their allocation and compute failures: foreign code; `Net` stands for the arithmetic and only the rows read, seen and written are kept.
- f32 rounding, NaN and infinities in the sampler, including f32 cumulative sums that fall short of the threshold.
- `repeat_penalty == 0`, which divides by zero in the reals; the closed form is for positive penalties.
- The algorithm inside `select_nth_unstable_by` and `sort_unstable_by`: library code, modelled by what it returns.
- Sampler.SampleToken: gives the picked id for some selection of kept indices that is `TopK`, because ties may be broken either way.
- Which replacement characters `from_utf8_lossy` inserts: a parameter, and irrelevant on well-formed bytes.
- Tables.FromGgufParts: consistency is stated for fewer than 2^32 tokens and merge rules, because `as u32` truncates beyond.
- ConfiguredChat.FaithfulByConfiguration: is about samplers that return; with a valid configuration and `top_k` 0 the first draw ends the program, so there is no chat left to compare.
- CompleteVocabulary.FallbackFreeExactly: ranges over byte strings, while `encode` receives well-formed UTF-8; for those texts alone completeness is sufficient but could be relaxed for bytes above 0x7F.
- Encoder panics inside the templates: there the encoder is a total parameter.
- The random seed, which is read from the clock, and the generator's full period.
- Printing, stdout errors, tracing, timing statistics, CLI parsing, `src/loader.rs`, `build.rs` and the benchmark mode of `src/main.rs`.
- `rms_norm_inplace`, `project_to_logits` and `project_into`, which generation does not use.
- The sliding-window session and HTTP server that the repository's README describes: not part of the code; a full context is an error.
- GGUF version 1 in the round trip: the parser reads version 1 counts but 8-byte string lengths, so it does not follow that version's layout.
- Allocation failure for huge declared counts and lengths in a header.
- Overflow of `i64` and `usize` products in the cache layout, and of the file size near 2^64.
- mmap and madvise effects, memory ordering of the atomics beyond interleaving, lock poisoning.
