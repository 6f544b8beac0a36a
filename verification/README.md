# LeanProxy in Dafny

LeanProxy is an MCP gateway. Everything that passes through it is scanned for secrets, and this project
models that scanner first: how it decides which regular expressions need not be run, how it finds, merges
and rewrites matches in a buffer, a JSON document and a stream, and what is promised of each. After it come
the smaller kernels with state or arithmetic of their own: edit distance, the rate limiter, the circuit
breaker, the capping of tool results, two caches, concurrent JSON-RPC batches and ranked tool search.

Check everything with `dafny verify dfyconfig.toml`.

| file | what it models |
|---|---|
| `Utf8`, `Folding`, `Regex` | decoding and encoding runes, case-fold orbits, the regex syntax tree and what it matches |
| `Prefilter`, `PrefilterFinds` | literals that every match of a pattern contains, and when it is sure to find some |
| `Spans`, `Redaction`, `StringRedaction` | merging ranges, rewriting around them, redacting a chunk, and a string pattern by pattern |
| `JsonRedaction` | the walk over a decoded document, and the test that skips it |
| `Stream`, `StreamRefinement`, `OneLength` | redacting a stream read by read, against the whole-buffer form |
| `SinglePattern`, `Tokens`, `TwoWords` | exactly when it does for one pattern, and what that means for open-ended tokens and for two literals |
| `Scanner`, `NestedTokens`, `HoldBack` | how patterns are searched for, two patterns one inside the other, and the exact length of the hold-back window |
| `EditDistance` | `levenshtein` and `SuggestSimilar` |
| `RateLimiter`, `CircuitBreaker` | the sliding window and the breaker, over whole runs |
| `Truncation` | the character budget of a tool result |
| `JoinedNames`, `ResultCache`, `SemanticCache` | names joined into keys, and the two caches against the history they stand for |
| `Batch` | a batch answered concurrently, against the sequential loop |
| `ToolSearch` | scoring, ranking and the precision guard |
| `Sorting`, `Wrappers` | stable sorting, sequence helpers, `Option` |

## How to read it

Code that loops over mutable state is a method with that loop, or a class with those fields, and its
postcondition equates what it computes with a function of its inputs or of the old state. The lemmas are
about that function: what it means, what every run of it keeps, and which simpler form it refines.

Things the code takes from elsewhere are parameters, with the facts used of them as predicates:

* `unicode.SimpleFold` is a function `sf`. `IsSimpleFold` asks for finite orbits, that scalar values go to
  scalar values, and that an ASCII rune's least orbit member is its upper case.
  `Folding.AsciiFoldIsSimpleFold` shows that this can be met.
* A compiled pattern is its syntax tree, the byte strings it matches (`word`) and `FindAllIndex` (`find`).
  `Redaction.FindsMatches` asks that `find` returns matches of the tree on rune boundaries, in order.
  `Stream.Searches`, used by the streaming theorems only, adds that what `find` returns are words, and that no
  word starts outside all of them. `Scanner.LiteralRedactorWorks` and `Tokens.TokenRedactorWorks` show that both can
  be met, by every ASCII literal and by tokens that are open at the end.
* Clock readings, search results of the vector store and the digest of the arguments are arguments. So is
  the order in which a Go map is iterated: it is either a list given in that order or left open.

The streaming theorems. Four lemmas say that for every split of the input into reads `RedactStream` replaces the very
spans that `findSpans` finds in the whole input. The first is exact:

* `SinglePattern.RefinesIffTimely`, for any one pattern of ASCII words, of any lengths and overlapping in any way, of
  which the longest is taken where several start. All inputs and reads are treated alike exactly if every proper
  beginning of a word is in time (`InTime`): whatever is found in it ends with it and has at most 64 KiB, so that it is
  held back, and if it is longer than `maxOverlap` it is found as a whole. Of words within `maxOverlap + 1` bytes (and
  64 KiB + 1) only this is left: nothing found in the beginning of a word ends before the beginning does (`Prompt`,
  `SinglePattern.ShortWordsRefineIffPrompt`).
* `StreamRefinement.StreamRefinesWholeBuffer`, for any patterns, if secrets can be told apart in time (`Separable`).
  An occurrence that starts inside another must end where the outer one can end too, so that the outer is
  recognised no later; the readings of an outermost secret must cover a range of lengths, the shortest at most
  `maxOverlap + 1` bytes and the longest at most 65537; and matching must be greedy. This covers disjoint secrets,
  marked tokens that are open at the end (`Tokens.TokensAreSeparable`), and such tokens of one pattern inside those of
  another (`NestedTokens.PairStreamRefines`).
* `OneLength.OneLengthStreamRefines`, for one pattern whose words all have one length of at most `maxOverlap + 1`
  bytes, whichever way it is searched for. Its words may overlap one another anywhere.
* `Tokens.TokenStreamRefines`, for any token of an ASCII prefix and letters of a class, on inputs of tokens of at most
  65537 bytes. That length is exact (`Tokens.TokenRefinementIsExact`). Of a longer token, a carry that ends behind
  its byte 65537 is replaced, and the tail that is read later goes out in the clear (`Tokens.LongTokenLosesItsTail`).

`maxOverlap + 1` is exact (`HoldBack.RefinementIsExact`, `HoldBack.DisjointRefinementIsExact`). Short words alone are not
enough. A pattern of two literals that both fit the window is treated alike exactly if the shorter one ends nowhere in
the longer one but at its end or a byte before (`TwoWords.TwoWordsRefineExactly`): `abc|b` is, `abcd|b` and `abcd|ab` are
not (`TwoWords.InnerWordIsTakenEarly`). What holds of every matcher is that no occurrence of at most `maxOverlap + 1`
bytes is emitted whole (`Stream.NoOccurrenceIsEmittedWhole`), and that length is exact as well
(`HoldBack.HoldBackIsExact`).

## Where the code and its comments differ

The model follows the code.

* `findSpans` says that it joins overlapping or adjacent matches (pkg/bouncer/redactor.go:64-66). Its
  comparison is strict (line 92), so ranges that only touch stay apart (`Spans.MergedAcross`,
  `Spans.TouchingStayApart`).
* The hold-back window is said to need the length of the longest secret (pkg/bouncer/redactor.go:19-22); one
  byte less is enough for every secret to be seen (`HoldBack.HoldBackIsExact`). For it to be redacted as it would be in
  the whole buffer, no window is enough if a shorter word can be found in it early (`TwoWords.TwoWordsRefineExactly`).
* The fast path of `truncateToolResultTracked` says that decoded text never exceeds its encoding
  (pkg/mcp/caps.go:152-155). A stray byte of ill-formed UTF-8 decodes to the three bytes of U+FFFD. The fast path
  agrees with the full path for every document of at most twelve stray bytes, and from thirteen on it can
  fail under every cap (`Truncation.FastPathIsExact`).
* The full-coverage bonus is said to keep partial matches below full ones (pkg/mcp/search.go:11-14). That
  holds exactly for queries of at most a hundred words (`ToolSearch.BonusSeparatesUpTo100`).
* `resultCacheKey` separates names by NUL (pkg/mcp/resultcache.go:45-48). A server and tool share their keys with
  another pair of names exactly if the server's name or the tool's holds a NUL (`ResultCache.KeyIsSharedIffNul`).
* TTLs are kept by server and tool with a slash between (pkg/mcp/resultcache.go:31), so to enable the tool "c" of the
  server "a/b" is to enable the tool "b/c" of the server "a". Some other pair is enabled exactly if one of the two names
  holds a slash (`ResultCache.TtlIsSharedIffSlash`).
* Different tools are said never to share an entry of the semantic cache (pkg/cache/semantic_cache.go:163-164). They can
  share its key, exactly if the tool or the prompt holds a NUL (`SemanticCache.KeyIsSharedIffNul`). An entry that is
  found but not usable is taken for expired and removed (lines 302-313), so a Get of the one tool then drops a fresh
  entry of the other (`SemanticCache.CollidingGetDrops`).
* Keys of a JSON object that are redacted to the same text leave one field (pkg/bouncer/redactor.go:313-321). All fields
  stay exactly if the redacted keys differ (`JsonRedaction.FieldsStayIffKeysDiffer`).
* A stale candidate that a search of the semantic cache passes counts as a miss of its own
  (pkg/cache/semantic_cache.go:362-376). After a run, hits and misses add up to requests exactly if no Get met one before
  the candidate it served (`SemanticCache.CountsAddUp`); `SemanticCache.StaleCandidateCountsTwice` is a run where they
  do not.
* `State` of the circuit breaker can answer "closed" for a half-open breaker (pkg/concurrent/circuit.go:94-96).
  That happens in some history exactly if the half-open limit, as an int32, is below one.

## Model

| member | source | states |
|---|---|---|
| Folding.MinFoldClassifies | pkg/bouncer/prefilter.go:267-278 | two runes have the same representative exactly when they lie in one SimpleFold orbit |
| Folding.ComputeMinFold | pkg/bouncer/prefilter.go:270-278 | the walk round the orbit ends, and returns its least member |
| Folding.ComputeFoldNorm | pkg/bouncer/prefilter.go:283-300 | byte loop with ASCII fast path: the encoding of every decoded rune's representative, for any bytes |
| Folding.AsciiFoldIsSimpleFold | pkg/bouncer/prefilter.go:280-282 | the facts used of SimpleFold can be met, with the three-rune orbits of k and s |
| Utf8.RunesOfEncode | pkg/bouncer/prefilter.go:295-297 | decoding undoes encoding on every string of scalar values |
| Utf8.EncodeOfRunes | pkg/bouncer/redactor.go:338-348 | and encoding undoes decoding on well-formed text |
| Prefilter.PureLitsComplete | pkg/bouncer/prefilter.go:88-142 | whatever a purely literal node matches folds to one of its literals |
| Prefilter.PureLitsTight | pkg/bouncer/prefilter.go:88-142 | and each of its literals is the fold of some match |
| Prefilter.PureLitsSize | pkg/bouncer/prefilter.go:85-86 | no literal set, cross products included, grows past 32 |
| Prefilter.ComputePureLits | pkg/bouncer/prefilter.go:93-142 | the recursive loops compute that set, or give up at the same size limits |
| Prefilter.ComputeConcatLits | pkg/bouncer/prefilter.go:123-138 | the accumulator loop over the children of a concatenation |
| Prefilter.ComputeAlternateLits | pkg/bouncer/prefilter.go:113-122 | and over those of an alternation |
| Prefilter.ComputeClassLits | pkg/bouncer/prefilter.go:99-110 | a character class is expanded rune by rune until it gets too large |
| Prefilter.ComputeCross | pkg/bouncer/prefilter.go:130-136 | the nested loops give every string of one set followed by every string of the other |
| Prefilter.RequiredSetsSound | pkg/bouncer/prefilter.go:144-213 | for every syntax tree, the fold of every match contains a literal of each required set |
| Prefilter.ComputeRequiredSets | pkg/bouncer/prefilter.go:146-213 | the recursion over the tree computes those sets |
| Prefilter.ComputeConcatSets | pkg/bouncer/prefilter.go:153-184 | maximal runs of literal children are multiplied out, flushed at any other child |
| Prefilter.ComputeAlternateSets | pkg/bouncer/prefilter.go:192-209 | one set, the union of each branch's best; none if a branch guarantees nothing |
| Prefilter.ComputeBest | pkg/bouncer/prefilter.go:201-206 | the set of greatest minimum length, the first of those that tie |
| Prefilter.ComputeMinLitLen | pkg/bouncer/prefilter.go:75-83 | the least length in a set |
| Prefilter.KeepStrong | pkg/bouncer/prefilter.go:55-61 | weak sets are filtered out within the slice's own array, in order |
| Prefilter.ComputeTriggers | pkg/bouncer/prefilter.go:49-73 | filter, sort and cut give the trigger sets |
| Prefilter.TriggersAreMostSelective | pkg/bouncer/prefilter.go:33-35 | at most two strong sets are kept, none passed over is more selective than one kept, and fewer than two are kept only if there are no more |
| Prefilter.TriggersSound | pkg/bouncer/prefilter.go:13-22 | the fold of every match contains a literal from every trigger set |
| Prefilter.SkippedScansMatchNothing | pkg/bouncer/prefilter.go:13-22 | any bytes in which the pattern matches somewhere pass its prefilter, ill-formed UTF-8 included |
| Prefilter.ComputePossible | pkg/bouncer/prefilter.go:216-252 | the nested scans with early exit answer whether every set has a hit |
| PrefilterFinds.PureLitsCount | pkg/bouncer/prefilter.go:85-142 | a purely literal set is found exactly for trees of empty matches, literals, classes, captures, alternations and concatenations that spell out at most 32 strings, and it has as many |
| PrefilterFinds.LitsAreFolds | pkg/bouncer/prefilter.go:88-142 | its members are exactly the folds of the matches |
| PrefilterFinds.RunIsRequired | pkg/bouncer/prefilter.go:153-184 | of a concatenation, each longest run of such children of at most 32 strings that is more than the empty string gives its literals as a required set |
| PrefilterFinds.SmallChildIsRequired | pkg/bouncer/prefilter.go:153-184 | and every such child, in a run that is too long as well, is in some stretch whose literals are one |
| PrefilterFinds.ChildIsRequired | pkg/bouncer/prefilter.go:176-180 | every other child gives all of its own sets |
| PrefilterFinds.WrappersKeepSets | pkg/bouncer/prefilter.go:151-191 | a capture, a plus and a repeat of at least one have the sets of their child, a repeat of less none |
| PrefilterFinds.AlternationNeedsAll | pkg/bouncer/prefilter.go:192-209 | an alternation has a set exactly if each branch has one, made of one set of each branch: the first of the greatest least length |
| PrefilterFinds.SetsIffGuaranteed | pkg/bouncer/prefilter.go:144-213 | for every tree, some set is found exactly if the tree guarantees something of every match |
| PrefilterFinds.TriggersIffLong | pkg/bouncer/prefilter.go:50-73 | there is a trigger exactly if some required set has no literal under two bytes |
| PrefilterFinds.RunGivesTrigger | pkg/bouncer/prefilter.go:50-73 | so a concatenation with a run all of whose matches fold to two bytes or more has one |
| PrefilterFinds.LiteralGivesTrigger | pkg/bouncer/prefilter.go:50-73 | and so has any with a literal of two runes or more |
| PrefilterFinds.PassesIffAllOccur | pkg/bouncer/prefilter.go:217-251 | a text passes exactly if some literal of every trigger set occurs in it |
| Spans.MergeGivesPieces | pkg/bouncer/redactor.go:83-101 | merged ranges are non-empty, ordered and disjoint; each range lies in one, each holds only bytes of some range, and none can be cut where no range runs across |
| Spans.MergedAcross | pkg/bouncer/redactor.go:89-99 | a merged span runs across a point exactly if some range does |
| Spans.TouchingStayApart | pkg/bouncer/redactor.go:92-98 | two ranges that touch are not joined |
| Spans.MergeInPlace | pkg/bouncer/redactor.go:89-100 | merging inside the array being read overwrites nothing unread |
| Spans.ApplySpans | pkg/bouncer/redactor.go:105-113 | the loop appends the rewriting of the data up to the limit |
| Spans.ApplyIsByteWalk | pkg/bouncer/redactor.go:103-113 | read byte by byte: one marker where a span starts, nothing else inside it, every uncovered byte in order |
| Spans.ApplySplit | pkg/bouncer/redactor.go:181-186 | rewriting up to a point no span crosses and then on from it is rewriting it all |
| Redaction.NewRedactor | pkg/bouncer/redactor.go:42-49 | every pattern gets its triggers; the buffer and overlap defaults |
| Redaction.MatchPasses | pkg/bouncer/prefilter.go:215-233 | a pattern with a match is never skipped |
| Redaction.PrefilterIsInvisible | pkg/bouncer/redactor.go:67-101 | for all patterns and inputs findSpans is the same with and without its prefilter |
| Redaction.SpansInOrder | pkg/bouncer/redactor.go:64-101 | findSpans returns in order the pieces of exactly the non-empty ranges that the patterns match |
| Redaction.Collect | pkg/bouncer/redactor.go:68-79 | the collecting loops, with the prefilter consulted and empty matches dropped |
| Redaction.ComputeSpans | pkg/bouncer/redactor.go:67-101 | collecting, sorting and merging in place compute findSpans |
| Redaction.RedactChunk | pkg/bouncer/redactor.go:211-219 | the rewritten chunk and the number of spans, also where there are none |
| Redaction.ComputeHasInvisible | pkg/bouncer/redactor.go:365-377 | the ASCII pre-check never hides an invisible rune |
| Redaction.ComputeRedactString | pkg/bouncer/redactor.go:379-400 | the pattern loop, whose prefilter text stays that of the original |
| Redaction.RedactStringUntouched | pkg/bouncer/redactor.go:379-400 | count 0 exactly when no pattern matches the visible text, and then the string is returned as it was, invisible runes and all |
| Redaction.StringAgreesWithChunk | pkg/bouncer/redactor.go:211-219 | with one pattern and no empty match, text without invisible runes is redacted alike as a string and as bytes, with the same count |
| StringRedaction.RewriteTwice | pkg/bouncer/redactor.go:384-396 | rewriting around some spans and then around others, as they stand there, is rewriting around all of them |
| StringRedaction.StringIsRedactedAsBytes | pkg/bouncer/redactor.go:378-403 | for any list of patterns whose matches lie apart, and whose markers neither complete nor destroy one, a string comes out as findSpans would have it rewritten, counted by its spans |
| StringRedaction.OnePatternMatches | pkg/bouncer/redactor.go:384-396 | in particular, if one pattern of the list matches, whichever it is, all its matches are replaced and counted |
| StringRedaction.SkippedPatternIsNotRun | pkg/bouncer/redactor.go:384-390 | a pattern that the prefilter skips on the visible text is not run on what earlier patterns leave either |
| StringRedaction.VisibleRunes | pkg/bouncer/redactor.go:336-360 | what is matched against has the runes of the text outside a list of fourteen code points, in order |
| StringRedaction.InvisibleHidesNothing | pkg/bouncer/redactor.go:378-403 | well-formed text with such runes put in anywhere is redacted exactly if it is without them, and to the same |
| JsonRedaction.ComputeRedactValue | pkg/bouncer/redactor.go:287-334 | the recursive walk computes the redacted value and the count |
| JsonRedaction.ComputeRedactArray | pkg/bouncer/redactor.go:323-330 | elements are replaced one by one |
| JsonRedaction.ComputeRedactObject | pkg/bouncer/redactor.go:291-322 | sensitive keys blank their strings, redacted keys are taken out and re-inserted after the range |
| JsonRedaction.WalkFindsAll | pkg/bouncer/redactor.go:287-334 | at any depth the count is 0 exactly when every string and key is safe and no sensitive key holds a non-empty string, and then nothing is changed |
| JsonRedaction.FieldBecomes | pkg/bouncer/redactor.go:296-322 | a field whose redacted key no other redacted key equals comes out under that key: with the marker if the key is sensitive and the value a non-empty string, else with its value redacted |
| JsonRedaction.ItemsBecome | pkg/bouncer/redactor.go:289-333 | an array comes out item by item, a string as redactString has it, anything else as it was |
| JsonRedaction.ObjectCountsAdd | pkg/bouncer/redactor.go:296-310 | the count of an object is the sum over its fields: one for a sensitive value or else the count of the value, and the count of the key |
| JsonRedaction.ArrayCountsAdd | pkg/bouncer/redactor.go:323-330 | that of an array is the sum over its items |
| JsonRedaction.CountIgnoresOrder | pkg/bouncer/redactor.go:296-310 | in whatever order a map is iterated, the count is the same |
| JsonRedaction.FieldsStayIffKeysDiffer | pkg/bouncer/redactor.go:296-321 | an object comes out with each of its redacted keys once, and so keeps its number of fields exactly if they are pairwise distinct |
| JsonRedaction.ComputeCanSkipJson | pkg/bouncer/redactor.go:267-276 | the early exits and the two prefilters compute the skip test |
| JsonRedaction.SkipsIffLacking | pkg/bouncer/redactor.go:267-276 | a document is let through exactly if it has no backslash and no invisible rune, and its folded text lacks a trigger of every pattern and of the sensitive keys |
| JsonRedaction.SkippedString | pkg/bouncer/redactor.go:259-276 | a string within a skippable document matches no pattern and is no sensitive key |
| JsonRedaction.JsonSkipIsSound | pkg/bouncer/redactor.go:259-276 | a skippable document has no value, key or sensitive-key value to redact (strings per section 7 of RFC 8259) |
| JsonRedaction.SkippedFallback | pkg/bouncer/redactor.go:238-245 | nor would the byte-level fallback have found anything |
| JsonRedaction.RedactJson | pkg/bouncer/redactor.go:226-257 | skipped or not, the count is that of the full treatment, and what goes out verbatim is what that leaves alone |
| Stream.ComputeScan | pkg/bouncer/redactor.go:157-179 | the hold-back rules as written give the spans to replace and the end of what is emitted, which no span passes |
| Stream.RedactStream | pkg/bouncer/redactor.go:141-193 | the loop with its carry writes the output of the run, for every split into reads, ended by EOF or by an error |
| Stream.StreamIsApply | pkg/bouncer/redactor.go:114-193 | conservation: the output is the consumed input with ordered disjoint spans replaced, and at EOF all of it is consumed |
| Stream.ErrorCutsOutputShort | pkg/bouncer/redactor.go:149-151 | a read error leaves a prefix of what would have been written, whatever the matcher |
| Stream.CarryIsBounded | pkg/bouncer/redactor.go:153-187 | at a loop head the carry is at most max(bufferSize + maxOverlap - 1, 64 KiB, maxOverlap) |
| Stream.ScannedBufferIsBounded | pkg/bouncer/buffer_pool.go:8-23 | and what is scanned at most one pooled buffer of 4096 bytes more |
| Stream.NothingBeforeThreshold | pkg/bouncer/redactor.go:128-156 | below bufferSize + maxOverlap bytes nothing is replaced or written |
| Stream.EveryReadIsScanned | pkg/bouncer/redactor.go:153-187 | from then on each read is scanned: what it leaves is at most the window, or a match of at most 64 KiB |
| Stream.ScanKeepsOrHolds | pkg/bouncer/redactor.go:160-179 | a span that a scan does not replace is left for the next one whole |
| Stream.ScanHoldsTail | pkg/bouncer/redactor.go:169-179 | what is emitted of the last maxOverlap bytes lies before the end of a replaced span |
| Stream.ScanCatches | pkg/bouncer/redactor.go:157-187 | an occurrence that starts in the part one scan emits meets a span that it replaces |
| Stream.NoOccurrenceIsEmittedWhole | pkg/bouncer/redactor.go:115-119 | for every split into reads, every occurrence of at most maxOverlap + 1 bytes meets a replaced span, overlapping others or not |
| Scanner.LiteralRedactorWorks | pkg/bouncer/redactor.go:74-78 | a redactor of any ASCII literal, found leftmost first, meets all that is assumed of patterns and of the search |
| Tokens.TokenRedactorWorks | pkg/bouncer/redactor.go:161-164 | so does one of a prefix followed by n or more bytes of a class, taken to the last of them |
| SinglePattern.RefinesIffTimely | pkg/bouncer/redactor.go:115-193 | for every pattern of ASCII words of which the longest is taken, buffer size and window, the stream replaces the spans of the whole buffer for all inputs and reads exactly if whatever is found in a beginning of a word can be held back until the word is complete, and beginnings longer than the window are found as a whole |
| SinglePattern.ShortWordsRefineIffPrompt | pkg/bouncer/redactor.go:19-27 | of words that fit the window and can be held back, exactly if nothing found in a beginning of a word ends before it |
| SinglePattern.ScanTakesMatches | pkg/bouncer/redactor.go:157-187 | if the words of the input are found in time, a scan replaces the first matches of all of it, and the search goes on behind what it emits as it would have |
| SinglePattern.TimelyInputRefines | pkg/bouncer/redactor.go:115-193 | so, whatever other words the pattern has, an input whose own words are found in time may be cut anywhere |
| SinglePattern.LateWordShows | pkg/bouncer/redactor.go:160-179 | for every beginning of a word that is not in time, an input read up to there is not treated as the whole buffer is |
| Tokens.TokenStreamRefines | pkg/bouncer/redactor.go:115-193 | for every token pattern whose least token fits the window, on all inputs of tokens of at most 65537 bytes, the stream replaces the spans of the whole buffer for every split into reads |
| Tokens.TokenRefinementIsExact | pkg/bouncer/redactor.go:25-27 | for every token pattern, buffer size and window: all inputs of tokens of at most k bytes are treated alike exactly if there are none so short, or the least one is at most maxOverlap + 1 bytes long and k at most 65537 or the least |
| Tokens.LongTokenLosesItsTail | pkg/bouncer/redactor.go:161-168 | of a marked token of more than 65537 bytes, read up to there, only those are replaced, where the whole buffer replaces all |
| Tokens.TokensAreSeparable | pkg/bouncer/redactor.go:160-168 | marked tokens, least length within the window and none over 65537 bytes, can be told apart in time |
| NestedTokens.PairStreamRefines | pkg/bouncer/redactor.go:115-193 | so it does for two patterns of which one also matches inside what the other matches, if the outer one is recognised no later and no token has more than 65537 bytes |
| TwoWords.TwoWordsRefineExactly | pkg/bouncer/redactor.go:157-187 | for every two ASCII literals within the window as one pattern, the stream replaces the spans of the whole buffer, for all inputs and reads, exactly if the shorter one stands nowhere in the longer one but at its end or a byte before |
| TwoWords.InnerWordIsTakenEarly | pkg/bouncer/redactor.go:157-187 | for every buffer size and every window of three bytes or more, the pattern of abcd and b, and that of abcd and ab, are not treated alike in some stream, and that of abc and b is in all |
| OneLength.SpansAreWords | pkg/bouncer/redactor.go:67-101 | for one pattern of words of one length, findSpans returns the leftmost words, none overlapping the next |
| OneLength.ScanTakesWords | pkg/bouncer/redactor.go:157-187 | a scan replaces the first of them, and the rest are those of the input after what it emits |
| OneLength.OneLengthStreamRefines | pkg/bouncer/redactor.go:115-193 | for one pattern of words of one length within the window, overlapping or not, the stream replaces the spans of the whole buffer for every split into reads |
| HoldBack.LongSecretEscapes | pkg/bouncer/redactor.go:19-23 | for every ASCII literal of more than maxOverlap + 1 bytes, an input and reads of which no byte is replaced |
| HoldBack.HoldBackIsExact | pkg/bouncer/redactor.go:19-23 | for every buffer size and window, secrets of n bytes always meet a replaced span exactly if n is at most maxOverlap + 1 |
| HoldBack.RefinementIsExact | pkg/bouncer/redactor.go:115-193 | for every non-empty ASCII literal, buffer size and window, its redactor replaces the same spans in every stream, however read, as in the whole buffer, exactly if the literal is at most maxOverlap + 1 bytes long |
| HoldBack.DisjointRefinementIsExact | pkg/bouncer/redactor.go:115-193 | for every buffer size and window, all redactors do so on all inputs of pairwise disjoint occurrences of at most n bytes exactly if n is at most maxOverlap + 1 |
| StreamRefinement.SpansAreMaximal | pkg/bouncer/redactor.go:67-101 | where inner occurrences can be read as the end of outer ones, findSpans returns exactly the longest readings of the outermost |
| StreamRefinement.NoOccurrenceIsSplit | pkg/bouncer/redactor.go:160-187 | an occurrence that starts in what a scan emits lies in a span that it replaces |
| StreamRefinement.NextStartIsClean | pkg/bouncer/redactor.go:181-187 | the next carry never starts strictly inside an occurrence |
| StreamRefinement.ReplacedIsMax | pkg/bouncer/redactor.go:160-168 | what a scan replaces before EOF could not have grown with more input |
| StreamRefinement.ScanReplacesMaxima | pkg/bouncer/redactor.go:157-187 | a scan replaces exactly the outermost longest readings that start in what it emits |
| StreamRefinement.RunReplacesMaxima | pkg/bouncer/redactor.go:141-193 | and so does a run, whatever its reads |
| StreamRefinement.StreamRefinesWholeBuffer | pkg/bouncer/redactor.go:115-193 | for every split into reads, RedactStream replaces the spans of findSpans on the whole input and writes what redactChunkWithCount returns for it |
| StreamRefinement.SameSpansSameBytes | pkg/bouncer/redactor.go:179-186 | replacing the same spans is writing the same bytes |
| StreamRefinement.FailedStreamIsPrefix | pkg/bouncer/redactor.go:149-151 | under the same assumption, a stream that a read error ends has written a prefix of the whole-buffer result |
| StreamRefinement.DisjointIsSeparable | pkg/bouncer/redactor.go:115-119 | pairwise disjoint occurrences within the window are a case of it |
| StreamRefinement.StreamRefinesWholeBufferWhenDisjoint | pkg/bouncer/redactor.go:115-193 | the same refinement for pairwise disjoint occurrences of at most maxOverlap + 1 bytes |
| EditDistance.Levenshtein | pkg/migrate/installer.go:485-516 | two rows, swapped after each line, shorter string across: the cell recurrence at the two lengths |
| EditDistance.NoShorterScript | pkg/migrate/installer.go:482-516 | no list of inserts, deletes and substitutes, made anywhere and in any order, turns a into b in fewer steps |
| EditDistance.ShortestScript | pkg/migrate/installer.go:482-516 | and a list of exactly that length does |
| EditDistance.ZeroMeansEqual | pkg/migrate/installer.go:486-488 | zero exactly between equal strings |
| EditDistance.Symmetric | pkg/migrate/installer.go:496-498 | swapping the arguments changes nothing |
| EditDistance.Triangle | pkg/migrate/installer.go:482-516 | the triangle inequality |
| EditDistance.SuggestSimilar | pkg/migrate/installer.go:449-480 | filter, stable sort and limit compute the first names of the ranking |
| EditDistance.SuggestionsAreClosest | pkg/migrate/installer.go:446-480 | suggestions are eligible and in order of distance, no eligible name left out is strictly closer, and none is left out below the limit |
| EditDistance.SuggestsUpToLimit | pkg/migrate/installer.go:449-480 | as many are given as can be, up to the limit if there is one |
| EditDistance.TiesKeepOrder | pkg/migrate/installer.go:469-471 | names at the same distance keep the order of the catalogue |
| RateLimiter.RateLimiter.constructor | pkg/concurrent/ratelimit.go:24-44 | defaults for a limit or window that is not positive; no request yet |
| RateLimiter.RateLimiter.Allow | pkg/concurrent/ratelimit.go:46-68 | the in-place pruning loop, the decision and the new state |
| RateLimiter.RateLimiter.CleanupTick | pkg/concurrent/ratelimit.go:78-90 | a tick keeps exactly the requests still in the window |
| RateLimiter.DecidesFromHistory | pkg/concurrent/ratelimit.go:46-94 | over every run with a clock that does not go back, each decision is the one the full admission history calls for |
| RateLimiter.RefusedOnlyWhenFull | pkg/concurrent/ratelimit.go:46-68 | after every run, a call is refused exactly if max admitted requests lie in the closed window that ends with it |
| RateLimiter.BlockedCounts | pkg/concurrent/ratelimit.go:60-64 | the blocked counter counts the refusals of a run |
| RateLimiter.TicksAreUnobservable | pkg/concurrent/ratelimit.go:70-95 | taking every cleaner tick out of a run changes no decision |
| RateLimiter.NeverOverLimit | pkg/concurrent/ratelimit.go:46-94 | whatever the history before, a run keeps every closed window within the limit |
| RateLimiter.SlidingWindow | pkg/concurrent/ratelimit.go:46-94 | from a new limiter, every closed interval of one window holds at most max admitted requests |
| CircuitBreaker.CircuitBreaker.constructor | pkg/concurrent/circuit.go:60-72 | closed, with nothing counted |
| CircuitBreaker.CircuitBreaker.State | pkg/concurrent/circuit.go:74-99 | the answer, and the move to half-open after the cooldown |
| CircuitBreaker.CircuitBreaker.RecordSuccess | pkg/concurrent/circuit.go:101-118 | the new state, with int32 counters that wrap |
| CircuitBreaker.CircuitBreaker.RecordFailure | pkg/concurrent/circuit.go:120-137 | the new state, with int32 counters that wrap |
| CircuitBreaker.CircuitBreaker.Allow | pkg/concurrent/circuit.go:139-142 | allowed unless State answers open |
| CircuitBreaker.CircuitBreaker.Reset | pkg/concurrent/circuit.go:169-177 | closed, with the counts of the current round cleared |
| CircuitBreaker.FieldsFollowHistory | pkg/concurrent/circuit.go:74-142 | after every history: a closed breaker's count is the failures in a row, below the threshold; otherwise the time kept is that of the last failure; half-open successes are short of the limit |
| CircuitBreaker.TotalsCount | pkg/concurrent/circuit.go:101-126 | the totals count the successes and failures of the whole history, as an int32 |
| CircuitBreaker.StateAnswers | pkg/concurrent/circuit.go:74-99 | after every history State answers closed for a closed breaker, half-open for a half-open one, and for an open one open until the cooldown since the last failure has passed |
| CircuitBreaker.RefusedOnlyInCooldown | pkg/concurrent/circuit.go:139-142 | so Allow refuses exactly while the breaker is open and that cooldown lasts |
| CircuitBreaker.QueryHalfOpens | pkg/concurrent/circuit.go:81-92 | asking changes nothing but an open breaker whose cooldown has passed |
| CircuitBreaker.OpensOnThreshold | pkg/concurrent/circuit.go:128-132 | a closed breaker opens exactly on the failure that makes threshold of them with no success between |
| CircuitBreaker.OpenUntilCooldown | pkg/concurrent/circuit.go:81-92 | an open breaker stays open exactly until the cooldown has passed since the last failure |
| CircuitBreaker.HalfOpenHistory | pkg/concurrent/circuit.go:81-90 | every half-open breaker came from a query after the cooldown, then successes and no failure or reset |
| CircuitBreaker.ClosesAfterSuccesses | pkg/concurrent/circuit.go:107-114 | apart from a reset it closes only on the success that completes the required number since that query |
| CircuitBreaker.CompletedSuccessesClose | pkg/concurrent/circuit.go:107-114 | and on that success it does |
| CircuitBreaker.StaleClosedAnswer | pkg/concurrent/circuit.go:94-96 | for every configuration, some history makes State answer closed for a half-open breaker exactly if the half-open limit, as an int32, is below one |
| Truncation.TruncateToolResult | pkg/mcp/caps.go:151-268 | fast path, parse failures, the two cap tests, kept blocks, notes and marker |
| Truncation.FullPathCaps | pkg/mcp/caps.go:176-268 | beyond the fast path: rewritten exactly if there are blocks and the text or structuredContent is over cap + 100; then the kept blocks and one marker, whose notes name what was cut with its numbers; all blocks if the text fits, and structuredContent exactly if that does |
| Truncation.KeptIsCutOnce | pkg/mcp/caps.go:203-235 | over the budget the blocks are cut in one place: those before it stay as they are, one is cut at the last place where a rune may start, and of the rest those without text stay |
| Truncation.KeepWithin | pkg/mcp/caps.go:203-235 | the budget loop |
| Truncation.BackUpFindsBoundary | pkg/mcp/caps.go:218-223 | in well-formed text the cut is the greatest rune boundary within the budget, at most three bytes short of it (section 3 of RFC 3629) |
| Truncation.NonTextSurvives | pkg/mcp/caps.go:207-213 | blocks without text survive, all and in order, whatever the budget |
| Truncation.KeptTextIsPrefix | pkg/mcp/caps.go:203-235 | the kept text is a prefix of all the text, within the budget, and all of it if that fits |
| Truncation.KeptTextFillsBudget | pkg/mcp/caps.go:203-235 | over the budget, the kept text is well-formed and at most three bytes short of it |
| Truncation.FastPathIsExact | pkg/mcp/caps.go:152-158 | under every cap the fast path is right for all documents of at most k stray bytes exactly if k is at most twelve |
| ResultCache.KeyIsSharedIffNul | pkg/mcp/resultcache.go:45-48 | some other pair of names shares the key of a server and tool exactly if one of the two holds a NUL |
| ResultCache.KeyShape | pkg/mcp/resultcache.go:45-48 | two keys are equal exactly if the names read alike with a NUL between and the digests are equal |
| ResultCache.TtlIsSharedIffSlash | pkg/mcp/resultcache.go:30-43 | a TTL holds for another pair of names too exactly if the server's or the tool's holds a slash |
| ResultCache.KeysAreDistinct | pkg/mcp/resultcache.go:45-48 | so a key of names without NUL means one server, tool and digest |
| ResultCache.Handler.SetToolCacheTTL | pkg/mcp/resultcache.go:30-43 | a positive TTL enables the tool and creates the cache, any other disables it |
| ResultCache.Handler.CachedToolResult | pkg/mcp/resultcache.go:54-71 | a hit only while fresh; an expired entry is removed |
| ResultCache.Handler.StoreToolResult | pkg/mcp/resultcache.go:77-98 | what is refused, and the insertion after room was made |
| ResultCache.Handler.EvictLocked | pkg/mcp/resultcache.go:102-120 | one pass in any order: all expired entries, or else one soonest to expire |
| ResultCache.EvictionIsFair | pkg/mcp/resultcache.go:100-120 | at least one entry goes, and a live one only if none has expired, alone and of minimal expiry; what has expired goes, all of it |
| ResultCache.RunAgrees | pkg/mcp/resultcache.go:30-120 | after every run the cache holds at most 256 entries, each what was last stored under its key |
| ResultCache.HitIsLastStored | pkg/mcp/resultcache.go:50-71 | after every run a hit is the non-error result most recently stored for that key, not past its expiry |
| ResultCache.LiveEntryLeavesForRoom | pkg/mcp/resultcache.go:100-120 | a live entry leaves only a full cache in which nothing has expired, to make room for another key |
| ResultCache.HitsWhatWasStored | pkg/mcp/resultcache.go:54-98 | after every run that never met a full cache, a lookup of an enabled tool hits exactly if something was stored under the key and the last of it has not expired, and returns that |
| ResultCache.StoredIfWanted | pkg/mcp/resultcache.go:77-98 | what counts as stored is exactly what was handed in for a tool whose last TTL was positive, not empty, parsed and reporting no error |
| ResultCache.LookupAnswers | pkg/mcp/resultcache.go:54-71 | so after every run that never met a full cache, the latest lookup answers with the last such result, if it has not expired and the tool has a TTL, and with nothing otherwise |
| ResultCache.LookupDropsExpired | pkg/mcp/resultcache.go:63-69 | and leaves nothing expired under its key |
| SemanticCache.SemanticCache.Get | pkg/cache/semantic_cache.go:279-352 | exact hit, removal of a stale entry, the loop over candidates, and every counter |
| SemanticCache.SemanticCache.TrySemanticHit | pkg/cache/semantic_cache.go:358-391 | a candidate is served, passed over or found stale, with the counters and average that go with it |
| SemanticCache.SemanticCache.RemoveEntryLocked | pkg/cache/semantic_cache.go:399-402 | the entry goes and is counted |
| SemanticCache.SemanticCache.Set | pkg/cache/semantic_cache.go:411-456 | an empty response is refused; otherwise the entry is stored and the surplus evicted |
| SemanticCache.SemanticCache.EvictLruLocked | pkg/cache/semantic_cache.go:461-484 | exactly n entries go, none accessed later than one that stays |
| SemanticCache.SemanticCache.EvictExpired | pkg/cache/semantic_cache.go:543-562 | exactly the entries older than the TTL go, and are counted |
| SemanticCache.SetKeepsCap | pkg/cache/semantic_cache.go:442-448 | with a positive cap, never more than maxEntries after Set: one too many is evicted down to a tenth below it |
| SemanticCache.GetAccounts | pkg/cache/semantic_cache.go:279-391 | each Get adds one request and one outcome, and one miss more for every stale candidate passed |
| SemanticCache.NonePassedStale | pkg/cache/semantic_cache.go:334-376 | none is passed exactly if, as the cache stands when Get is called, no candidate before the first one served is stale |
| SemanticCache.RunAccounts | pkg/cache/semantic_cache.go:279-391 | after every run, hits and misses exceed requests by the stale candidates passed in it |
| SemanticCache.CountsAddUp | pkg/cache/semantic_cache.go:279-391 | after every run they add up to requests exactly if no Get of it met a stale candidate |
| SemanticCache.StaleCandidateCountsTwice | pkg/cache/semantic_cache.go:362-366 | one Get, with a candidate that the cache has lost, counts one request and two misses |
| SemanticCache.RunKeepsMean | pkg/cache/semantic_cache.go:378-380 | after every run the running average is the mean of the scores of all semantic hits |
| SemanticCache.RunIsBacked | pkg/cache/semantic_cache.go:279-562 | after every run each entry is the last Set under its key |
| SemanticCache.ExactHitIsLastSet | pkg/cache/semantic_cache.go:285-298 | an exact hit returns the last response set for this tool and prompt, within the TTL |
| SemanticCache.ExactHitIffSet | pkg/cache/semantic_cache.go:285-320 | after every run that never evicted for want of room, Get is an exact hit exactly if what was last set under its key was set for its tool, within the TTL, and no Get of another tool with the same key came after |
| SemanticCache.RunHoldsNoneDropped | pkg/cache/semantic_cache.go:302-320 | after every run, nothing is held under a key that a Get of another tool has met since it was set |
| SemanticCache.KeyIsSharedIffNul | pkg/cache/semantic_cache.go:163-168 | some other tool or prompt has the same key exactly if the tool or the prompt holds a NUL |
| SemanticCache.CollidingGetDrops | pkg/cache/semantic_cache.go:302-320 | a run in which a Get of another tool removes a fresh entry |
| SemanticCache.SemanticHitIsLastSet | pkg/cache/semantic_cache.go:334-391 | a semantic hit returns the last response set under a candidate over the threshold, for the same tool, within the TTL |
| SemanticCache.GetAnswers | pkg/cache/semantic_cache.go:279-352 | an entry under the own key is answered with if it can be used, and is a miss if not; without one, a search is answered exactly if some candidate qualifies |
| SemanticCache.TryAnswers | pkg/cache/semantic_cache.go:334-391 | namely from the first that is over the threshold, held, of this tool, within the TTL, and not dropped by an earlier candidate of the same id |
| SemanticCache.RunStamps | pkg/cache/semantic_cache.go:285-420 | after every run the last access of an entry is when it was last set or answered with |
| SemanticCache.EvictsLeastRecent | pkg/cache/semantic_cache.go:442-484 | so what a Set evicts was used no later than anything it leaves |
| SemanticCache.RunConserves | pkg/cache/semantic_cache.go:279-562 | after every run, what the cache holds and what it counts as evicted add up to the keys brought in |
| Batch.HandleSequential | cmd/serve.go:801-886 | the sequential loop answers in order, and nothing for notifications |
| Batch.CollectResponses | cmd/serve.go:1409-1414 | the slots that are not nil, in order |
| Batch.StepInv | cmd/serve.go:1389-1407 | every step of dispatcher and goroutines keeps: the semaphore and the wait group count the goroutines at work, and a slot is filled exactly once its goroutine has written it |
| Batch.ConcurrentRefinesSequential | cmd/serve.go:1389-1414 | in every interleaving at most eight entries are in flight, and the responses are those of the sequential loop |
| Batch.SlotsAreWrittenOnce | cmd/serve.go:1404-1404 | no slot is written twice in a run |
| Batch.NeverStuck | cmd/serve.go:1394-1407 | until the responses are collected some step can be taken |
| Batch.StepsDecreaseWork | cmd/serve.go:1394-1407 | every step uses up some of a finite amount of work, so every run ends |
| Batch.OneResponsePerCall | cmd/serve.go:1389-1414 | one response per entry with an id and none per notification (section 6 of the JSON-RPC 2.0 specification) |
| Batch.ResponsesInOrder | cmd/serve.go:1389-1390 | each response stands where the calls before it put it, is what processing its entry gave, and carries its id |
| ToolSearch.Score | pkg/mcp/search.go:125-135 | the word loop: ten for a hit in the name, three for one in the description only |
| ToolSearch.FindMatch | pkg/mcp/search.go:119-142 | what one tool contributes: empty query, misses, bonus |
| ToolSearch.CollectMatches | pkg/mcp/search.go:112-144 | server filter and matches, in listing order |
| ToolSearch.Guard | pkg/mcp/search.go:159-186 | the count of full matches and the three cases of the precision guard |
| ToolSearch.Search | pkg/mcp/search.go:100-187 | the three together, on a ranking of the matches |
| ToolSearch.RanksBeforeIsPreorder | pkg/mcp/search.go:149-157 | the comparison is a total preorder, as sort.Slice requires |
| ToolSearch.BonusSeparatesUpTo100 | pkg/mcp/search.go:11-14 | the bonus tells full coverage from partial in every query of n words exactly if n is at most 100 |
| ToolSearch.MatchesAreHits | pkg/mcp/search.go:112-144 | the matches are exactly the tools of the server asked for that hit some word: ten for each hit in the name, three for each other in the description, a thousand more if no word is missed |
| ToolSearch.NoWordsListAll | pkg/mcp/search.go:115-118 | an empty query lists every tool of the server |
| ToolSearch.StringLeIsLexicographic | pkg/mcp/search.go:153-156 | names are compared byte by byte, a prefix first |
| ToolSearch.SearchInOrder | pkg/mcp/search.go:93-99 | in what is returned, of two tools that hit as many words the one with more hits in its name comes first, then server and name decide |
| ToolSearch.FullCoverageLeads | pkg/mcp/search.go:139-171 | in every ranking of at most 100 words the matches of all words are exactly the first `full` |
| ToolSearch.SearchResult | pkg/mcp/search.go:159-186 | all full matches come first; without any, every match is kept; beside them exactly the matches that miss one word of a query of three or more |
| ToolSearch.OrderDoesNotMatter | pkg/mcp/search.go:146-157 | with unique server and tool names the answer depends neither on map order nor on how the sort breaks ties |

## Left out

- regexp and regexp/syntax: parsing is not modelled, the tree is taken as given. Zero-width assertions are let through wherever they stand, which only makes more strings match, and the streaming theorems are about matchers that look at the match alone.
- The concrete patterns of pkg/bouncer/allowlist.go, and loading custom ones.
- JsonRedaction.ComputeRedactObject: a Go map is a list of fields in the order it is iterated, and objects and arrays are values; aliasing of nested maps and slices is not modelled.
- StringRedaction.StringIsRedactedAsBytes: where a marker completes or destroys a match of a later pattern, or matches of two patterns overlap, the result is that of the loop, and nothing simpler is said of it.
- Stream.RedactStream: errors of the writer, buffering inside bufio and the alert at the end.
- JSON parsing and encoding, number formatting, HTML escaping; of a decoded document only that, without backslashes, its strings read like stretches of the raw text.
- SinglePattern.RefinesIffTimely: of patterns that prefer a shorter word to a longer one that starts there too, such as a non-greedy repetition, nothing exact is said.
- Alerts, logging, metrics and the optional second redactor (sidecar).
- SHA-256: the digest is an argument of the result cache's key; the semantic cache's key is the text that is hashed.
- The vector store: its answers are arbitrary lists of candidates; upserts, deletes and their errors have no effect here.
- SemanticCache.RunKeepsMean: scores and the average are reals, without rounding.
- Integer width: 64-bit counters (blocked requests, cache statistics) do not wrap here; the breaker's 32-bit ones do.
- Lock races: each method of the limiter, the breaker and the caches is one atomic step, and only the batch handler is interleaved. In the breaker, two calls to State could otherwise interleave between its two lock sections.
- RateLimiter.SlidingWindow: Reset, which empties the limiter, is not part of a run; nor are the per-server limiters.
- Circuit breaker groups, purging of the semantic cache, its statistics file and its background loop.
- Batch.HandleSequential: routing, upstream requests and redaction of one entry are a function of the entry; parse errors, the size limit and the empty batch are not modelled.
- Truncation.TruncateToolResult: caps are natural numbers, as the lookup that provides them only yields positive ones; that lookup and failures of re-encoding are not modelled.
- Rendering and limiting of search results, the tool cache and its population.
- Process pools, HTTP and SSE clients, dashboard, CLI, configuration, migration scanners and scripts: input, output and plumbing.
