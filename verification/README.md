# Gocene analysis: verified algorithms

Dafny models of the stateful algorithms in Gocene's `analysis` package, each
proved against a mathematical description of what it computes. Run
`dafny verify dfyconfig.toml` to verify the project.

| file | what it models |
|---|---|
| PowersOfTwo, ProbeTable | arithmetic modulo 2^p; slots and probes of the hash table |
| CharArrayMap, CharArraySet | the open-addressed map with growth and case folding, and the operations on two sets |
| AutomatonGraph, LayeredSearch, LayerOrder, TokenExpansion, AutomatonToTokenStream, AutomatonTokenStream | layered topological sort of an automaton, expansion into tokens, and the reader |
| FlattenGraph | greedy linear order of a token graph, with its second pass |
| RollingBuffer, LookaheadTokenFilter | the ring of reusable positions, and the peek/read buffer over it |
| TokenPositions, NGramTokenFilter, FilteringTokenFilter, RemoveDuplicatesTokenFilter | filters that rearrange tokens and keep positions |
| MinHashFilter | FNV-1a signatures printed in base 62 |
| PorterRules, PorterFacts, PorterWords, PorterStemFilter | the Porter steps as rules, what they do in letters, and the in-place stemmer that follows them |
| RuneBuffer, HindiNormalizer, GermanNormalization | in-place normalisers against left-to-right descriptions |
| CsvUtil, ReusableStringReader | printing and parsing of CSV lines; the hand-written UTF-8 reader |

How the source is rendered: Go slices that change in place are arrays or sequence
fields; runes are integers or characters; `int` is unbounded except where
wrap-around is the point (hash codes, MinHash). `unicode.ToLower` is any
function, for the hash table any idempotent one. A token stream is the sequence
of tokens it will deliver. A panic is a condition that the contract rules out,
or an explicit result. Not promised but worth knowing: normalising German text
twice may differ from normalising it once (IdempotentExactlyWhen), and the tokens
of an automaton may spell words that it rejects (SpelledExactlyWhenAccepted).

Where code and documentation disagree, the models follow the code:

- The automaton conversion says it groups states by distance from the start; the
  layer of a state is the length of its *longest* path (LayerIsLongestPath,
  LayerIsNotDistance). It also reports a cycle when a state with transitions
  merely cannot be reached (Convert, ConvertDetached).
- CopySet promises to keep the case setting; the copy of an empty set is always
  case sensitive.
- The flattening order promises longer spans first at each position; the second
  pass follows input order. BufferInput says for which inputs the promise holds,
  ConsumeUpset shows one for which it does not.
- MinHash promises hashCount times bucketCount terms for every token; an empty
  token gives one term, a bucketCount below one counts as one, and without hash
  functions every call reports the end (TermsOfOneToken, TermCount).
- The comment in Porter's step 5b says that j is still the end of the word; after
  step 5a has removed an e it lies one letter behind it, which the measure does
  not notice (DoStep5a).
- The stemmer fails on exactly the words that FallsShortExactlyWhen lists, such as
  "ies" or "aed".
- RemoveDuplicates promises to pass saved increments on; there are none to pass on.
- The CSV functions do not give back a field that holds both a comma and a quote,
  nor the list of a single empty field (RoundTrip).
- The end of an n-gram stream overwrites the increment that the source reports at
  its own end (EndIsShort).
- A second call after the end of a filtered stream loses the trailing increments
  (Consume).

## Model

| member | source | states |
|---|---|---|
| PowersOfTwo.OddInverse | analysis/char_array_map.go:196 | an odd number is invertible modulo every power of two |
| PowersOfTwo.OddStrideReaches | analysis/char_array_map.go:196-204 | from any start an odd stride reaches every slot of a power-of-two table in fewer steps than there are slots |
| PowersOfTwo.OddMultiplicationInjective | analysis/minhash_filter.go:119-131 | multiplying by an odd number loses nothing modulo a power of two |
| ProbeTable.SearchTerminates | analysis/char_array_map.go:190-206 | every search in a power-of-two table with a free slot stops within as many probes as there are slots |
| ProbeTable.LookupFinds | analysis/char_array_map.go:190-206 | the search ends at the one slot that holds the key, and at a free slot exactly when no slot does |
| ProbeTable.SearchEnds | analysis/char_array_map.go:198-204 | a probe that stops, none before it stopping, is where the search ends |
| ProbeTable.InsertKeepsPlacement | analysis/char_array_map.go:152-154 | storing an absent key where its search ended leaves every stored key findable and adds exactly that key |
| ProbeTable.LoadBoundLeavesSlot | analysis/char_array_map.go:156-158 | count + count/4 within the table size leaves a free slot |
| ProbeTable.KeyCount | analysis/char_array_map.go:156-158 | a stretch of the table without a gap holds as many distinct keys as slots |
| ProbeTable.InsertRepresents | analysis/char_array_map.go:152-154 | after an insert the two arrays represent the abstract map with the new entry, which is one larger |
| ProbeTable.ReplaceRepresents | analysis/char_array_map.go:147-151 | overwriting the value where the search ends is the abstract update, with the size unchanged |
| ProbeTable.LookupRepresents | analysis/char_array_map.go:100-117 | what the search finds is what the abstract map says |
| ProbeTable.WrappingDoesNotMoveSlots | analysis/char_array_map.go:190-206 | the wrap-around of 64-bit hash codes moves no probe, for tables of up to 2^56 slots |
| ProbeTable.HashAppend | analysis/char_array_map.go:291-308 | the hash is the polynomial in 31 of the runes: a stretch before n more runes counts for 31 to the n |
| ProbeTable.KnownHashes | analysis/char_array_map.go:196-326 | the hash of one key, and two strides |
| CharMap.CharArrayMap.constructor | analysis/char_array_map.go:41-51 | the new map is empty and its table has room for startSize entries |
| CharMap.CharArrayMap.Clear | analysis/char_array_map.go:63-72 | after clearing the abstract map is empty |
| CharMap.CharArrayMap.GetHashCode | analysis/char_array_map.go:291-308 | the hash of a slice is that of the folded key |
| CharMap.CharArrayMap.GetHashCodeString | analysis/char_array_map.go:311-326 | the hash of a string is the same function of the folded key |
| CharMap.CharArrayMap.EqualsRunes | analysis/char_array_map.go:246-266 | a slice equals a stored key exactly when the folded slice is that key |
| CharMap.CharArrayMap.EqualsString | analysis/char_array_map.go:269-288 | on folded stored keys the string comparison, which folds both sides, is the same test |
| CharMap.CharArrayMap.GetSlot | analysis/char_array_map.go:190-206 | on every reachable table the probe loop ends at the slot of the key, or at a free slot when the key is absent |
| CharMap.CharArrayMap.GetSlotString | analysis/char_array_map.go:209-225 | a string is found at the slot where its runes are found |
| CharMap.CharArrayMap.ContainsKey | analysis/char_array_map.go:75-77 | membership of the folded slice in the abstract map |
| CharMap.CharArrayMap.ContainsKeyString | analysis/char_array_map.go:80-82 | membership of the folded string in the abstract map |
| CharMap.CharArrayMap.Get | analysis/char_array_map.go:100-107 | the abstract map's value, or the zero value |
| CharMap.CharArrayMap.GetString | analysis/char_array_map.go:110-117 | the abstract map's value, or the zero value |
| CharMap.CharArrayMap.PutRunes | analysis/char_array_map.go:142-162 | returns the old value or zero, updates the abstract map at the folded key, and folds the caller's slice |
| CharMap.CharArrayMap.Rehash | analysis/char_array_map.go:228-243 | doubling the table changes no lookup and restores the load bound |
| CharMap.CharArrayMap.ToLowerRunes | analysis/char_array_map.go:527-531 | folds exactly the runes of the given stretch that exist |
| CharMap.CharArrayMap.FoldIdempotent | analysis/char_array_map.go:143-145 | folding a folded key changes nothing |
| CharMap.SameKeyExactly | analysis/char_array_map.go:246-288 | two keys are one exactly when they agree in every rune, or with ignored case in every lower-cased rune |
| CharMap.FoldsEveryRune | analysis/char_array_map.go:527-531 | folding lower-cases the rune at every index, or none |
| CharMap.CharArrayMap.FreeSlot | analysis/char_array_map.go:156-158 | every reachable table has a free slot |
| CharSet.CharArraySet.Contains | analysis/char_array_set.go:68-70 | membership of the folded slice |
| CharSet.CharArraySet.Add | analysis/char_array_set.go:85-92 | adds the folded element and reports whether it was new |
| CharSet.CharArraySet.AddRunes | analysis/char_array_set.go:98-105 | adds the folded element; the caller's slice is folded only when it was new |
| CharSet.CopySet | analysis/char_array_set.go:319-338 | the copy has the same elements; it ignores case only if the original does and is not empty |
| CharSet.SetEquals | analysis/char_array_set.go:356-368 | size and one-way inclusion decide equality unless only the second set ignores case |
| CharSet.InclusionAndSize | analysis/char_array_set.go:356-368 | two finite sets are equal exactly when they have one size and one includes the other |
| CharSet.EqualsCanConfuseCase | analysis/char_array_set.go:356-368 | with only the second set ignoring case the test accepts two different sets |
| CharSet.ConfuseCase | analysis/char_array_set.go:356-368 | two such sets built by adding one key each, which SetEquals takes for equal |
| CharSet.SetUnion | analysis/char_array_set.go:371-390 | the union of the first set and the second one folded, for all flags, and what is left in the slots of the second set; the plain union, with the arguments unchanged, unless only the first set ignores case |
| CharSet.SetIntersection | analysis/char_array_set.go:393-414 | the elements of the smaller set that the larger one finds, folded by the result, for all flags; the plain intersection for sets that agree on case |
| CharSet.SetDifference | analysis/char_array_set.go:417-430 | the elements of the first set that the second one does not find, for all flags; the plain difference unless only the second set ignores case; the first set is unchanged |
| CharSet.SelectedAmongEqual | analysis/char_array_set.go:393-430 | the elements of one set that the other finds are those of the plain intersection, the others those of the difference |
| CharSet.AddedKeeps | analysis/char_array_set.go:371-390 | adding keys that folding leaves alone rewrites no slot |
| CharSet.StoredKeysAreFolded | analysis/char_array_map.go:143-145 | every stored key is already in the form that lookups compare |
| AutomatonGraph.CountToPositive | analysis/automaton_to_token_stream.go:39-44 | a state has an incoming count exactly when some transition leads to it |
| AutomatonGraph.PendingZero | analysis/automaton_to_token_stream.go:60-65 | no transition into a state is pending exactly when all its predecessors are done |
| AutomatonGraph.PathClimbs | analysis/automaton_to_token_stream.go:57-72 | along a path of numbered states the layer grows by at least one a step |
| AutomatonGraph.LayerIsLongestPath | analysis/automaton_to_token_stream.go:49-72 | the layer of a state is the length of a longest path to it from the start |
| AutomatonGraph.TotalLayeringIsAcyclic | analysis/automaton_to_token_stream.go:74-78 | a layering of every edge rules out cycles and sources out of reach |
| AutomatonGraph.UnnumberedImpliesCycle | analysis/automaton_to_token_stream.go:74-78 | a reachable state that the search left out lies below a cycle of such states |
| AutomatonGraph.DetachedIsAcyclic | analysis/automaton_to_token_stream.go:74-78 | three states with one edge out of reach: no cycle, but a source that cannot be reached |
| AutomatonGraph.LayerIsNotDistance | analysis/automaton_to_token_stream.go:21-22 | a state one edge from the start whose layer is at least two |
| LayeredSearch.RelaxStep | analysis/automaton_to_token_stream.go:60-65 | relaxing one transition keeps the whole search state: counts, numbering and queue |
| LayeredSearch.SearchEnds | analysis/automaton_to_token_stream.go:57-78 | an empty queue means an exhausted search, and all counts are zero exactly when every edge is layered |
| LayeredSearch.TotalExactlyWhen | analysis/automaton_to_token_stream.go:74-78 | the search numbers every edge exactly when there is no cycle and every state with transitions is reachable |
| LayerOrder.NameOneMore | analysis/automaton_to_token_stream.go:60-65 | a transition relaxed later disturbs no order, and its target comes behind all others |
| LayerOrder.TakeKeepsOrder | analysis/automaton_to_token_stream.go:57-71 | listing the state taken from the queue keeps the order of the layer, and starts the next layer in order |
| LayerOrder.ListingIsUnique | analysis/automaton_to_token_stream.go:49-72 | the automaton and the layers determine the whole listing, order included |
| AutomatonToTokenStream.InDegrees | analysis/automaton_to_token_stream.go:39-44 | counts the transitions into every state |
| AutomatonToTokenStream.RelaxState | analysis/automaton_to_token_stream.go:60-65 | relaxing all transitions of a dequeued state keeps the search state, and queues the targets in the order of their last mentions |
| AutomatonToTokenStream.SortLayers | analysis/automaton_to_token_stream.go:49-72 | the search lists exactly the states it numbered, each once in its layer, in the order in which the layer before names them last, and leaves zero counts exactly when every edge is layered |
| AutomatonToTokenStream.ExpandTransition | analysis/automaton_to_token_stream.go:87-93 | one token per label, and behind it one more into the last layer when the target accepts and is not there already (the tokens one by one: TokensOfAt) |
| AutomatonToTokenStream.ExpandLayer | analysis/automaton_to_token_stream.go:84-96 | the tokens of the states of a layer, in order |
| AutomatonToTokenStream.ExpandLayers | analysis/automaton_to_token_stream.go:82-97 | the layers of tokens represent the layered automaton, and hold each token as often as transitions carry it |
| AutomatonToTokenStream.Convert | analysis/automaton_to_token_stream.go:32-100 | succeeds exactly on automata without states, or with no edge into the start, no cycle and no source out of reach; the layers are those of a total layering, their states in search order, and a token stands in its layer exactly once for every transition that carries it |
| AutomatonToTokenStream.ConvertDetached | analysis/automaton_to_token_stream.go:74-78 | an automaton without a cycle that is reported to have one |
| TokenExpansion.Layered.TokensOfExactly | analysis/automaton_to_token_stream.go:87-93 | a transition's tokens are those of its labels, to its layer or to the last one |
| TokenExpansion.Layered.TokensOfOnce | analysis/automaton_to_token_stream.go:87-93 | a transition has each token it carries once, and no other |
| TokenExpansion.Layered.TokensOfAt | analysis/automaton_to_token_stream.go:87-93 | the tokens of a transition one by one: the labels in order, each twice exactly when the target accepts and is not in the last layer, first to its own layer and then to the last |
| TokenExpansion.Layered.TokensOfLength | analysis/automaton_to_token_stream.go:87-93 | one token a label, two when the target accepts and is not in the last layer |
| TokenExpansion.Layered.TokensOfStatesExactly | analysis/automaton_to_token_stream.go:84-96 | a token stands in a layer exactly when a transition of one of its states carries it |
| TokenExpansion.Layered.TokensOfStatesCounted | analysis/automaton_to_token_stream.go:84-96 | how often a token stands in a layer: the number of pairs of a listed state and one of its transitions that carry it |
| TokenExpansion.Layered.TokensInOrder | analysis/automaton_to_token_stream.go:84-96 | state after state: the tokens of a list of states are those of its parts |
| TokenExpansion.Layered.TokensOfAllAppend | analysis/automaton_to_token_stream.go:86-93 | transition after transition: the tokens of a list of transitions are those of its parts |
| TokenExpansion.TokensGoForward | analysis/automaton_to_token_stream.go:82-97 | every token leads to a strictly later layer |
| TokenExpansion.OnlyLastLayerIsEmpty | analysis/automaton_to_token_stream.go:82-97 | with non-empty ranges exactly the last layer has no tokens |
| TokenExpansion.AcceptedWordsAreSpelled | analysis/automaton_to_token_stream.go:82-97 | every non-empty accepted word is spelled by tokens from the first layer to the last |
| TokenExpansion.SpelledExactlyWhenAccepted | analysis/automaton_to_token_stream.go:82-97 | with one state a layer and the last one accepting, exactly the non-empty accepted words are spelled |
| TokenExpansion.SpellsTooMuch | analysis/automaton_to_token_stream.go:82-97 | two states in one layer: a word is spelled that is not accepted |
| TokenExpansion.DiamondIsLayered | analysis/automaton_to_token_stream.go:49-72 | the layers of that automaton are those of a numbering of every edge |
| AutomatonTokenStream.ConversionIsForward | analysis/automaton_to_token_stream.go:82-99 | what the conversion returns leads forward and is empty only at the end |
| AutomatonTokenStream.PositionsAreLayers | analysis/automaton_to_token_stream.go:153-186 | from any cursor the increments read add up to the layer of the token read, and lengths are positive |
| AutomatonTokenStream.StreamPositions | analysis/automaton_to_token_stream.go:153-186 | over the whole stream the sum of increments minus one is the layer of the token read |
| AutomatonTokenStream.StreamReadsEdges | analysis/automaton_to_token_stream.go:153-186 | the stream has as many tokens as the layers have edges, and its k-th token reads the k-th edge of the layers put together: term the label, start the layer, end the destination, length the difference, increment one exactly for the first edge of a layer |
| AutomatonTokenStream.EdgeOfToken | analysis/automaton_to_token_stream.go:153-186 | every token of the stream reads an edge, the one at its place |
| AutomatonTokenStream.AutomatonTokenStream.IncrementToken | analysis/automaton_to_token_stream.go:153-186 | delivers the remaining tokens one by one and stops at their end; each is read off its edge: label, layer, destination and the difference |
| AutomatonTokenStream.AutomatonTokenStream.Reset | analysis/automaton_to_token_stream.go:189-194 | the stream starts again |
| FlattenGraph.SortSlice | analysis/flatten_graph_filter.go:372-381 | some permutation in order of position and descending end |
| FlattenGraph.AbsolutePositionGrows | analysis/flatten_graph_filter.go:285-295 | absolute positions never decrease |
| FlattenGraph.PositionIsSum | analysis/flatten_graph_filter.go:285-295 | the absolute position of a token is the plain sum of the increments up to it |
| FlattenGraph.TopIsReached | analysis/flatten_graph_filter.go:328-334 | the end of the graph is the end of some token |
| FlattenGraph.IncrementsReachPosition | analysis/flatten_graph_filter.go:420-432 | summing the assigned increments of a position-ordered output gives each token's position |
| FlattenGraph.FlattenGraphFilter.Place | analysis/flatten_graph_filter.go:415-434 | a placed token gets the next place and the increment from its predecessor, and the placing stays in order |
| FlattenGraph.FlattenGraphFilter.GroupByPosition | analysis/flatten_graph_filter.go:366-381 | each token is grouped at its start position |
| FlattenGraph.FlattenGraphFilter.Candidates | analysis/flatten_graph_filter.go:390-399 | exactly the unplaced tokens that start in the covered stretch |
| FlattenGraph.FlattenGraphFilter.PlaceBest | analysis/flatten_graph_filter.go:407-434 | the candidate placed precedes all others, and one token fewer is left |
| FlattenGraph.FlattenGraphFilter.PlaceCovering | analysis/flatten_graph_filter.go:388-440 | the greedy pass terminates, places tokens by position, longer spans first, and ends at a token that reaches the end of the graph or with nothing left to start inside it |
| FlattenGraph.FlattenGraphFilter.PlaceRest | analysis/flatten_graph_filter.go:444-462 | the second pass places exactly the tokens left, in input order, without going back in position |
| FlattenGraph.FlattenGraphFilter.BuildOutputOrder | analysis/flatten_graph_filter.go:360-463 | the first pass places the tokens before the summit and the one that stops it there; the others follow in input order, and the promised order is kept exactly when they are in it |
| FlattenGraph.SummitIsFirst | analysis/flatten_graph_filter.go:388-440 | the summit is the first start from which a token reaches the end of the graph |
| FlattenGraph.FlattenGraphFilter.FirstPassIs | analysis/flatten_graph_filter.go:388-440 | which tokens the greedy pass places depends on the input alone, but for the choice among equals at the summit |
| FlattenGraph.OthersOrderly | analysis/flatten_graph_filter.go:442-462 | whether the tokens of the second pass are in the promised order can be read off the input |
| FlattenGraph.LongestFirstCanFail | analysis/flatten_graph_filter.go:354-359 | three tokens of one position, of lengths 3, 1 and 2, are not in the promised order wherever the first pass stops |
| FlattenGraph.ConsumeUpset | analysis/flatten_graph_filter.go:354-359 | the filter delivers these three out of the promised order |
| FlattenGraph.Consume | analysis/flatten_graph_filter.go:193-463 | a consumer that adds up the increments delivered sees every input token once, at the plain sum of the input increments up to it, in order of position, and longest first exactly when the input is orderly; the increments delivered come to the sum of those of the input |
| FlattenGraph.LastIsTotal | analysis/flatten_graph_filter.go:193-255 | a consumer that sees the input tokens in order of position ends at the sum of all input increments |
| FlattenGraph.ConsumeGap | analysis/flatten_graph_filter.go:285-295 | with increments 1 and 2 the tokens are seen at 1 and 3, and the increments delivered are 1 and 2 |
| FlattenGraph.FlattenGraphFilter.BufferInput | analysis/flatten_graph_filter.go:258-351 | every input token is buffered at the sum of the increments up to it and placed once; the promised order is kept exactly when the input spans from the summit on, the one skipped apart, come longest first |
| FlattenGraph.FlattenGraphFilter.PlacedIsPermutation | analysis/flatten_graph_filter.go:360-463 | when nothing is left to place, the output holds every buffered token exactly once |
| FlattenGraph.FlattenGraphFilter.OutputKeepsPositions | analysis/flatten_graph_filter.go:193-255 | after reading k tokens the increments add up to the input position of the k-th |
| FlattenGraph.FlattenGraphFilter.IncrementToken | analysis/flatten_graph_filter.go:193-255 | delivers the output tokens in order, each with its attributes, payload, keyword flag and increment |
| Rolling.RollingBuffer.constructor | util/rolling_buffer.go:48-60 | an empty window over eight fresh instances |
| Rolling.RollingBuffer.Get | util/rolling_buffer.go:83-107 | the instance of the position; positions entered on the way are pristine, the others keep their instances |
| Rolling.RollingBuffer.Grow | util/rolling_buffer.go:85-95 | a full ring moves to a larger buffer with every position keeping its instance |
| Rolling.RollingBuffer.Write | util/rolling_buffer.go:96-101 | the slot that enters the window is pristine, and no other position moves |
| Rolling.RollingBuffer.FreeBefore | util/rolling_buffer.go:119-136 | the window starts at the position; later positions keep their instances untouched |
| Rolling.RollingBuffer.ResetSlots | util/rolling_buffer.go:128-134 | exactly the earliest positions are reset, across the end of the ring |
| Rolling.RollingBuffer.FreedSlots | util/rolling_buffer.go:119-136 | the slots that leave the window are ready for reuse |
| Rolling.RollingBuffer.NextIndex | util/rolling_buffer.go:142-148 | consecutive positions sit in consecutive slots of the ring |
| Rolling.RollingBuffer.Reset | util/rolling_buffer.go:64-77 | every instance is pristine and the window empty |
| Rolling.Oversize | util/array_util.go:31-71 | an eighth more than the size asked for, at least three |
| Lookahead.ConcatAdd | analysis/lookahead_token_filter.go:131-134 | a token added to the last position in use comes last of all buffered tokens |
| Lookahead.ConcatHead | analysis/lookahead_token_filter.go:177-183 | the next token of the first position is the next of all buffered tokens |
| Lookahead.LookaheadTokenFilter.Capture | analysis/lookahead_token_filter.go:131-134 | buffering the pending token keeps buffered and pending tokens equal to what was read and not handed over |
| Lookahead.LookaheadTokenFilter.PeekToken | analysis/lookahead_token_filter.go:124-168 | reads one more token unless the input is used up and hands nothing over; it panics exactly on the first token of an input that starts before position 0, and the other panic is unreachable |
| Lookahead.LookaheadTokenFilter.NextToken | analysis/lookahead_token_filter.go:172-228 | terminates with the next input token in order, reports the end exactly when all are handed over, or panics exactly where PeekToken does |
| Lookahead.LookaheadTokenFilter.NoteOffset | analysis/lookahead_token_filter.go:152-163 | the first offset seen at a position is kept |
| Lookahead.LookaheadTokenFilter.FreeOutput | analysis/lookahead_token_filter.go:224-227 | leaving a position frees it and nothing else |
| Lookahead.LookaheadTokenFilter.Reset | analysis/lookahead_token_filter.go:236-249 | the whole input is to come again |
| Lookahead.ReceivedIsInput | analysis/lookahead_token_filter.go:124-228 | however peeks and reads are mixed, what is received is the beginning of the input |
| Lookahead.ReceivedAfterRewind | analysis/lookahead_token_filter.go:236-249 | behind a reset the consumer receives the input from its start again |
| Lookahead.Drive | analysis/lookahead_token_filter.go:124-249 | for every schedule of peeks, reads and resets a consumer receives what the schedule says, or the panic exactly when an input that starts before position 0 is read |
| NGrams.WindowsAreWanted | analysis/ngram_token_filter.go:248-268 | the windows enumerated from a cursor are exactly those of a permitted size inside the token that are not before it |
| NGrams.WindowsAreOrdered | analysis/ngram_token_filter.go:248-268 | windows come by start and then by size, none twice |
| NGrams.TermsAreWindows | analysis/ngram_token_filter.go:218-285 | the k-th term is the k-th window of the token; after the windows comes the token itself, if preserveOriginal is set and its length is not that of a gram, and nothing else |
| NGrams.OriginalOnce | analysis/ngram_token_filter.go:241-281 | with preserveOriginal a token is among its own terms exactly once; without it once when its length is that of a gram, and else not at all |
| NGrams.ShortToken | analysis/ngram_token_filter.go:235-246 | a token shorter than the smallest gram gives no gram |
| NGrams.PositionsAreConserved | analysis/ngram_token_filter.go:218-309 | emitted increments and what End reports add up to the increments read |
| NGrams.RunConserves | analysis/ngram_token_filter.go:218-285 | at any point of a run the increments emitted and the pending one add up to those read |
| NGrams.TermsKeepPositions | analysis/ngram_token_filter.go:218-285 | a consumer that adds up increments sees every term at the position of its token |
| NGrams.EndIsShort | analysis/ngram_token_filter.go:301-309 | a consumer ends at the last position of the input, and at the source's own end exactly when that adds nothing |
| NGrams.NGramTokenFilter.IncrementToken | analysis/ngram_token_filter.go:218-285 | delivers the grams of every start, one by one, and terminates |
| NGrams.NGramTokenFilter.NextStart | analysis/ngram_token_filter.go:267-283 | moving to the next start loses no gram; past the last start at most the original is left |
| NGrams.NGramTokenFilter.End | analysis/ngram_token_filter.go:301-309 | reports the increments no term has taken, whatever the source reported |
| NGrams.NGramTokenFilter.Reset | analysis/ngram_token_filter.go:288-298 | the output starts again |
| NGrams.NewNGramTokenFilter | analysis/ngram_token_filter.go:191-214 | refuses exactly the bounds below one or out of order |
| NGrams.EdgeNGramTokenFilter.IncrementToken | analysis/ngram_token_filter.go:78-131 | delivers the prefixes of every token, one by one, and terminates |
| NGrams.EdgeNGramTokenFilter.End | analysis/ngram_token_filter.go:147-155 | reports the increments no term has taken, whatever the source reported |
| NGrams.NewEdgeNGramTokenFilter | analysis/ngram_token_filter.go:51-74 | refuses exactly the bounds below one or out of order |
| TokenPositions.TotalAppend | analysis/tokenattributes/position_increment.go:40-45 | increments add up over a stream's parts |
| TokenPositions.PlaceIsSum | analysis/filtering_token_filter.go:65-91 | a consumer sees a token at the sum of the increments up to it |
| TokenPositions.TotalIsSum | analysis/filtering_token_filter.go:65-91 | the total of a stream is the sum of its increments |
| MinHash.XorCancels | analysis/minhash_filter.go:121 | exclusive or with the same value twice gives the value back |
| MinHash.MixInjective | analysis/minhash_filter.go:119-131 | one round of mixing loses nothing |
| MinHash.HashesDiffer | analysis/minhash_filter.go:114-134 | one token's hashes differ when either the hash index or the bucket index differs alone |
| MinHash.ComputeHash | analysis/minhash_filter.go:114-134 | the loop computes the mix of the bytes, the hash index and the bucket index |
| MinHash.KnownHash | analysis/minhash_filter.go:113-134 | two published 64-bit FNV-1a values, the second with the last bytes as hash index and bucket index |
| MinHash.ReverseText | analysis/minhash_filter.go:153-156 | the two-index loop reverses the digits |
| MinHash.HashToString | analysis/minhash_filter.go:138-159 | the loop prints the base-62 digits, most significant first |
| MinHash.TextValue | analysis/minhash_filter.go:138-159 | reading the printed digits gives the hash back, so printing is injective |
| MinHash.TextIs | analysis/minhash_filter.go:136-160 | a number is printed as the digits of its quotient by 62 and the digit of its remainder |
| MinHash.DigitIs | analysis/minhash_filter.go:140 | the digits are 0 to 9, then A to Z, then a to z |
| MinHash.TextIsShort | analysis/minhash_filter.go:147 | a printed hash has between one and eleven characters |
| MinHash.TermsDiffer | analysis/minhash_filter.go:61-159 | of one token's terms those of one bucket differ, and those of one hash function |
| MinHash.TermCount | analysis/minhash_filter.go:61-111 | the number of terms of any stream: hashCount times max(bucketCount, 1) for each token, and one for each empty token if there are hash functions |
| MinHash.TermsOfOneToken | analysis/minhash_filter.go:59-61 | hashCount times bucketCount, as documented, is the number of terms of a token exactly if it is not empty and bucketCount is positive, or it is empty and the product is one |
| MinHash.TermAt | analysis/minhash_filter.go:90-111 | where the term of each hash function and bucket stands among those of its token |
| MinHash.BucketsAre | analysis/minhash_filter.go:104-108 | a bucket count below one counts as one |
| MinHash.EmptyTokenFallsShort | analysis/minhash_filter.go:59-61 | an empty token gives one term where two are documented |
| MinHash.TailStep | analysis/minhash_filter.go:90-111 | one emission takes the first of the terms left |
| MinHash.MinHashFilter.IncrementToken | analysis/minhash_filter.go:61-87 | delivers the terms of all tokens in order; without hash functions reports the end on every call |
| MinHash.MinHashFilter.EmitNextHash | analysis/minhash_filter.go:90-111 | emits the next term of the token, or nothing when all hash functions are done |
| PorterRules.VowelLooksBack | analysis/porter_stem_filter.go:394-402 | whether a letter is a vowel depends on the letters up to it only |
| PorterRules.MeasureNeedsLetters | analysis/porter_stem_filter.go:350-392 | a measure of n needs at least 2n letters |
| PorterRules.VowelEndKeepsMeasure | analysis/porter_stem_filter.go:302-319 | measuring with the final e is measuring without it |
| PorterRules.SwitchChooses | analysis/porter_stem_filter.go:154-295 | switching on a letter near the end chooses the rule that the whole list would |
| PorterRules.LongestEndingWins | analysis/porter_stem_filter.go:154-295 | in a whole step the rule chosen has the longest matching ending |
| PorterFacts.Switch2IsSound | analysis/porter_stem_filter.go:154-215 | step 2's switch chooses from all its rules |
| PorterFacts.Switch3IsSound | analysis/porter_stem_filter.go:218-243 | step 3's switch chooses from all its rules |
| PorterFacts.Switch4IsSound | analysis/porter_stem_filter.go:255-289 | step 4's switch chooses from all its rules |
| PorterFacts.Step2LongestFirst | analysis/porter_stem_filter.go:154-215 | in step 2 no ending hides a longer one |
| PorterFacts.Step3LongestFirst | analysis/porter_stem_filter.go:218-243 | in step 3 no ending hides a longer one |
| PorterFacts.Step4LongestFirst | analysis/porter_stem_filter.go:245-289 | in step 4 no ending hides a longer one, as its comment says |
| PorterFacts.PluralCases | analysis/porter_stem_filter.go:105-118 | the nested tests of step 1a are four rules on endings |
| PorterFacts.FallsShortExactlyWhen | analysis/porter_stem_filter.go:105-155 | step 1 leaves one letter of exactly these words: ies, a vowel with ing or ings, a vowel but e with ed or eds |
| PorterFacts.StepsLength | analysis/porter_stem_filter.go:105-319 | for all other words the steps leave at least a letter and never lengthen the word |
| PorterFacts.LaterLength | analysis/porter_stem_filter.go:154-319 | steps 2 to 5 keep two letters, the last one letter, and lengthen nothing |
| Porter.NeverLonger | analysis/porter_stem_filter.go:78-102 | a stem is never longer than its word |
| Porter.FailsOnIes | analysis/porter_stem_filter.go:105-155 | the word ies makes the index of step 2 run out of range |
| Porter.PorterStemmer.Stem | analysis/porter_stem_filter.go:78-102 | the in-place steps give the word the rules give, in bounds, and fail exactly on the words that fall short (what the rules give for words in ing and ed: StemIng, StemEd) |
| Porter.ShortWordsStay | analysis/porter_stem_filter.go:79-87 | words of one or two letters stay as they are; of any other word every letter is folded |
| PorterWords.VowelExactly | analysis/porter_stem_filter.go:394-402 | the closed form of a vowel: a letter other than y by its face; a y by its place in its run, the odd ones behind a consonant letter, the even ones behind a vowel letter or at the start |
| PorterWords.VowelInRun | analysis/porter_stem_filter.go:398-399 | in a run of y vowels and consonants alternate, and what stands before the run decides which come first |
| PorterWords.HasVowelExactly | analysis/porter_stem_filter.go:404-411 | a stem has a vowel exactly when it has one of a, e, i, o, u, or a y behind its first letter |
| PorterWords.MeasureCounts | analysis/porter_stem_filter.go:350-392 | the measure is the number of vowels with a consonant behind them |
| PorterWords.ShortExactly | analysis/porter_stem_filter.go:137-140 | measure one and consonant, vowel, consonant: consonants, one vowel, and a consonant other than w, x and y |
| PorterWords.RepairedIsMended | analysis/porter_stem_filter.go:128-142 | what a stem becomes once ed or ing is gone, told by its letters |
| PorterWords.Step1bIng | analysis/porter_stem_filter.go:126-144 | x with ing loses it, and is mended, exactly when x has a vowel |
| PorterWords.Step1bEd | analysis/porter_stem_filter.go:126-144 | x with ed loses it, and is mended, exactly when x has a vowel |
| PorterWords.Step1bEed | analysis/porter_stem_filter.go:122-125 | x with eed loses the d exactly when x has a vowel with a consonant behind it |
| PorterWords.Step1cY | analysis/porter_stem_filter.go:147-151 | a final y becomes i exactly behind a stem with a vowel |
| PorterWords.Step2Longest | analysis/porter_stem_filter.go:154-215 | step 2 replaces the longest ending of its table that the word has, behind a stem with a measure of one |
| PorterWords.Step3Longest | analysis/porter_stem_filter.go:218-243 | step 3 does the same with its table |
| PorterWords.Step4Longest | analysis/porter_stem_filter.go:245-295 | step 4 drops the longest ending of its table, behind a stem with a measure of two |
| PorterWords.Step4Ion | analysis/porter_stem_filter.go:268-275 | the ending ion goes exactly behind s or t and a measure of two |
| PorterWords.Step5aE | analysis/porter_stem_filter.go:302-311 | a final e goes exactly behind a measure of two, or of one in a stem that is not short |
| PorterWords.Step5bLL | analysis/porter_stem_filter.go:314-319 | of a final double l one goes exactly in a word with a measure of two |
| PorterWords.StemIng | analysis/porter_stem_filter.go:78-102 | the stem of a word in ing, from the letters before it; a single vowel before it makes the stemmer fail |
| PorterWords.StemEd | analysis/porter_stem_filter.go:78-102 | the stem of a word in ed, from the letters before it |
| PorterWords.QuietEnd | analysis/porter_stem_filter.go:154-319 | steps 2 to 5 leave a word alone that ends in none of the letters c, e, i, l, m, n, r, s, t, u |
| PorterWords.FlyingIsFly | analysis/porter_stem_filter.go:398-399 | flying becomes fly: the y is the vowel that lets the ending go |
| PorterWords.JumpingIsJump | analysis/porter_stem_filter_test.go:78-104 | jumping becomes jump |
| Porter.PorterStemmer.EndsWith | analysis/porter_stem_filter.go:323-335 | finds an ending and then sets j before it |
| Porter.PorterStemmer.CountMeasure | analysis/porter_stem_filter.go:350-392 | the nested loops count the turns from vowel to consonant |
| Porter.PorterStemmer.HasVowelInStem | analysis/porter_stem_filter.go:404-411 | whether some letter before j is a vowel (in letters: HasVowelExactly) |
| Porter.PorterStemmer.ReplaceSuffix | analysis/porter_stem_filter.go:337-345 | replaces the ending in place when the stem has a measure |
| Porter.PorterStemmer.ReplaceFirst | analysis/porter_stem_filter.go:155-215 | a chain of tests rewrites by the first ending found |
| Porter.PorterStemmer.FindFirst | analysis/porter_stem_filter.go:255-289 | a chain of tests stops at the first ending found |
| Porter.PorterStemmer.DoStep1a | analysis/porter_stem_filter.go:105-118 | carries out step 1a of the rules in place |
| Porter.PorterStemmer.DoStep1b | analysis/porter_stem_filter.go:121-144 | carries out step 1b of the rules in place |
| Porter.PorterStemmer.DoStep1c | analysis/porter_stem_filter.go:147-151 | carries out step 1c of the rules in place |
| Porter.PorterStemmer.DoStep2 | analysis/porter_stem_filter.go:154-215 | carries out step 2 of the rules in place |
| Porter.PorterStemmer.DoStep3 | analysis/porter_stem_filter.go:218-243 | carries out step 3 of the rules in place |
| Porter.PorterStemmer.DoStep4 | analysis/porter_stem_filter.go:249-295 | carries out step 4 of the rules in place |
| Porter.PorterStemmer.DoStep5a | analysis/porter_stem_filter.go:302-311 | carries out step 5a of the rules in place; j stays where step 5b may measure |
| Porter.PorterStemmer.DoStep5b | analysis/porter_stem_filter.go:314-319 | carries out step 5b of the rules in place, measuring up to a j that may lie behind the word |
| Porter.PorterStemmer.Repair | analysis/porter_stem_filter.go:128-142 | mends the stem within the buffer |
| RuneBuffer.Delete | analysis/hindi_analyzer.go:217-225 | shifts the entries behind a position down; out of range it does nothing |
| RuneBuffer.Append | analysis/german_normalization_filter.go:91 | one more entry at the end, in a buffer of its own |
| RuneBuffer.ShiftUp | analysis/german_normalization_filter.go:92 | shifts the entries from a position up |
| Hindi.Normalize | analysis/hindi_analyzer.go:116-211 | the in-place loop with its index rewinds terminates with the text read once from left to right, one character ahead |
| Hindi.NormalIsSettled | analysis/hindi_analyzer.go:116-211 | no mapped or dropped character is left, and the text does not grow |
| Hindi.UnchangedExactlyWhenSettled | analysis/hindi_analyzer.go:116-211 | a text is unchanged exactly when nothing in it is mapped or dropped |
| Hindi.Idempotent | analysis/hindi_analyzer.go:116-211 | normalising twice is normalising once |
| Hindi.VariantsBecomeLetters | analysis/hindi_analyzer.go:116-211 | every listed variant becomes its letter |
| Hindi.OthersStay | analysis/hindi_analyzer.go:116-211 | every character that is neither a listed variant nor dropped stays |
| Hindi.NaVirama | analysis/hindi_analyzer.go:126-168 | na with a virama becomes an anusvara; nukta, virama and the joiners go |
| German.MachineFollowsRules | analysis/german_normalization_filter.go:57-101 | the three states suffice for the rules on the two characters before |
| German.StateStep | analysis/german_normalization_filter.go:57-101 | each step's state says which kind of character came before |
| German.SingleCharacters | analysis/german_normalization_filter.go:78-98 | the umlauts become a, o and u, a sharp s two s, and every other character alone stays |
| German.WhereEGoes | analysis/german_normalization_filter.go:61-77 | an e goes behind a and o, and behind a u without a vowel or q before it, and nowhere else |
| German.Normalize | analysis/german_normalization_filter.go:54-102 | the in-place loop with deletions and insertions terminates with the text the rules spell |
| German.Expand | analysis/german_normalization_filter.go:87-96 | puts two s for a sharp s |
| German.SpelledIsUnmarked | analysis/german_normalization_filter.go:54-102 | no umlaut or sharp s is left, and the text at most doubles |
| German.UnchangedExactlyWhen | analysis/german_normalization_filter.go:54-102 | a text is unchanged exactly when it is unmarked and no e is dropped |
| German.IdempotentExactlyWhen | analysis/german_normalization_filter.go:54-102 | a second pass changes nothing exactly when no kept e stands behind an umlaut that is bared or behind an e that is dropped |
| German.SecondPass | analysis/german_normalization_filter.go:54-102 | from any position on, a second pass keeps the text or shortens it, according to the kept e that are exposed |
| German.NotIdempotent | analysis/german_normalization_filter.go:54-102 | a second pass changes two words: an umlaut before an e, and two e behind an a |
| Csv.CSVParse | analysis/csv_util.go:26-51 | the loop yields the fields of the line's stretches; none for an empty line or unpaired quotes |
| Csv.SplitLine | analysis/csv_util.go:34-50 | splits at the commas outside quotes |
| Csv.SplitThenJoin | analysis/csv_util.go:34-50 | joining the stretches with commas gives the line back |
| Csv.SplitIsClosed | analysis/csv_util.go:31-50 | with paired quotes no stretch has a comma outside quotes |
| Csv.JoinThenSplit | analysis/csv_util.go:34-50 | splitting a join of such stretches gives them back |
| Csv.FieldImage | analysis/csv_util.go:57-78 | what becomes of one field: unchanged, or wrapped in quotes when it holds both a comma and a quote |
| Csv.PrintThenParse | analysis/csv_util.go:26-78 | what comes back for every list of fields but the single empty field |
| Csv.RoundTrip | analysis/csv_util.go:26-78 | exactly the lists without a field of both comma and quote, and not the single empty field, come back |
| Csv.WrappedFieldsParse | analysis/csv_util.go:26-63 | fields without quotes of their own come out of any line that holds them between quotes, or bare without commas |
| Csv.LoneQuotedField | analysis/csv_util.go:53-64 | a line of one quoted field loses the quotes |
| Csv.EscapedQuotes | analysis/csv_util.go:71-77 | quotes are doubled, and a field with a comma is put between quotes |
| Csv.NoFieldsExactlyWhen | analysis/csv_util.go:26-33 | no fields exactly for an empty line or an odd number of quotes |
| Filtering.AcceptedKeepPositions | analysis/filtering_token_filter.go:65-91 | accepted tokens stand at their input positions |
| Filtering.SelectedExactly | analysis/filtering_token_filter.go:65-91 | exactly the accepted tokens, in order, each at the sum of the increments up to it |
| Filtering.PositionsAreConserved | analysis/filtering_token_filter.go:65-114 | kept and trailing increments add up to those read |
| Filtering.FilteringTokenFilter.IncrementToken | analysis/filtering_token_filter.go:65-91 | delivers the accepted tokens and at the end holds the increments that this call skipped |
| Filtering.FilteringTokenFilter.End | analysis/filtering_token_filter.go:104-114 | adds the skipped increments to the source's own |
| Filtering.Consume | analysis/filtering_token_filter.go:65-114 | a consumer ends at the source's position, short by the trailing rejects if it asked again after the end |
| RemoveDuplicates.DuplicatesStand | analysis/remove_duplicates_token_filter.go:109-117 | a duplicate never carries an increment |
| RemoveDuplicates.PositionIsSum | analysis/remove_duplicates_token_filter.go:95-102 | positions are sums of increments from -1 on |
| RemoveDuplicates.FirstsKeepPositions | analysis/remove_duplicates_token_filter.go:78-131 | what goes out stands where it stood |
| RemoveDuplicates.OutputIsTheSetOfTokens | analysis/remove_duplicates_token_filter.go:78-131 | every pair of position and text goes out exactly once |
| RemoveDuplicates.RemoveDuplicatesTokenFilter.IncrementToken | analysis/remove_duplicates_token_filter.go:78-131 | delivers the first occurrences; the saved increment is always zero |
| RemoveDuplicates.Replay | analysis/remove_duplicates_token_filter.go:78-145 | read, ended and reset, the filter gives the same output again |
| RemoveDuplicates.RemoveDuplicatesTokenFilter.ReadAll | analysis/remove_duplicates_token_filter.go:78-131 | reading to the end gives all first occurrences that were left |
| StringReader.DecodeEncoded | analysis/reusable_string_reader.go:83-114 | decoding takes back one code point encoded as in section 3 of RFC 3629, whatever follows |
| StringReader.RoundTrip | analysis/reusable_string_reader.go:54-64 | decoding the encoding of any text gives the text |
| StringReader.EncodingIsInjective | analysis/reusable_string_reader.go:83-114 | different texts have different encodings |
| StringReader.KnownEncodings | analysis/reusable_string_reader.go:83-114 | the examples of section 7 of RFC 3629 |
| StringReader.KnownDecodings | analysis/reusable_string_reader.go:83-114 | bytes that are not UTF-8: a stray or cut-off byte stands for itself, an overlong form for its value, and any byte continues |
| StringReader.ReusableStringReader.Read | analysis/reusable_string_reader.go:38-51 | fills the buffer with the next bytes and reports the end with the last of them |
| StringReader.ReusableStringReader.ReadRune | analysis/reusable_string_reader.go:54-64 | the next code point, and the reader moved behind it, never beyond the end |
| StringReader.ReadAllRunes | analysis/reusable_string_reader.go:54-64 | repeated reading decodes all bytes and ends exactly at the end |
| StringReader.ReadAll | analysis/reusable_string_reader.go:38-51 | reading with any buffer sizes reassembles the bytes as far as the buffers reach |

## Left out

- Aliasing of stored keys: slices handed to the map and between sets are values that go in and come out; the map's stored slice is not modelled as shared with its caller.
- CharSet.SetIntersection: when only the first set ignores case and is the larger one, the slots of the second set that are rewritten in place are not described.
- CharMap.CharArrayMap.PutRunes: a nil slice, on which the source panics, is not a value of the model.
- Rolling.Oversize: the cap at the maximum array length and the panic beyond it are not modelled.
- Rolling.RollingBuffer.Get: the panic before the first retained position is a precondition, met by every call in the lookahead filter.
- Lookahead.LookaheadTokenFilter.NextToken: inserted tokens are left out because AfterPosition does nothing here; after a panic nothing is said about the filter.
- FlattenGraph.SortSlice: the library sort is any order consistent with the comparator, here an insertion sort.
- FlattenGraph.FlattenGraphFilter.IncrementToken: the final offset and Reset are not modelled.
- AutomatonToTokenStream.Convert: an empty label range gives no tokens; that exactly the last layer is empty is stated for ranges that are not.
- NGrams.NGramTokenFilter.IncrementToken: the term and position attributes are always present; a stream without them is passed through by the source.
- Filtering.FilteringTokenFilter.IncrementToken: the accept callback is one answer for each token, and its errors are left out.
- Porter.PorterStemmer.Stem: the filter around the stemmer, which writes the stem back when it differs, is left out.
- StringReader.RoundTrip: is stated for UTF-8; of other bytes KnownDecodings tells the kinds.
- Csv.CSVParse: a line is a sequence of code points; bytes that are not UTF-8 are not modelled.
- AutomatonTokenStream.AutomatonTokenStream.IncrementToken: the offset that End sets is not modelled.
- Errors of the source streams, closing, the attribute registry, factories and analyzers: no logic of their own.
- Map views, copies from Go maps, unmodifiable and empty variants: one call each to what is modelled.
- The older n-gram filters and tokenizers, the second automaton stream, the character tables of other languages: the same ideas or tables only.
