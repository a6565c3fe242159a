# PPM language model — a Dafny model

This project models the core of PPM-API: a word, letter and sentence predictor built on
Prediction by Partial Matching (PPM). The Dafny model covers six parts.

- **The vocabulary.** This is a two-way map between symbol strings and dense ids. Id 0 is the root symbol `<R>`. An `<OOV>` symbol is registered the first time an unknown symbol is looked up.
- **The context trie.** Every node stands for a context: a sequence of symbols of some order. A node keeps a count, its children (one per following symbol) and a *backoff* link. The backoff link points to the node for the same context with its oldest symbol dropped.
- **Reading text.** `addSymbolToContext` moves a cursor (head node and order) along the trie without changing it. It falls back along backoff links when the current context has never been followed by the symbol.
- **Training.** `addSymbolAndUpdate` records a symbol below the cursor: at the head and, recursively, at every backoff context that has not seen it yet, and it raises the count of the symbol's child at the first backoff context that has. It then moves the cursor up and walks it back until its order is within `maxOrder`.
- **Prediction.** `getProbs` turns the counts of the children along the cursor's backoff chain into a probability vector with one entry per vocabulary id.
- **The tokenizer.** `tokenizeText` cuts raw text into letters, words or trimmed sentences, and returns the set of distinct tokens along with them.

The trie is an *arena*: a sequence of immutable node records addressed by index, with index 0 the root. A node's children form a sequence of indices; the head of that sequence is the head of the source's `child_`/`next_` list. Each node also records its depth, the order of its context. Backoff links lower the depth by exactly one, so walks along them terminate. Every operation is a pure function or method that returns the new arena. The source's `assert` failures become `Result` failures (`InvalidSymbol`, `DegenerateVocabulary`). Its two reachable `TypeError`s both become `NullHead`. The first is at line 165, which reads the backoff of a null head while the cursor is walked back with `maxOrder <= -2`. The second comes after a step with `maxOrder == -1` has left the head null: the next `addSymbolAndUpdate` passes that head to `addSymbolToNode_` at line 160, which dereferences it at line 133. The assertions the arena invariant rules out are proved never to fail: line 145 (a non-root node always has a backoff) and line 161 (the returned node is the head's child).

The arena invariant is `Trie.Valid`, which covers counts, depths, child ranges and distinct child symbols. It also gives every non-root node a backoff one order lower, which is what the recursion at line 146 relies on. On top of it sits `TrieLinks.Linked`: the backoff of the `s`-child of a node is the `s`-child of that node's backoff, and the root's children back off to the root. Both are proved to hold for the fresh trie and to survive every insertion.

Files:
- `wrappers.dfy`: `Option` and `Result`.
- `vocabulary.dfy`: the vocabulary.
- `trie.dfy`: nodes, lookup, counting, insertion, and the backoff-link invariant.
- `ppm_model.dfy`: the model, the cursor, reading and training.
- `prediction.dfy`: `getProbs` and the distribution it computes.
- `tokenizer.dfy`: the tokenizer.
- `scenarios.dfy`: worked examples on explicit tries.

Every source cell below is a path in the PPM-API repository.

## Model

| member | source | states |
|---|---|---|
| Vocabulary.Empty | ppm_language_model.js:5-11 | A new vocabulary holds only `<R>`, at id 0, and has no OOV id yet. |
| Vocabulary.SizeCountsSymbols | ppm_language_model.js:47-49 | `size()` is the number of distinct symbols registered, the root included, and is at least 1. |
| Vocabulary.AddSymbol | ppm_language_model.js:18-26 | A known symbol returns its existing id and leaves the vocabulary as it is. A new symbol gets id `size()` and is appended. Every earlier id is kept, and the id map stays the exact inverse of the symbol list. |
| Vocabulary.AddSymbolIdempotent | ppm_language_model.js:18-26 | Adding a symbol twice has the same effect as adding it once. |
| Vocabulary.GetSymbolOrOov | ppm_language_model.js:33-41 | A known symbol maps to its id with no change. The first unknown lookup registers `<OOV>` through `addSymbol` and records its id. While an OOV id exists, the vocabulary does not change. |
| Vocabulary.OovStable | ppm_language_model.js:33-41 | Once the OOV id exists, no sequence of lookups changes the vocabulary. Every unknown symbol maps to that id and every known one to its own id. |
| Vocabulary.OovAssignedOnce | ppm_language_model.js:37-40 | After one unknown lookup, every later unknown lookup returns the id that the first one returned. |
| Trie.NewTrie | ppm_language_model.js:53-60 | A new node is the root: symbol 0, count 1, no children, no backoff. A trie holding only that node satisfies the invariant. |
| Trie.FindIn | ppm_language_model.js:62-71 | The list walk returns the first node in list order that carries the symbol. It returns none exactly when no node in the list carries it. |
| Trie.FindChild | ppm_language_model.js:62-71 | A found child carries the symbol, is in the child list, and sits one order deeper. None means no child carries the symbol. |
| Trie.FindChildUnique | ppm_language_model.js:62-71 | Each child is the one its own symbol finds, because no two siblings share a symbol. |
| Trie.SumCountsZero | ppm_language_model.js:73-83 | The masked total is zero exactly when every child's symbol is masked. |
| Trie.SumCountsAtLeast | ppm_language_model.js:73-83 | Every unmasked child adds at least one to the masked total. |
| Trie.SumCountsExclusionLowers | ppm_language_model.js:73-83 | An exclusion mask never raises the total. |
| Trie.TotalChildrenCounts | ppm_language_model.js:73-83 | The total is zero exactly when every child is masked. With no mask, it is zero exactly when there are no children and is at least the number of children. It never exceeds the unmasked total. |
| Trie.Chain | ppm_language_model.js:177-191 | The backoff chain from a node has one entry per order down to 0. It starts at the node, ends at the root, and each step follows the backoff link. |
| Trie.BumpKeepsValid | ppm_language_model.js:134-135 | Incrementing a child's count keeps the trie invariant, only grows the trie, and changes no child list. |
| Trie.LinkShape | ppm_language_model.js:137-141 | A new node is appended and becomes the head of its parent's child list. Nothing else changes. |
| Trie.LinkKeepsValid | ppm_language_model.js:137-141 | Linking a new node for an unseen symbol, one order below its parent, keeps the trie invariant. |
| Trie.BumpStep | ppm_language_model.js:133-135 | When the child exists, only its count moves. The same lookup still finds it, and no child list changes. |
| Trie.AddSymbolToNode | ppm_language_model.js:132-150 | The result is the parent's `s`-child. If that child existed, only its count went up. Otherwise a new node is created with count 1, no children, and a place at the head of the parent's list. Its backoff is the root when the parent is the root, and otherwise the `s`-child of the parent's backoff. Nodes deeper than the parent keep their child lists. Which old counts and child lists change, and what the other new nodes look like, is stated by `Trie.AddSymbolToNodeCounts`. |
| Trie.AddSymbolToNodeCounts | ppm_language_model.js:132-150 | Everything an insertion changes, exactly. The walk goes along the backoff chain from the parent up to the first node that already has an `s`-child. Each node walked past gains exactly one new child at the head of its list, and no other old child list changes. Each new node carries `s` with count 1 and no children, is one order below the node it hangs from, and backs off to the new node one order lower. The lowest new node backs off to the `s`-child the walk stopped at, or to the root. That `s`-child's count rises by one, and no other old count changes. The arena grows by one node per node walked past. |
| Trie.CountsAfterMiss | ppm_language_model.js:136-147 | A miss at a non-root parent walks one node further than the insertion at its backoff. It adds one new node on top of what that insertion left: the parent's new head child, backing off to the child that insertion returned. |
| Trie.InsertKeepsRootCount | ppm_language_model.js:132-150 | No insertion changes the root's count, since the root is nobody's child. |
| Trie.AddSymbolToNodeNewSymbols | ppm_language_model.js:137-138 | Every node an insertion creates carries the inserted symbol. |
| TrieLinks.NewTrieLinked | ppm_language_model.js:99 | The lone root satisfies the backoff-link invariant. |
| TrieLinks.BumpKeepsLinked | ppm_language_model.js:134-135 | Bumping a count keeps the backoff-link invariant. |
| TrieLinks.LinkKeepsLinked | ppm_language_model.js:137-147 | Linking the new node, with the backoff found by the lower insertion, keeps the backoff-link invariant. |
| TrieLinks.AddSymbolToNodeKeepsLinked | ppm_language_model.js:142-147 | Insertion keeps the backoff-link invariant. |
| PpmModel.NewModel | ppm_language_model.js:94-104 | Construction fails exactly when the vocabulary has at most one symbol. Otherwise the trie is a lone root and the node counter is 1. |
| PpmModel.CreateContext | ppm_language_model.js:152-154 | A new cursor sits at the root, at order 0. |
| PpmModel.Advance | ppm_language_model.js:111-129 | The cursor lands on the `s`-child of the first node on its backoff chain that has one, at that child's order. If no node on the chain has one, it lands on the root at order 0. |
| Trie.FirstHitMisses | ppm_language_model.js:110-128 | The search along the backoff chain for a node with an `s`-child comes back empty exactly when no node of the chain has one. |
| Trie.FirstHitFinds | ppm_language_model.js:110-116 | A node the search finds has an `s`-child, and every node of the chain before it has none, so the loop stops at the first hit. |
| PpmModel.AddSymbolToContext | ppm_language_model.js:106-130 | A symbol at or below 0 is ignored. An id at or above `size()` fails. Anything else advances the cursor as `Advance` states. The trie is never changed. |
| PpmModel.CapOrder | ppm_language_model.js:164-167 | The order becomes `min(order, maxOrder)`. Stepping past the root is the `NullHead` failure, which happens exactly when `maxOrder < -1`. |
| PpmModel.CapOrderOnChain | ppm_language_model.js:164-167 | With `maxOrder >= 0`, the walk-back from a present head succeeds and stops on that head's backoff chain, as many steps down as the order was lowered. |
| PpmModel.Record | ppm_language_model.js:141 | Recording keeps the model valid and only grows the trie. The node counter stays equal to the number of nodes. |
| PpmModel.InsertRecorded | ppm_language_model.js:160-161 | After recording, the head has an `s`-child one order above it, which is the assertion at line 161. An existing child only has its count bumped. |
| PpmModel.RecordThenCap | ppm_language_model.js:160-167 | Recording then walking the cursor back fails exactly when `maxOrder < -1`. On success, it leaves a trained model and cursor as `Trained` describes. |
| PpmModel.AddSymbolAndUpdate | ppm_language_model.js:156-168 | A symbol at or below 0 changes nothing. An id at or above `size()` fails, and so does an absent head. Otherwise the step fails exactly when `maxOrder < -1`. On success, `s` is recorded below the head and the model only grew. An existing `s`-child only had its count raised. Otherwise the head's `s`-child is new, with count 1 and no children. The cursor sits at order `min(order + 1, maxOrder)` on the backoff chain of the head's `s`-child. The full set of changes to the trie is stated by `PpmModel.AddSymbolAndUpdateCounts`. |
| PpmModel.RecordAndCap | ppm_language_model.js:160-167 | Recording `s` below the head and walking the cursor back fails, with `NullHead`, exactly when `maxOrder < -1`. Otherwise it leaves a trained model and cursor as `Trained` describes. |
| PpmModel.AddSymbolAndUpdateCounts | ppm_language_model.js:156-160 | A successful step by a positive symbol changes exactly what the insertion below the head changes, as `Trie.AddSymbolToNodeCounts` states: the new nodes, the head child lists they join, and the one raised count. |
| PpmModel.AddSymbolAndUpdateGrows | ppm_language_model.js:156-168 | A successful step leaves a valid model that only grew and a valid cursor. After a positive symbol, the order is at most `maxOrder`. |
| PpmModel.Train | controllers/trainController.js:28-33 | Training on a token sequence, one step at a time, leaves a valid model that only grew and a valid cursor. |
| PpmModel.TrainBounded | controllers/trainController.js:30-33 | A sequence of ids at or below 0 (`indexOf` misses included) changes nothing. Once a positive id is trained, the order is at most `maxOrder`. |
| Prediction.CountOfDistinct | ppm_language_model.js:180-184 | Since siblings have distinct symbols, the mass a symbol collects from a child list is the count of the one child that carries it. |
| Prediction.FirstWithChildren | ppm_language_model.js:177-179 | This is the first node on the backoff chain with any children. No earlier node on the chain has any, and there is none exactly when no node of the chain has children. |
| Prediction.FirstWithChildrenNext | ppm_language_model.js:178-179 | A node without children adds nothing, so the walk continues exactly as from its backoff (line 189). |
| Prediction.ChildDistributionShape | ppm_language_model.js:171-172 | The shares read off a node have one entry per id, none negative, and 0 on the root id. |
| Prediction.ChildDistributionShares | ppm_language_model.js:180-187 | A child's symbol gets that child's count over the sum of its siblings' counts. A symbol no child carries gets 0. |
| Prediction.BlendedShape | ppm_language_model.js:170-194 | The reference distribution has one entry per id, none negative, and 0 on the root id. It is all zeros when no chain node has children, and otherwise it is the shares of the first chain node that has children. |
| Prediction.AddShares | ppm_language_model.js:180-187 | The inner loop adds `gamma * count / total` to each child's symbol and takes the same amount off the remaining mass. The entries rise by `gamma` in total and the mass falls by `gamma`. |
| Prediction.FirstShares | ppm_language_model.js:179-187 | Spreading the full mass over the first node with children yields exactly that node's shares. |
| Prediction.WalkPastChildless | ppm_language_model.js:178-190 | A node whose total is 0 leaves the vector and the mass as they were and hands the walk to its backoff. |
| Prediction.WalkAtFirst | ppm_language_model.js:179-190 | At the first node with children, all of the mass is spread over its children. The vector becomes that node's shares and no mass remains. |
| Prediction.WalkAfterFound | ppm_language_model.js:179-190 | After that node, `gamma` is the remaining mass 0, so later nodes leave the vector as it is. |
| Prediction.BlendStep | ppm_language_model.js:177-190 | One pass of the outer loop keeps the walk invariant on the way to the backoff. A childless node changes nothing. A node with children adds all the remaining mass to the vector and leaves none, which is why every later node adds nothing. |
| Prediction.BlendAlongChain | ppm_language_model.js:170-194 | The walk from the head yields the reference distribution. It sums to 1 whenever some node of the chain has children. |
| Prediction.GetProbs | ppm_language_model.js:170-194 | The vector has one entry per id, 0 on the root id, and none negative. It equals the normalised child counts of the first node on the cursor's backoff chain that has children, so it sums to 1. It is all zeros when no node of the chain has children. |
| Tokenizer.FirstDelim | utils/tokenizer.js:11 | This is the first separator position: nothing before it is a separator. |
| Tokenizer.Cut | utils/tokenizer.js:11 | The first separator run is maximal: the character after it is not a separator. |
| Tokenizer.SplitWithRuns | utils/tokenizer.js:11 | There is always at least one piece, and one separator run fewer than pieces. Every run is a non-empty sequence of separators. |
| Tokenizer.SplitPieces | utils/tokenizer.js:10-16 | No piece of a split contains a separator, and only the first and last piece can be empty. |
| Tokenizer.GlueSplit | utils/tokenizer.js:10-12 | Interleaving the pieces with the runs that were cut out gives back the text. |
| Tokenizer.SplitGlue | utils/tokenizer.js:10-12 | Splitting pieces that have split shape, glued with separator runs, gives back those pieces. With `GlueSplit`, this characterises `split` exactly. |
| Tokenizer.StripBounds | utils/tokenizer.js:15 | `trim` keeps a middle part with only white space before and after it, and no white space at either of its ends. |
| Tokenizer.StripPadded | utils/tokenizer.js:15 | Trimming white space off a string that was already trimmed gives that string back, which pins `trim` down exactly. |
| Tokenizer.StripIdempotent | utils/tokenizer.js:15 | Trimming twice is the same as trimming once. |
| Tokenizer.StripKeepsFree | utils/tokenizer.js:15 | A piece without terminators stays without them after trimming. |
| Tokenizer.Letters | utils/tokenizer.js:7 | There is one single-character token per character of the text. |
| Tokenizer.ConcatLetters | utils/tokenizer.js:6-8 | The letter tokens concatenate back to the text. |
| Tokenizer.LettersConcat | utils/tokenizer.js:6-8 | Single-character tokens are the letters of their concatenation. |
| Tokenizer.Sentences | utils/tokenizer.js:15 | There is one sentence per run of terminators plus one. Each sentence contains no terminator, neither starts nor ends with white space, and is the middle of its piece of the split with only white space cut off either side. |
| Tokenizer.PaddingTrim | utils/tokenizer.js:15 | A string with no white space at its ends that a piece pads only with white space is that piece trimmed, so the facts about each sentence determine it. |
| Tokenizer.Distinct | utils/tokenizer.js:8 | The vocabulary set holds exactly the tokens. |
| Tokenizer.TokenizeText | utils/tokenizer.js:2-23 | Any level other than `letter`, `word` or `sentence` is an error. The vocabulary is exactly the set of tokens. Letter tokens are single characters that concatenate to the text. Word tokens contain no white space, are non-empty except at the ends, and glued with the white-space runs give the text back. Sentence tokens are the pieces of the text between runs of `.`, `!` and `?`, each trimmed, one more than there are runs. So they contain no terminator and have no white space at either end. |
| Scenarios.Fresh | ppm_language_model.js:94-104 | A one-symbol vocabulary is rejected. A three-symbol vocabulary gives a lone root with the cursor at order 0. |
| Scenarios.StepA | ppm_language_model.js:156-168 | Training `a` from the root adds one order-1 node that backs off to the root, and moves the cursor onto it. |
| Scenarios.StepAA | ppm_language_model.js:132-150 | A second `a` bumps the order-1 node to count 2, adds the order-2 node `a a`, and moves the cursor there. |
| Scenarios.StepAAB | ppm_language_model.js:142-147 | `b` after `a a` adds `b` nodes at orders 1, 2 and 3, each backing off to the one below. The cursor walks back from order 3 to order 2. |
| Scenarios.TrainAAB | controllers/trainController.js:30-33 | Training `a a b` yields that exact six-node trie and the cursor on the order-2 node for `a b`. |
| Scenarios.ReadAA | ppm_language_model.js:111-117 | Reading `a a` from the root, without training, lands on the order-2 node `a a`. |
| Scenarios.UnseenResets | ppm_language_model.js:119-129 | An unseen symbol falls back through the root and resets the cursor to the root at order 0. |
| Scenarios.PredictAfterAA | ppm_language_model.js:170-194 | After `a a`, only `b` has followed, so the prediction is `[0, 0, 1]`. |
| Scenarios.PredictAfterA | ppm_language_model.js:170-194 | After `a`, both `a` and `b` have followed once, so the prediction is `[0, 0.5, 0.5]`. |

## Left out

- **HTTP and I/O.** The routes, controllers, Python scripts and remote text fetching are I/O and plumbing around the core. `PpmModel.Train` stands in for the training loop of `controllers/trainController.js`. It takes the token ids directly, so `indexOf` is not modelled; a missing token gives -1, which the model ignores like any id at or below 0.
- **Floating point.** Probabilities are exact reals, not IEEE doubles. In the source, the remaining mass after the first node with children is a rounding residue rather than exactly 0. Later nodes on the chain can then add tiny amounts, which the model does not show.
- **Exclusion.** The `useExclusion_` flag is set but never read, so it is not modelled. The exclusion mask of `totalChildrenCounts` is modelled as a set of excluded ids instead of an indexable array.
- **Character classes.** JavaScript strings are UTF-16. The letter level here splits a Dafny `string` into its characters, which are Unicode scalar values, matching the code-point spread `[...text]`. The `\s` and `trim` white space is the fixed set of characters of sections 12.2 and 12.3 of ECMA-262 (the `Zs` category is written out for the current Unicode version).
- **Node allocation order.** New nodes are appended to the arena after the lower-order insertion returns. The source allocates the higher-order node first. The linked structure (children lists, backoff links, counts) is the same; only the arena indices differ from allocation order.
- **Shared vocabulary.** The vocabulary is a value held in the model. In the source, the model shares a reference to a vocabulary that can grow later through `getSymbolOrOOV`. The model's size check uses the vocabulary it holds.
- **Partial updates before a failure.** When `maxOrder <= -2`, the source has already changed the trie before the `TypeError` at line 165. The model returns only the failure.
- **Mutation of the cursor.** The source updates the context object in place. The model returns a new context.
- **Prediction ranking.** Ranking, filtering and the perplexity summary in `controllers/predictController.js` are left out. They work on the returned vector only.
- Tokenizer.Distinct: the vocabulary is a `set<string>`, which has no order. A JavaScript `Set` keeps the order in which tokens first occur, and `controllers/trainController.js` relies on that order when it registers the vocabulary with `forEach`. The ids it assigns in that loop are therefore not modelled.
