# Speedy's Markov chain, modelled in Dafny

The chain is a word-level Markov text model. `train` cuts every sentence
of a corpus into whitespace-separated words. For each window of
`state_size` consecutive words, it appends the next word to the list
stored under the window's key, which is the window's words joined by
single spaces. `generate` walks the table from a random start state:
a key whose first character is upper case. Each step emits the oldest word of the window
and slides the window past a random successor. When a window has no
successors, a terminal flush emits the window's words, puts a full stop on the
last word and restarts from a new start state. `complete` runs the same walk,
starting from the last `state_size` space-separated pieces of a seed sentence.
It stops at the first flush that leaves at least `min_len` words.

The model has four modules:

- `Text` (`text.dfy`) models `split_whitespace`, `split(" ")` and `join(" ")`
  as functions. It proves the round trips between them that the chain relies on.
- `Transitions` (`transitions.dfy`) gives the table type and states
  training as functions of the table and the corpus:
  - `Record` is one observed transition;
  - `TrainPrefix` covers the first n windows of a sentence;
  - `TrainSentence` covers one sentence;
  - `TrainAll` covers the whole corpus.

  It also holds the lemmas that state what training guarantees. `Observed`
  is an independent reference definition of the successors a key receives.
  `WellFormed` is the table invariant that training with windows of one or
  more words keeps.
- `Walks` (`walks.dfy`) states what generation and completion produce, in
  terms of walks of the table:
  - a walk starts from a window and steps, word by word, to a successor
    the table lists for the `state_size` words before it;
  - a terminal flush ends a walk at a window whose key the table lacks;
  - the flush leaves a segment of the walk in the sentence and puts a full
    stop on the last word.

  `Generation` and `Completion` describe a whole output as such segments.
  Every walk of a generation starts at a start state. The first walk of a
  completion starts from the seed's window and every later one at a start
  state. The module also holds the lemmas that advance these descriptions
  by one step of the source's loops.
- `Markov` (`chain.dfy`) holds the class `MarkovChain` with its two fields and
  its imperative methods. Each method is proved against the functions above.
  A random draw is a nondeterministic choice of a valid index, so the
  contracts hold for every outcome of the random generator. A call that
  would panic in the source is excluded by a precondition.

## Model

| member | source | states |
|---|---|---|
| Text.WordLen | src/speedys_markov_chain.rs:36 | the length of the leading word: no white space before it, white space or the end at it |
| Text.SplitWhitespace | src/speedys_markov_chain.rs:36 | every word produced by `split_whitespace` is non-empty and free of white space |
| Text.PieceLen | src/speedys_markov_chain.rs:71 | the length of the leading piece: no space before it, a space or the end at it |
| Text.Split | src/speedys_markov_chain.rs:106 | `split(" ")` yields at least one piece, and no piece contains a space |
| Text.Join | src/speedys_markov_chain.rs:92 | `join(" ")` on a vector of strings; JoinSnoc, SplitJoin and JoinSplit state how it relates to building a key and to `split(" ")` |
| Text.DotLast | src/speedys_markov_chain.rs:86-87 | popping the last word and pushing it back with "." changes only that word, keeping the length |
| Text.DotLastEnds | src/speedys_markov_chain.rs:128-129 | after a flush the last word is non-empty and ends with a full stop |
| Text.JoinSnoc | src/speedys_markov_chain.rs:43-50 | building a key word by word: appending a word to a non-empty join adds one space and the word |
| Text.SplitJoin | src/speedys_markov_chain.rs:71 | splitting a stored key on spaces gives back its words, when no word holds a space |
| Text.JoinSplit | src/speedys_markov_chain.rs:106 | joining the pieces of a split seed restores the seed exactly |
| Text.SplitWhitespaceJoin | src/speedys_markov_chain.rs:36 | whitespace-free words joined by spaces split back into the same words |
| Text.JoinDotLast | src/speedys_markov_chain.rs:128-129 | a full stop on the last word is a full stop at the end of the joined text |
| Transitions.Lookup | src/speedys_markov_chain.rs:51 | the list stored under a key, empty when the key is absent (the `None` arm of the lookup); how recording changes it is stated by LookupRecord |
| Transitions.Record | src/speedys_markov_chain.rs:51-60 | one transition adds its key, appends the successor to that key's list, and leaves every other key's list unchanged |
| Transitions.LookupRecord | src/speedys_markov_chain.rs:51-60 | after recording, a key's list is its old list, extended by the successor exactly when it is the recorded key |
| Transitions.RecordIsUpdate | src/speedys_markov_chain.rs:51-60 | recording extends an existing list or inserts a one-element list, as the `match` on the lookup does |
| Transitions.Windows | src/speedys_markov_chain.rs:37-41 | a sentence of at most `state_size` words gives no windows; every window is followed by a word |
| Transitions.WindowKey | src/speedys_markov_chain.rs:43-50 | the key of a window is its words joined by single spaces; a window of no words has the empty key. WindowKeySplits states the round trip |
| Transitions.TrainPrefix | src/speedys_markov_chain.rs:37-61 | the table after recording the first n windows of a sentence in order; TrainPrefixLookup and TrainPrefixKeys state what it holds |
| Transitions.TrainPrefixNext | src/speedys_markov_chain.rs:51-60 | one more window is recorded exactly as the `match` does: append to a present key's list, insert a one-element list otherwise |
| Transitions.TrainSentence | src/speedys_markov_chain.rs:36-61 | the table after every window of one sentence's `split_whitespace` words; ShortSentence and TrainPrefixLookup state its contents |
| Transitions.TrainAll | src/speedys_markov_chain.rs:35-62 | the table after training every sentence of the corpus in order; TrainExtends, TrainTotal and TrainConcat state its properties |
| Transitions.TrainPrefixLookup | src/speedys_markov_chain.rs:37-61 | after the first n windows, a key's list is its old list followed by exactly the successors observed after that key, in order; the successor of a window (`Successor`) is the word right after its `state_size` words (line 42) |
| Transitions.TrainPrefixStep | src/speedys_markov_chain.rs:37-61 | one more window extends a key's list by exactly what that window observes for it |
| Transitions.TrainPrefixKeys | src/speedys_markov_chain.rs:51-60 | a key is present after training exactly when it was present before or some window produced it |
| Transitions.ObservedAt | src/speedys_markov_chain.rs:42-50 | a word is an observed successor of a key exactly when some window joining to that key is followed by that word (`Successor`, the word at index `i + state_size`) |
| Transitions.ShortSentence | src/speedys_markov_chain.rs:39-41 | a sentence of at most `state_size` words leaves the table unchanged |
| Transitions.TrainExtends | src/speedys_markov_chain.rs:34-63 | training only adds: no key disappears and every old list is a prefix of its new list |
| Transitions.TrainNonEmpty | src/speedys_markov_chain.rs:51-60 | training never leaves a key with an empty list |
| Transitions.TotalLenRemove | src/speedys_markov_chain.rs:7 | the total of all list lengths is one list's length plus the total of the rest |
| Transitions.TotalLenRecord | src/speedys_markov_chain.rs:51-60 | recording one transition adds exactly one entry to the table |
| Transitions.TrainPrefixTotal | src/speedys_markov_chain.rs:37-61 | the first n windows of a sentence add exactly n entries |
| Transitions.TrainTotal | src/speedys_markov_chain.rs:32-64 | training adds exactly one entry per window of the corpus |
| Transitions.TrainConcat | src/speedys_markov_chain.rs:32-64 | training on `a` and then on `b` with the same size equals training on `a + b` |
| Transitions.WindowKeySplits | src/speedys_markov_chain.rs:43-50 | the key of a window of one or more words is non-empty and splits back into that window |
| Transitions.RecordWellFormed | src/speedys_markov_chain.rs:42-60 | recording one window of a tokenised sentence keeps the table well formed |
| Transitions.TrainPrefixWellFormed | src/speedys_markov_chain.rs:37-61 | recording the windows of one sentence keeps the table well formed |
| Transitions.TrainWellFormed | src/speedys_markov_chain.rs:32-64 | training with `state_size >= 1` keeps the table well formed; in particular every key splits into `state_size` words |
| Transitions.SuccessorIsWord | src/speedys_markov_chain.rs:146-153 | in a well-formed table every successor is a known word without spaces |
| Transitions.WellFormedZero | src/speedys_markov_chain.rs:43 | with a window of no words the key would be empty, so a well-formed table for size 0 is empty |
| Transitions.ThreeWords | src/speedys_markov_chain.rs:37-61 | with windows of one word, a three-word sentence records its two transitions in order |
| Transitions.ThreeTokens | src/speedys_markov_chain.rs:36 | three whitespace-free words joined by single spaces split back into those words |
| Transitions.FirstExampleWords | src/speedys_markov_chain.rs:36 | "The cat sat." splits into three words |
| Transitions.SecondExampleWords | src/speedys_markov_chain.rs:36 | "The dog ran." splits into three words |
| Transitions.ExampleTable | src/speedys_markov_chain.rs:51-60 | the four example transitions build the table "The" to [cat, dog], "cat" to [sat.], "dog" to [ran.] |
| Transitions.ExampleStarts | src/speedys_markov_chain.rs:141-142 | in the example table only "The" is a start state |
| Transitions.TrainExample | src/speedys_markov_chain.rs:32-64 | training windows of one word on the two example sentences gives the example table, whose only start state is "The" |
| Transitions.WellFormedKeys | src/speedys_markov_chain.rs:146-153 | in a well-formed table no key is empty and no key's list is empty, so a lookup that finds a key can draw a successor |
| Walks.FlushCount | src/speedys_markov_chain.rs:81-85 | a flush pushes at most `state_size` words and never passes the cap; it pushes at least one when there is room and a non-empty window, and all `state_size` of them unless it reaches the cap |
| Walks.WalkExtend | src/speedys_markov_chain.rs:75-78 | a walk extended by a successor the table lists for its last `state_size` words is still a walk, from the same first window |
| Walks.StartWalk | src/speedys_markov_chain.rs:71 | the pieces of a start key of a well-formed table are a fresh walk: `state_size` words that join to a start key |
| Walks.FlushesClose | src/speedys_markov_chain.rs:80-87 | a flush at a window with no key ends the walk in progress; its segment is the words it emitted followed by the first pushed window words |
| Walks.ClosedFront | src/speedys_markov_chain.rs:110-113 | the head in front of a completion survives every later flush: its words stay in order, the last possibly followed by full stops |
| Walks.ClosedSnoc | src/speedys_markov_chain.rs:86-87 | one more flush appends its segment to the sentence so far and puts a full stop on the last word |
| Walks.FlushedWhole | src/speedys_markov_chain.rs:81-85 | a flush that kept as many words as its walk has, kept the whole walk |
| Walks.ClosedLength | src/speedys_markov_chain.rs:80-88 | the sentence after a run of flushes is at least as long as its front plus any one of the segments |
| Walks.ExampleStep | src/speedys_markov_chain.rs:75-78 | in a walk of the example table every word but the last is a key, and the next word is one of its successors |
| Walks.ExampleStuckWalk | src/speedys_markov_chain.rs:72-89 | on the example table a walk from "The" that ends at a window with no key has exactly three words |
| Walks.ExampleStart | src/speedys_markov_chain.rs:71 | a walk of the example table from a start state begins with "The", its only start key |
| Walks.ExampleGenerationShort | src/speedys_markov_chain.rs:80-88 | a generation of at most three entries on the example table contains no flush |
| Walks.ExampleGeneration | src/speedys_markov_chain.rs:66-93 | the generations of three entries on the example table are exactly `"" The cat` and `"" The dog`; in particular `"" The ran.` and `"" The cat.` are not generations |
| Walks.ExampleCompletion | src/speedys_markov_chain.rs:114-136 | a completion of the seed "The" on the example table that stays below 100 words holds at least three words; in particular it never stops at `The ran.` |
| Walks.GenerationStart | src/speedys_markov_chain.rs:70-71 | before the first step a generation is the empty string followed by a fresh walk from a start state |
| Walks.GenerationEmit | src/speedys_markov_chain.rs:75-79 | emitting the window's oldest word and sliding past a listed successor keeps a generation; the new window is the walk's last `state_size` words |
| Walks.GenerationFlush | src/speedys_markov_chain.rs:80-88 | a flush at a window with no key ends the walk with a segment of its emitted words plus FlushCount window words, dots the last word, and a fresh walk from a start state begins; the result is again a generation |
| Walks.CompletingStart | src/speedys_markov_chain.rs:110-113 | before the first step a completion is the head followed by the seed's window as the first walk |
| Walks.CompletingEmit | src/speedys_markov_chain.rs:117-121 | emitting the window's oldest word and sliding past a listed successor keeps a completion in progress |
| Walks.CompletingFlush | src/speedys_markov_chain.rs:122-129 | a flush capped at 100 words at a window with no key finishes every walk, so the completion is finished with every walk ended at a window the table lacks; the new segment holds exactly the window words the cap left room for |
| Walks.CompletionRestart | src/speedys_markov_chain.rs:133 | a finished but short completion continues with a fresh walk from a start state |
| Walks.CappedClose | src/speedys_markov_chain.rs:123-125 | a flush that pushes what the 100-word cap allows, given the sentence it finds, adds a capped segment; earlier segments stay capped |
| Walks.FlushWhole | src/speedys_markov_chain.rs:123-125 | a flush that finds room under the 100-word cap for its whole window leaves all of its walk's words |
| Walks.CompletionWhole | src/speedys_markov_chain.rs:123-125 | a completion of fewer than 100 words never met the cap: every flush left all of its walk's words |
| Walks.ShortSnoc | src/speedys_markov_chain.rs:130-133 | a flush that leaves fewer than `min_len` words, after which the walk restarts, keeps every flush so far short |
| Walks.ShortFirst | src/speedys_markov_chain.rs:130-133 | if the first k flushes were all short, the first flush was short |
| Walks.ClosedSnocLength | src/speedys_markov_chain.rs:86-87 | one more flush adds exactly its segment's words to the sentence; the full stop changes no count |
| Walks.ClosedPrefixLength | src/speedys_markov_chain.rs:114-136 | the sentence only grows as more flushes are closed |
| Walks.ExampleCompletesOnce | src/speedys_markov_chain.rs:114-136 | a completion of "The" on the example table that stops at the first flush leaving `min_len` words, for `min_len` at most 3, is exactly `The cat sat..` or `The dog ran..` |
| Walks.StartKnown | src/speedys_markov_chain.rs:71 | the words of a start key are known to the table and free of spaces |
| Walks.SlideKnown | src/speedys_markov_chain.rs:76-78 | sliding the window past a known successor keeps every window word known |
| Walks.SpaceFreeEmit | src/speedys_markov_chain.rs:76 | emitting a known window word adds no word with a space |
| Walks.SpaceFreeFlush | src/speedys_markov_chain.rs:81-87 | a flush of known window words, with a full stop on the last word, adds no word with a space |
| Walks.DotExtendsMore | src/speedys_markov_chain.rs:128-129 | one more full stop keeps a word its base followed by full stops |
| Walks.DotExtendsSelf | src/speedys_markov_chain.rs:128-129 | every word is itself followed by no full stops |
| Walks.SeedPrefixAppend | src/speedys_markov_chain.rs:118 | pushing more words keeps the whole seed in front |
| Walks.SeedPrefixDotLast | src/speedys_markov_chain.rs:128-129 | a full stop on the last word keeps the seed in front, adding at most a full stop to its last word |
| Walks.SeedStart | src/speedys_markov_chain.rs:110-113 | a completion starts with the seed's head in front and its whole window still to emit |
| Walks.SeedEmit | src/speedys_markov_chain.rs:117-121 | emitting the window's oldest word emits the next seed word while the seed's window is pending, and keeps the seed in front afterwards |
| Walks.SeedFlush | src/speedys_markov_chain.rs:122-129 | when the seed fits the 100-word cap, a flush pushes at least the seed words still pending, so the seed ends up in front |
| Walks.GeneratingStart | src/speedys_markov_chain.rs:70-71 | the generation loop starts with the empty string and a fresh walk whose window words are known |
| Walks.GeneratingEmit | src/speedys_markov_chain.rs:75-79 | one emitting step of `generate` keeps the loop state: a generation, known space-free window words, and a cut-short flush only at the requested length |
| Walks.GeneratingFlush | src/speedys_markov_chain.rs:80-88 | one flushing step of `generate` keeps the loop state, with the finished walk and its segment added |
| Walks.ContinuingStart | src/speedys_markov_chain.rs:110-113 | the completion loop starts with the head in front and the seed's window as the first walk |
| Walks.ContinuingEmit | src/speedys_markov_chain.rs:117-121 | one emitting step of `complete` keeps the loop state: a completion in progress, with the seed kept |
| Walks.ContinuingFlush | src/speedys_markov_chain.rs:122-129 | one flushing step of `complete` finishes the completion, with the seed in front when it fits 100 words |
| Walks.ContinuingRestart | src/speedys_markov_chain.rs:130-133 | a short finished completion goes on from a fresh walk, with the seed already in front |
| Markov.FlushWindow | src/speedys_markov_chain.rs:81-87 | the flushed sentence is the sentence plus the first FlushCount window words, with a full stop on its last word |
| Markov.StateKey | src/speedys_markov_chain.rs:38-50 | the key built in the loop is the window's words joined by single spaces |
| Markov.TrainWords | src/speedys_markov_chain.rs:37-61 | the windows of one sentence, recorded in order up to the first index with no following word, give the table trained on that sentence |
| Markov.SplitSeed | src/speedys_markov_chain.rs:110-113 | popping the last `state_size` pieces leaves the head in front; head and window together are the seed's pieces |
| Markov.MarkovChain.constructor | src/speedys_markov_chain.rs:24-30 | a new chain has an empty table and window size 0 |
| Markov.MarkovChain.Train | src/speedys_markov_chain.rs:32-64 | the window size becomes the given size, and the table becomes the old table trained on every sentence in order |
| Markov.MarkovChain.GetSentenceStartState | src/speedys_markov_chain.rs:140-145 | the chosen state is in `StartKeys`: a key of the table whose first character is upper case |
| Markov.MarkovChain.GetNextState | src/speedys_markov_chain.rs:146-158 | the result is absent exactly when the joined state is not a key; otherwise it is one of that key's successors |
| Markov.MarkovChain.Generate | src/speedys_markov_chain.rs:66-93 | size 0 yields "". Otherwise the vector holds max(1, length) entries and is a generation: the empty string, then one segment per finished walk with a full stop on its last word, then the words the walk in progress emitted. Every walk begins with the words of a start key, and each later word is a successor the table lists for the `state_size` words before it. Every finished walk ended at a window the table has no key for, and its segment is the whole walk, except a last flush cut short by `length`, which still pushed at least one window word. The text is the join of the words and splits back into them |
| Markov.MarkovChain.CompleteWalk | src/speedys_markov_chain.rs:114-136 | when the walk stops, the sentence holds at least `min_len` words and ends in a full stop. It is a finished completion: the head, then one segment per walk with a full stop on its last word. The first walk starts from the given window, every later one from the words of a start key, and each later word is a successor the table lists for the `state_size` words before it. Every walk, the last included, ended at a window with no key, and its flush pushed exactly the window words the 100-word cap left room for in the sentence it found. Every flush before the last left fewer than `min_len` words, so the walk stops at the first flush that leaves `min_len`. If the seed fits the 100-word cap, the whole seed is in front. With size 0 it stops at once with a full stop on the seed |
| Markov.MarkovChain.Complete | src/speedys_markov_chain.rs:105-138 | a seed shorter than the window yields "", and size 0 yields the seed plus ".". Otherwise the text joins at least `min_len` words ending in a full stop, and the words are a finished completion from the seed's last `state_size` pieces, as for CompleteWalk: every flush pushed what the 100-word cap allowed, and every flush before the last left fewer than `min_len` words. The seed's head stays in front, and so do all its pieces when there are at most 100 of them (the last may gain full stops) |

## Left out

- `save` and `load` (serde JSON and file I/O) are not modelled. Neither is
  `Clone`, which copies the fields.
- The random generator is not modelled. Each draw is a nondeterministic
  choice of a valid index. Contracts therefore hold for every outcome, and
  nothing is stated about the distribution.
- `clean.py`, the corpus preprocessing script, is not part of this model.
- Markov.MarkovChain.GetSentenceStartState: "upper case" is ASCII `A`-`Z`.
  Rust's `is_uppercase` also accepts the other Unicode upper-case letters.
- Markov.MarkovChain.Generate: for a positive window size the model requires
  `WellFormed`: every key is non-empty and splits into `state_size` words,
  every list is non-empty, and every successor is a whitespace-free word.
  The first two clauses exclude panics. A start state of fewer than
  `state_size` words makes the flush read `current_state[i]` past its end
  (line 83). An empty key makes `get_sentence_start_state` unwrap the first
  character of "" (line 142). The source panics only on a walk that
  actually reaches such an entry, so the precondition also excludes tables
  on which a particular walk would not panic. A successor holding white
  space causes no panic, but the text would then not split back into its
  words. Training never stores one.
- Markov.MarkovChain.Complete: the same `WellFormed` requirement as Generate,
  with the flush read at line 125. With window size 0 the source's window is
  empty. A table trained with size 0 stores the empty key, so the first step
  finds successors and takes `current_state[0]` of the empty window
  (line 118). `WellFormed` for size 0 holds only of the empty table, where
  the first step flushes.
- Markov.MarkovChain.Complete: with window size 0 the model also requires
  `min_len` to be at most the number of seed pieces. Otherwise the source
  restarts from a start state, which the empty table lacks (line 143).
- Markov.MarkovChain.Complete: the source panics only when a walk actually
  restarts without a start state. The model requires a start state whenever
  the window size is positive.
- Markov.MarkovChain.Complete: the source loops until a flush is long enough.
  The model bounds the loop by a `fuel` count of steps, and `None` means the
  fuel ran out. Nothing is claimed about how many steps the source needs.
- Markov.MarkovChain.Complete: the seed is stated to stay in front only when
  it has at most 100 pieces. A longer seed leaves the 100-word cap no room,
  so a flush may dot a word before the end of the seed.
- Markov.MarkovChain.Train: the model states the new state exactly. A
  reading of the chain after training relies on TrainWellFormed, which
  assumes the corpus is retrained with a single window size.

Where the code and the intended behaviour differ, the model follows the code:

- `generate` starts its word vector with an empty string. For `length >= 2`
  the text therefore begins with a space and holds `length - 1` generated
  words. For `length` 0 or 1 it is the empty string.
- `complete` does not stop early when the window size is 0: it
  returns the seed with a full stop appended.
- `train` accepts a window size different from the previous one and
  replaces the stored size, keeping the old keys.
- There is no error value for a table without start states: the source
  panics, which the model excludes by precondition.
