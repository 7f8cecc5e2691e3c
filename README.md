# rag-go session core in Dafny

rag-go is an interactive retrieval-augmented-generation tool. Each line read
from the terminal is trimmed, lower-cased and dispatched as one of five
commands:

- `load` splits every listed text document into overlapping word windows.
  Fragment `i` of document `path` is stored under the id `path_i`. Each
  document's fragments go to the vector collection as one batch add.
- `query` asks the collection for the best `min(10, count)` fragments. It
  assembles a context of at most 4000 bytes of fragment text, builds a
  prompt, and asks a language model for the answer.
- `update` deletes a fragment and then adds its new text under the same id.
- `delete` removes a fragment.
- `exit` ends the session.

This project models that core in main.go and proves properties of it:

- `text.dfy` (module `Text`): the Go string operations the core relies on.
  These are `strings.Fields`, `strings.Join`, `strings.TrimSpace`,
  `strings.ToLower` (on the characters it maps into ASCII) and `len` as a UTF-8 byte count.
- `ids.dfy` (module `FragmentIds`): the `"%s_%d"` fragment ids. An id parses
  back to its path and index, so ids of different fragments never collide,
  even across documents.
- `chunker.dfy` (module `Chunker`): `chunkText`. It is a loop method proved
  against a closed-form specification `Chunks`, where window `k` starts at
  word `k * step`. Lemmas cover the window shape, the chunk count, the last
  window and coverage of every word.
- `context.dfy` (module `ContextAssembly`): the greedy context-assembly
  loop, the newline join and the prompt.
- `store.dfy` (module `FragmentStore`): the collection as a map from id to
  text, and the outcome of a batch add.
- `session.dfy` (module `SessionControl`): command parsing, the bookkeeping
  of `load`, and the guard and clamp of `query`. It also has the
  `update`/`delete` edits and a `Session` class. The class holds the store
  and has one method per command, a `Step` method for one turn, and a `Run`
  method for the command loop.

Everything outside the program is a parameter of the operation that uses it:

- the document listing;
- the outcome of each batch add (every fragment stored, or failure after
  some subset of the batch was stored);
- the outcome of a delete;
- the ranked texts a query returns;
- the language model's answer.

The budget counts only the fragments' lengths (main.go:202, 206), not the
newlines between them. `ContextAssembly.ContextLength` proves the context can
exceed the budget by the number of kept fragments minus one, and
`ContextAssembly.ContextCanExceedBudget` shows it happening.

## Model

| member | source | states |
|---|---|---|
| Text.Fields | main.go:99 | `strings.Fields`: the maximal runs of non-white-space characters, in order; `FieldsAreWords` and `FieldsOfJoin` state its properties |
| Text.FieldsAreWords | main.go:99 | every word `strings.Fields` returns is non-empty and holds no white space |
| Text.FieldsOfJoin | main.go:110 | splitting words that were joined by single spaces gives the same words back, so a chunk re-splits into exactly its window |
| Text.TrimSpace | main.go:149 | `strings.TrimSpace`, also applied to the question, id and text lines (main.go:179, 232, 235, 249): the string without its leading and trailing white space; `TrimSpaceTrims`, `TrimSpaceIdempotent` and `TrimSpacePadding` state its properties |
| Text.TrimSpaceTrims | main.go:149 | the trimmed line is empty exactly when the line is all white space; otherwise it is a slice of the line that starts and ends with non-space, with only white space outside it |
| Text.TrimSpaceIdempotent | main.go:149 | trimming a trimmed string changes nothing |
| Text.TrimSpacePadding | main.go:149 | white space added before and after a string does not change its trimming |
| SessionControl.DottedCapitalISelectsExit | main.go:149-151 | a line whose capital I carries a dot above (U+0130) lower-cases to the exit keyword and ends the session, as `strings.ToLower` maps it to 'i' |
| Text.ToLower | main.go:149 | `strings.ToLower` applied character by character, on the characters whose lower case is ASCII; `ToLowerIdempotent` and `DottedCapitalISelectsExit` state its properties |
| Text.ToLowerIdempotent | main.go:149 | lower-casing twice is lower-casing once |
| Text.Join | main.go:110 | `strings.Join`, also used for the context at main.go:208: the parts with the separator between each neighbouring pair; `FieldsOfJoin` and `JoinLength` state its properties |
| Text.Utf8Len | main.go:202 | `len` of a string, as summed at main.go:202 and 206: its UTF-8 byte count; `Utf8LenConcat` and `JoinLength` state its properties |
| Text.JoinLength | main.go:208 | the byte length of a join is the parts' byte lengths plus one separator length for each neighbouring pair |
| Text.Utf8LenConcat | main.go:202 | `len` of a concatenation is the sum of the `len`s |
| FragmentIds.MakeId | main.go:164 | the id `path_i`: the path, an underscore and the index in decimal; `IdRoundTrip` and `IdInjective` state its properties |
| FragmentIds.DecimalRoundTrip | main.go:164 | the decimal `%d` rendering of an index reads back as that index |
| FragmentIds.IdRoundTrip | main.go:164 | the id `path_i` parses back to exactly `(path, i)` |
| FragmentIds.ParseIdSound | main.go:164 | every string that parses as an id is the id built from the path and index it parses to |
| FragmentIds.IdInjective | main.go:164 | two fragment ids are equal only when path and index are both equal |
| FragmentIds.BatchIds | main.go:161-166 | one document's ids number exactly its chunks and are pairwise distinct |
| FragmentIds.BatchIdsParse | main.go:164 | the id at position i of a document's batch parses to that document's path and i |
| Chunker.RawStep | main.go:100 | the step before the guard, the window size times (1 - overlap) truncated toward zero, with the overlap as a fraction; `StepOfConstants` gives its value for the program's constants |
| Chunker.TruncDiv | main.go:100 | `int(...)` of a quotient truncates toward zero, for negative as well as non-negative operands |
| Chunker.Stride | main.go:101-103 | the guard makes the step at least 1 for any window size of at least 1, and leaves a positive step unchanged |
| Chunker.StrideWithinWindow | main.go:100-103 | with an overlap between 0 and 1 the step lies between 1 and the window size |
| Chunker.Chunks | main.go:104-115 | the closed form of the windows: chunk k is words [k*step, min(k*step+size, n)) joined by spaces, for as many windows as the loop emits; `ChunkShape`, `ChunkCount` and `ChunksCoverWords` state its properties |
| Chunker.ChunkText | main.go:98-116 | chunkText returns exactly the closed-form windows of the text's words for the guarded step |
| Chunker.CutWindows | main.go:104-115 | the windowing loop with its early break produces exactly the closed-form windows |
| Chunker.ChunkAt | main.go:105-110 | a window that starts before the last word, and that no earlier window reaches past, is emitted as words [k*step, min(k*step+size, n)) joined by spaces |
| Chunker.ChunkShape | main.go:105-110 | chunk k starts before the last word, is words [k*step, min(k*step+size, n)) joined by single spaces, re-splits into those words, and holds between 1 and size words |
| Chunker.ChunksEmpty | main.go:99-105 | there are no chunks exactly when the text has no words |
| Chunker.LastChunkReachesEnd | main.go:105-113 | when step <= size there is a last chunk, it ends at the last word, and no earlier chunk does |
| Chunker.ChunkCount | main.go:100-113 | the number of chunks is 0 for no words, 1 when all words fit in one window, and 1 + ceil((n - size)/step) otherwise |
| Chunker.ChunksCoverWords | main.go:105-113 | when step <= size every word lies inside some chunk's window |
| Chunker.EightWordExample | main.go:98-116 | the eight words a … h with window 4 and overlap 1/4 gives step 3 and the chunks "a b c d", "d e f g", "g h" |
| SessionControl.StepOfConstants | main.go:100 | with the program's window of 400 words and overlap 0.25, the step is 300 |
| ContextAssembly.Fit | main.go:199-207 | how many ranked texts the greedy loop keeps before the first one that would take the byte total past the budget; `FitIsGreedyPrefix` and `FitIsLongest` state its properties |
| ContextAssembly.AssembleContext | main.go:199-208 | the context is the longest greedy prefix of the ranked texts, joined with newlines, and is empty when the first text alone exceeds the budget |
| ContextAssembly.FitIsGreedyPrefix | main.go:199-207 | the kept texts' byte lengths sum to at most the budget, and adding the next text would exceed it |
| ContextAssembly.FitIsLongest | main.go:201-204 | every prefix within the budget is at most as long as the kept one, so no text is skipped while a later one is kept |
| ContextAssembly.ContextLength | main.go:202-208 | the context is as long as the kept texts plus one byte per newline, so it can exceed the budget by the kept count minus one |
| ContextAssembly.ContextCanExceedBudget | main.go:202-208 | two 2-byte texts under a budget of 4 are both kept, and their context is 5 bytes |
| ContextAssembly.OverflowStopsAssembly | main.go:201-204 | with a budget of 10, "hello" is kept, "worldwide" overflows, and the context is "hello" |
| ContextAssembly.Prompt | main.go:211-218 | the prompt holds the context and, after it, the question, at fixed offsets of the template |
| FragmentStore.ApplyAdd | main.go:167 | the store after a batch add, for the load's add and for the update's add at main.go:240: every fragment written under its id on success, only the fragments at the indices `landed` on failure; `AddStored`, `AddStoredTwice` and `PutFreshSize` state its properties |
| FragmentStore.Put | main.go:167 | a batch write stores each chosen fragment under its id, keeps every other key's value, and adds no key outside the store and the batch |
| FragmentStore.AddStored | main.go:167 | a successful add of distinct ids stores every text of the batch under its id and leaves every other key as it was |
| FragmentStore.AddStoredTwice | main.go:167 | adding the same batch twice is the same as adding it once: fragments are overwritten, not duplicated |
| FragmentStore.PutFreshSize | main.go:167-171 | adding a batch of distinct new ids grows the collection by exactly the batch size |
| SessionControl.Min | main.go:118-123 | `min` is at most each argument and equal to one of them |
| SessionControl.ParseCommand | main.go:149-151 | the command a line selects: the literal it equals once lower-cased and trimmed, or none; `KeywordParses`, `ParsedIsKeyword` and `ParseCommandIgnoresPaddingAndCase` state its properties |
| SessionControl.KeywordParses | main.go:149-152 | each of the five literals selects its own command |
| SessionControl.ParsedIsKeyword | main.go:149-151 | a line selects a command only if, trimmed and lower-cased, it is that command's literal |
| SessionControl.ParseCommandIgnoresPaddingAndCase | main.go:149 | white space around a line and the case of its letters do not change the command it selects |
| SessionControl.FragmentBatch | main.go:161-166 | the ids and texts arrays have one entry per chunk, the ids are `path_i` and pairwise distinct, and text i is chunk i |
| SessionControl.Fragments | main.go:160 | the call `chunkText(content, chunkSize, overlapPct)`: the closed-form windows of the document's words with window 400 and the guarded step of the 1/4 overlap |
| SessionControl.LoadStore | main.go:158-173 | the store after a load: each listed document's batch of `path_i` ids and chunks applied in turn with that add's outcome; `LoadKeepsOthers`, `LoadAddsOnlyListed` and `LoadStoresFragments` state its properties |
| SessionControl.LoadTotal | main.go:158-173 | the reported total: the sum of the chunk counts of the documents whose add succeeded; `LoadTotalCountsNewFragments` relates it to the store |
| SessionControl.LoadPrefixStep | main.go:159-173 | loading one more document applies its batch on top of the load of the documents before it, and adds its fragment count only if its add succeeded |
| SessionControl.OtherPathNotInBatch | main.go:164 | a fragment id of one path is never in the batch of another path |
| SessionControl.LoadKeepsOthers | main.go:158-173 | a load leaves untouched every stored fragment that is not a fragment id of a listed document |
| SessionControl.LoadAddsOnlyListed | main.go:158-173 | every key a load adds is the id of a fragment of a listed document |
| SessionControl.LoadStoresFragments | main.go:159-172 | after a load, fragment i of a document whose add succeeded is stored under `path_i`, if listed paths are distinct |
| SessionControl.LoadTotalCountsNewFragments | main.go:158-174 | when every add succeeds and none of the ids were present before, the reported total equals the number of fragments the load added |
| SessionControl.DeleteStore | main.go:246-254 | the store after a delete: the trimmed id removed when the collection reports success, unchanged otherwise |
| SessionControl.UpdateStore | main.go:229-244 | the store after an update: the trimmed id deleted and then the trimmed text added under it when the delete succeeds, unchanged otherwise; `UpdateReplaces` and `UpdateNotAtomic` state its properties |
| SessionControl.UpdateReplaces | main.go:229-244 | an update whose delete and add both succeed leaves exactly the new text under the id and changes nothing else |
| SessionControl.UpdateNotAtomic | main.go:236-243 | when the delete succeeds and the add fails without storing anything, the fragment is gone |
| SessionControl.StepStore | main.go:151-262 | the store after one turn: a load, update or delete changes it as `LoadStore`, `UpdateStore` and `DeleteStore` say, and every other command leaves it as it was |
| SessionControl.StopsAtEnd | main.go:145-263 | turns after the one that ends the loop are neither applied nor read |
| SessionControl.ExitIsTerminal | main.go:256-258 | after the first `exit`, the remaining turns change nothing and are not read |
| SessionControl.Session.Load | main.go:152-174 | a listing failure reports an error and changes nothing; otherwise each document's batch is added in turn and the reported total counts only successful batches |
| SessionControl.Session.AddDocument | main.go:159-172 | one document's chunks are added under their ids, and the total grows by the chunk count only on success |
| SessionControl.QueryMeets | main.go:176-227 | what a query report means for a collection: a blank question or an empty collection is reported without a query; otherwise n = min(10, count) fragments are asked for with 1 <= n <= count, the prompt holds the greedy context and the trimmed question, and a retrieval or generation error is reported as such |
| SessionControl.Session.Query | main.go:176-227 | the report meets `QueryMeets` for the collection as it is: no query for a blank question or an empty collection; otherwise it asks for n = min(10, count) fragments with 1 <= n <= count, and prompts with the greedy context and the trimmed question; it reports retrieval and generation errors |
| SessionControl.Session.Update | main.go:229-244 | the trimmed id's fragment is deleted, then the trimmed text is added under it; no add is made when the delete fails, and each failure is reported |
| SessionControl.Session.Delete | main.go:246-254 | the trimmed id is removed when the collection reports success, and nothing changes otherwise |
| SessionControl.Session.Step | main.go:148-262 | one turn changes the store only through load, update or delete, as `StepStore` says; it exits exactly on `exit`, reports an unrecognised command exactly when no literal matches, and replies with the report of the selected command: the load's total or read failure, the query report meeting `QueryMeets` for the store before the turn, the update's or delete's outcome, or the farewell on `exit` |
| SessionControl.Session.Run | main.go:145-263 | the command loop reads turns up to and including the first `exit`, and leaves the store as the turns before it define |

## Left out

- The HTTP calls to the embedding and generation services (main.go:37-78) are network I/O with JSON decoding. Generation is a function parameter of `Query`. Embedding happens inside the collection, which is abstract.
- The directory walk `loadDir` (main.go:82-96) is file I/O. Its result is a `Listing`: a failure, or the documents in the order the program visits them.
- The internals of the chromem-go collection (main.go:129-141, 167, 192, 236, 240, 250) are not part of this model. That covers similarity ranking, embeddings and persistence. The collection is a map from id to text, and its count (main.go:183) is the number of stored ids. A query's ranked texts are a parameter and need not come from the map. A batch add reports either success or failure after some subset of the batch was stored. Each delete (main.go:236, 250) passes both the filter `{"id": id}` and the id itself. The model assumes that a delete reporting success has removed that id, whatever the library does with the filter, and that one reporting failure has changed nothing. `SessionControl.DeleteStore`, `SessionControl.UpdateStore` and the lemmas about them rest on this assumption.
- The float product `int(float64(size) * (1 - overlap))` (main.go:100) is computed exactly, with the overlap 0.25 as the fraction 1/4 and truncation toward zero. For the program's constants it gives the same step, 300.
- Coloured output, log lines, the debug preview of the prompt (main.go:220, the only use of `min`) and the raw answer echo (main.go:226) are presentation only.
- Reading standard input (main.go:148, 178, 231, 234, 248) is replaced by the lines carried in each `Turn`. At end of input the program keeps reading empty lines, which are unrecognised commands, forever. `SessionControl.Session.Run` instead stops after the turns it is given.
- `Text.ToLower` lower-cases only the characters whose lower case is ASCII (A-Z, U+0130 and U+212A) and keeps every other character. Full Unicode case mapping is not modelled. The result can differ from Go's only in non-ASCII characters, and a line holding one after lower-casing matches no command either way, so `SessionControl.ParseCommand` selects the same command as the program.
- Invalid UTF-8 in documents or input lines is not modelled. Strings are sequences of Unicode scalar values, and `len` is their UTF-8 byte count.
- Chunker.ChunkText: requires a window size of at least 1. With size 0 the Go loop never ends on text with words. The program always passes 400.
- The template text of the prompt is reproduced as constants. `ContextAssembly.Prompt` states where the context and the question sit in the prompt, not the template's wording.
