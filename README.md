# pytrans in Dafny

This models the two sequential cores of pytrans, a translation tool. Each is stated in Dafny with its properties proved.

1. **`pytrans.py`, the document translator.**
   - `find_chunk_boundary` picks a cut point in the first `max_chars` characters. It tries a fixed priority list of delimiters, and a match counts only at a position above 0.
   - `chunk_text` cuts a text into consecutive chunks.
   - `translate_chunk` calls the provider up to three times.
   - `translate_file` translates a document in one request when it fits. Otherwise it translates the document chunk by chunk, keeping a failed chunk's original text, and joins the pieces.
   - `get_output_filename` rewrites `dir/stem.ext` to `dir/stem_en.ext`.
2. **`tools/trans_rest.py`, the batch vocabulary engine.**
   - It reads a words file and keeps the words the saved dictionary lacks, in order and with duplicates.
   - It cuts these words into numbered batches.
   - `translate_batch` translates each batch in one newline-joined request. It pairs the answer's stripped lines with the words by position, stopping at the shorter list. If the request fails, every word gets `[ERROR]`.
   - The pool's workers merge each batch's dictionary into the saved one with `dict.update`, under a lock. They also raise a progress counter by the batch's size.

Files:
- `wrappers.dfy`: `Option`.
- `strings.dfy`: the Python string operations the code relies on. These are `''.join`, `'\n'.join`, `split('\n')`, `strip()` (with Python's white-space set) and `rfind`.
- `chunk_planner.dfy`: the boundary and the chunk loop.
- `document_translator.dfy`: retry, the file translation and the output name.
- `batch_translator.dfy`: the batch request, the vocabulary, the filter and the partition.
- `vocabulary_store.dfy`: the shared dictionary and counter as a class; the worker; the whole run.

How outside interactions are represented:
- **Translation service.** It is a parameter. For documents it is `(text, sourceLang, attempt) -> Option<string>`; the attempt number stands for the service changing between retries. For batches it is `request -> Option<string>`.
- **Pool schedule.** The order in which the pool's workers enter the locked section is a parameter `order`, a permutation of the batch indices. Each locked read-update-write of the dictionary file is one atomic step, so the run's result is the saved dictionary merged with each batch's result in schedule order. Properties stated for every schedule therefore hold for any completion order of the pool.
- **Files.** The words file is its text `content`, and the dictionary file is the map `SharedState.store`.

The code lists the sentence ends `'.  '`, `'!  '` and `'?  '` with two spaces (`pytrans.py:63`), so a period followed by one space is not a sentence break. `ChunkPlanner.SentenceEndWithOneSpaceIsNotPreferred` shows that a text starting "Hello world. This is" with a limit of 20 is cut at 18, after the last plain space, not at 13, after the period.

## Model

| member | source | states |
|---|---|---|
| ChunkPlanner.FindChunkBoundary | pytrans.py:51-74 | A text that fits gives its length. Otherwise the boundary is at most `max_chars`, and at least 1 when `max_chars >= 1`. |
| ChunkPlanner.DelimiterCut | pytrans.py:63-66 | The delimiter loop's cut is above 0 and inside the search area. |
| ChunkPlanner.HasBreakIffRFind | pytrans.py:60-65 | `rfind` in the search area is above 0 exactly when the delimiter occurs at a position above 0 and ends within `max_chars`. |
| ChunkPlanner.DelimiterCutFirst | pytrans.py:63-66 | The loop returns the cut of the first delimiter, in list order, whose `rfind` is above 0. |
| ChunkPlanner.DelimiterCutNone | pytrans.py:63-66 | When no delimiter's `rfind` is above 0, the loop finds nothing. |
| ChunkPlanner.DelimiterCutNoneInverse | pytrans.py:63-66 | Conversely, when the loop finds nothing, no delimiter's `rfind` is above 0. |
| ChunkPlanner.BoundaryAfterFirstBreakingDelimiter | pytrans.py:60-66 | Priority rule: for the first delimiter with a break, the boundary ends its last occurrence that lies at a position above 0 and ends within `max_chars`. No later occurrence ends within `max_chars`. |
| ChunkPlanner.HardCutWithoutBreak | pytrans.py:63-74 | When no listed delimiter has a break, the boundary is exactly `max_chars`. |
| ChunkPlanner.SpaceFallbackUnreachable | pytrans.py:68-71 | Whenever the loop finds nothing, the last space is at 0 or absent, so the space fallback never decides. |
| ChunkPlanner.CrLfNeverDecides | pytrans.py:63 | A break at `'\r\n'` implies a break at `'\n'`, which comes first in the list. |
| ChunkPlanner.Chunks | pytrans.py:77-96 | The chunk list `chunk_text` builds: the rest when it fits, else the cut-off prefix and the chunks after the boundary. There are no chunks exactly for the empty text, and never more chunks than characters. |
| ChunkPlanner.ChunksCoverText | pytrans.py:77-96 | The chunks concatenate to the text, and each chunk has between 1 and `max_chars` characters. |
| ChunkPlanner.ChunksStep | pytrans.py:84-94 | One loop turn: the remaining text's chunks are the last chunk when it fits, otherwise the cut-off prefix followed by the chunks after the boundary. |
| ChunkPlanner.ChunkText | pytrans.py:77-96 | The loop computes the chunk plan. The chunks cover the text within the limit, empty text gives `[]`, and a fitting non-empty text gives `[text]`. |
| ChunkPlanner.SentenceEndWithOneSpaceIsNotPreferred | pytrans.py:56-74 | A text starting "Hello world. This is" with limit 20 is cut at 18, not after the period. |
| DocumentTranslator.Retry | pytrans.py:99-110 | The `range(3)` retry loop from one attempt on, returning at the first success. A translation it returns is the answer of one of the remaining attempts, paired with the given source language. |
| DocumentTranslator.RetryFirstSuccess | pytrans.py:99-110 | The retry succeeds exactly when one of the three attempts does. It returns the first success's answer with the given source language, and every earlier attempt failed. |
| DocumentTranslator.TranslateChunk | pytrans.py:99-110 | Between 1 and 3 attempts. The attempts before the last all failed. On success the last attempt's answer is returned with the source language; on failure there were 3 failed attempts. |
| DocumentTranslator.Piece | pytrans.py:145-154 | What one chunk appends to `translated_chunks`: the translation when `translate_chunk` succeeded, the chunk itself when it raised. |
| DocumentTranslator.Pieces | pytrans.py:141-154 | One piece per chunk. |
| DocumentTranslator.PiecesStep | pytrans.py:141-154 | One more chunk appends its piece: the translation, or the chunk itself on failure. It then updates the detected language only on success. |
| DocumentTranslator.LastDetected | pytrans.py:137-147 | `detected_lang` after the chunk loop: `None` at the start, overwritten by each successful chunk; whenever it is set, it is the source language passed in. |
| DocumentTranslator.LastDetectedIsSourceLang | pytrans.py:137-147 | The reported language is the source language if some chunk was translated, else `None`. |
| DocumentTranslator.FileTranslation | pytrans.py:113-161 | What `translate_file` gives: for a fitting document the single-request result or the propagated exception, else the joined chunk pieces. Only a fitting document can fail, and when translated it reports the source language. |
| DocumentTranslator.TranslateFile | pytrans.py:113-161 | The chunk loop computes the file translation. |
| DocumentTranslator.LongDocumentPieces | pytrans.py:130-161 | A long document never fails. The result joins the pieces in chunk order, and piece `i` is chunk `i`'s translation or chunk `i` itself. |
| DocumentTranslator.AllChunksFailedKeepsContent | pytrans.py:145-159 | If every chunk fails, the long document comes back unchanged with no language. |
| DocumentTranslator.ShortDocumentFailsOnlyAfterThreeFailures | pytrans.py:123-128 | A fitting document fails exactly when all three attempts fail. |
| DocumentTranslator.LastSlash | pytrans.py:25 | The last `'/'` of the path, or -1. |
| DocumentTranslator.Directory | pytrans.py:25-28 | `path.parent` with its trailing '/': no longer than the path, and empty or ending in '/'. |
| DocumentTranslator.Name | pytrans.py:25-27 | `Path(path).name`, what follows the last '/': it holds no '/', and its length and the directory's add up to the path's. |
| DocumentTranslator.SuffixStart | pytrans.py:26-27 | The suffix lies within the name. |
| DocumentTranslator.Stem | pytrans.py:26 | `path.stem`: a prefix of the name, non-empty for a non-empty name. |
| DocumentTranslator.Suffix | pytrans.py:27 | `path.suffix`: empty, or a '.' followed by at least one character. |
| DocumentTranslator.OutputFilename | pytrans.py:23-28 | The output path is three characters longer than the input. |
| DocumentTranslator.StemSuffixSplitName | pytrans.py:26-27 | Stem followed by suffix is the name. |
| DocumentTranslator.OutputFilenameKeepsDirectory | pytrans.py:23-28 | The output keeps the parent directory, its name is `stem + "_en" + suffix`, and it differs from the input. |
| DocumentTranslator.DirectoryJoin | pytrans.py:28 | Joining a directory and a slash-free name gives back that directory and name. |
| DocumentTranslator.OutputFilenameKeepsSuffix | pytrans.py:23-28 | For a name not ending in '.', the output's suffix is the input's and its stem is the input's stem plus "_en". |
| Strings.Concat | pytrans.py:159 | `''.join(translated_chunks)`: as long as all the pieces together. |
| Strings.ConcatAppend | pytrans.py:159 | Joining with one more piece appends that piece. |
| Strings.JoinLines | tools/trans_rest.py:24 | `'\n'.join(words)`: the lines' characters plus one separator between each two lines; no lines give "". |
| Strings.SplitLines | tools/trans_rest.py:28 | A split has at least one piece, and no piece holds a newline. |
| Strings.JoinSplitLines | tools/trans_rest.py:24-28 | Joining the split pieces with '\n' gives back the text. |
| Strings.SplitJoinLines | tools/trans_rest.py:24-28 | Splitting the join of newline-free lines gives back the lines. |
| Strings.Strip | tools/trans_rest.py:33 | `str.strip()`: no longer than the text, and it neither starts nor ends with white space. |
| Strings.StripRemovesSpace | tools/trans_rest.py:33 | `strip()` drops only white space at the ends; with `Strings.Strip`'s contract, it drops exactly that. |
| Strings.StripTrimmed | tools/trans_rest.py:116 | A text without white space at its ends is its own `strip()`. |
| Strings.RFindUpTo | pytrans.py:64 | Returns the last occurrence at or below the bound, or -1. |
| Strings.RFind | pytrans.py:64 | `rfind` gives an occurrence, or -1, with no occurrence after it. |
| BatchTranslator.Zipped | tools/trans_rest.py:31-33 | The dictionary after the first `n` turns of the `zip` loop: at most `n` entries, since a repeated word overwrites its entry. |
| BatchTranslator.ZippedKeys | tools/trans_rest.py:31-33 | After `n` zip turns the keys are exactly the first `n` words. |
| BatchTranslator.ZippedValue | tools/trans_rest.py:31-33 | A word maps to the stripped line at its last occurrence among the first `n`. |
| BatchTranslator.ZippedKeysAndValues | tools/trans_rest.py:31-35 | Both of the above together. |
| BatchTranslator.ErrorMap | tools/trans_rest.py:36-39 | The keys are exactly the words, each mapped to `[ERROR]`. |
| BatchTranslator.BatchTranslation | tools/trans_rest.py:24-39 | What `translate_batch` returns for the service's answer. Every key is a word of the batch; on failure every value is `[ERROR]`; on success there is at most one entry per answer line. |
| BatchTranslator.BatchResult | tools/trans_rest.py:21-39 | `translate_batch(words)` for a given service: every key is one of the batch's words. |
| BatchTranslator.BatchResultCoversWords | tools/trans_rest.py:21-39 | If the answer fails or has a line per word, every word is a key. |
| BatchTranslator.TranslateBatch | tools/trans_rest.py:9-39 | Failure: every word maps to `[ERROR]`. Success: the keys are exactly the first `min(words, lines)` words, and each maps to the stripped line at its last occurrence. |
| BatchTranslator.EchoedBatchMapsWordsToThemselves | tools/trans_rest.py:24-35 | Round trip: when the service echoes the request, each vocabulary word of the batch maps to itself. |
| BatchTranslator.NonBlankStripped | tools/trans_rest.py:116 | `[line.strip() for line in lines if line.strip()]`: at most one word per line, none of them empty. |
| BatchTranslator.NonBlankStrippedWords | tools/trans_rest.py:116 | The kept lines are non-empty, newline-free and stripped. |
| BatchTranslator.VocabularyWords | tools/trans_rest.py:115-116 | The words read from the words file: at most one per line of the file, none of them empty. |
| BatchTranslator.VocabularyWordsAreWords | tools/trans_rest.py:115-116 | Every vocabulary word is non-empty and newline-free, with no white space at its ends. |
| BatchTranslator.Untranslated | tools/trans_rest.py:119 | `[w for w in all_words if w not in translations]`: no longer than the vocabulary, and no word it keeps is stored. |
| BatchTranslator.UntranslatedOfConcat | tools/trans_rest.py:119 | The filter keeps order: it distributes over concatenation. |
| BatchTranslator.UntranslatedCounts | tools/trans_rest.py:119 | A word missing from the store keeps all its occurrences. A stored word keeps none. |
| BatchTranslator.UntranslatedMembers | tools/trans_rest.py:119 | A word survives exactly when it is in the vocabulary and not in the store. |
| BatchTranslator.UntranslatedAllStored | tools/trans_rest.py:119-126 | When the store has every word, nothing is pending. |
| BatchTranslator.BatchPlan | tools/trans_rest.py:128-132 | The batches `translate_and_update` cuts, numbered from 1: none exactly when there are no words, and never more batches than words. |
| BatchTranslator.BatchPlanShape | tools/trans_rest.py:128-132 | The batches concatenate to the words and are numbered consecutively. Each holds 1 to `batch_size` words, and all but the last are full. |
| BatchTranslator.PartitionBatches | tools/trans_rest.py:128-132 | The loop, numbering batches `i // batch_size + 1`, builds the batch plan. |
| VocabularyStore.Merged | tools/trans_rest.py:70 | `update`: the keys are old plus partial, and partial values win. An old key the partial map lacks keeps its value, and the store never shrinks. |
| VocabularyStore.ScheduleCovers | tools/trans_rest.py:152-161 | A schedule names every batch, within range, once per entry. |
| VocabularyStore.ScheduleDistinct | tools/trans_rest.py:152-161 | A schedule never names a batch twice. |
| VocabularyStore.Committed | tools/trans_rest.py:61-74 | The dictionary file after the workers of a schedule prefix have committed in order, each by `update`: no key of the starting dictionary is lost, so it never shrinks. |
| VocabularyStore.CommittedWords | tools/trans_rest.py:76-77 | The counter's total increase after those commits: at least the size of each committed batch. |
| VocabularyStore.CommittedKeys | tools/trans_rest.py:61-77 | After the commits, a key is present exactly when it was in the base or some committed batch returned it. |
| VocabularyStore.CommittedKeepsBase | tools/trans_rest.py:61-77 | When batches hold no base word, every base entry keeps its value. |
| VocabularyStore.CommittedValue | tools/trans_rest.py:61-77 | With disjoint batches, a returned word keeps its batch's value in any order. |
| VocabularyStore.CommittedValueSoleBatch | tools/trans_rest.py:61-74 | A word no other batch holds keeps its own batch's value in any commit order, even when it repeats inside that batch. |
| VocabularyStore.CommittedWordsPermutation | tools/trans_rest.py:76-77 | The counter's total increase is the same in every order. |
| VocabularyStore.CommittedWordsOfSchedule | tools/trans_rest.py:76-77 | Under any schedule the counter grows by the number of batched words. |
| VocabularyStore.DistinctBatchesAreDisjoint | tools/trans_rest.py:128-132 | Batches cut from a duplicate-free list share no word. |
| VocabularyStore.CommittedKeysOfSchedule | tools/trans_rest.py:62-74 | Under any schedule the keys are the base's plus those of every batch's result. |
| VocabularyStore.CommittedKeysAreWords | tools/trans_rest.py:62-74 | Under any schedule every new key is a batched word. |
| VocabularyStore.CommittedValueOfSchedule | tools/trans_rest.py:62-74 | Under any schedule of duplicate-free batches, a word keeps its own batch's value. |
| VocabularyStore.Pending | tools/trans_rest.py:115-119 | The words of the words file the saved dictionary lacks, in file order: no more than the vocabulary, none of them saved. |
| VocabularyStore.Plan | tools/trans_rest.py:128-132 | The batches of the pending words: never more batches than pending words. |
| VocabularyStore.Run | tools/trans_rest.py:108-161 | The dictionary file after `translate_and_update`: every saved key stays, and with nothing pending (the early return at lines 124-126) the file is unchanged. |
| VocabularyStore.PlanWordsArePending | tools/trans_rest.py:116-132 | The batched words are exactly the pending words, none of them already saved. |
| VocabularyStore.RunKeepsSaved | tools/trans_rest.py:108-161 | A run never changes or removes a saved entry. |
| VocabularyStore.RunKeys | tools/trans_rest.py:108-161 | After a run the keys are the saved ones plus those some batch returned, all saved or vocabulary words. |
| VocabularyStore.RunValue | tools/trans_rest.py:108-161 | A returned word that no other batch holds ends with its own batch's translation, whatever the schedule. |
| VocabularyStore.DistinctVocabularySoleBatch | tools/trans_rest.py:116-132 | In a vocabulary without duplicates, no batch word is in another batch, so `RunValue` covers every returned word. |
| VocabularyStore.RunMarksFailedBatch | tools/trans_rest.py:36-39 | A word of a failed batch that no other batch holds ends as `[ERROR]`, even when it repeats inside that batch. |
| VocabularyStore.RunCompletesVocabulary | tools/trans_rest.py:116-126 | With complete answers, no vocabulary word is pending afterwards. |
| VocabularyStore.RunIsIdempotent | tools/trans_rest.py:119-126 | With complete answers, a second run with the same words file changes nothing. |
| VocabularyStore.RunSizeAtMostCounter | tools/trans_rest.py:76-77 | The dictionary never has more entries than the counter reaches: saved entries plus pending words. |
| VocabularyStore.SharedState.constructor | tools/trans_rest.py:107-111 | The state starts with the saved dictionary. |
| VocabularyStore.SharedState.Commit | tools/trans_rest.py:61-77 | The locked step: the store becomes the merge with the batch's dictionary, and the counter grows by the batch's size. |
| VocabularyStore.SharedState.Worker | tools/trans_rest.py:42-82 | Translate the batch, then commit. Returns the batch's dictionary. |
| VocabularyStore.SharedState.RunBatches | tools/trans_rest.py:152-161 | The store becomes the schedule-order merge of the batches' results, and the counter grows by their sizes. |
| VocabularyStore.SharedState.TranslateAndUpdate | tools/trans_rest.py:89-161 | With nothing pending, nothing changes. Otherwise the store becomes the run's dictionary and the counter ends at the saved-entry count plus the number of pending words. |

## Left out

- Console output, `tqdm`, `time.sleep` between attempts and between dispatches, `main`, `view_sample` and the command-line checks are left out: they only report progress or pace calls.
- `load_file`'s encoding fallback and `save_file` are left out. A document is its decoded text. The words file is its text after Python's newline translation, which turns '\r\n' and a lone '\r' into '\n'; the translation itself is not modelled.
- The JSON reads and writes are left out. The dictionary file is the in-memory map `SharedState.store`, which every worker reads and writes inside the lock.
- `multiprocessing` is left out: interleavings outside the lock and crash safety are not modelled. Each locked section is one atomic step, commits happen in a schedule order, and every worker completes.
- A worker whose locked section raises (a corrupt or unreadable file) returns `{}` without raising the counter. That path is not modelled.
- `ChunkPlanner.ChunkText` requires `max_chars >= 1`: with 0 the source loops forever on a non-empty text. A negative limit is excluded by the `nat` type.
- `BatchTranslator.PartitionBatches` requires `batch_size >= 1`: the source's `range` raises with step 0 and builds no batches with a negative step.
- `VocabularyStore.RunValue` states a word's value only when no other batch holds the word. A word repeated across two batches ends with the value of whichever batch commits last; for it only its presence is stated (`VocabularyStore.RunKeys`).
- `VocabularyStore.RunMarksFailedBatch` has the same condition: a word of a failed batch that also sits in an answered batch ends with the value of whichever batch commits last.
- `DocumentTranslator.OutputFilename` splits at the last '/' and applies the suffix rule of Python 3.13 and earlier: a suffix starts at a '.' that is neither the first nor the last character of the name. Later versions that count a trailing '.' as a suffix are not modelled. It does not model `pathlib`'s normalisation (repeated or trailing '/', '.' components) or Windows separators.
- The source language passed to the service is only forwarded. The language `translate_chunk` reports is that argument, not a detection.
- Both services are functions of the request (and, for documents, of the attempt number). Two chunks or two batches with the same text therefore always get the same answer, while the real service may fail one and answer the other.
- The dictionary file's key order is not modelled. `dict.update` keeps old keys in place and appends new ones, and `json.dump` writes them in that order; the model's map has no order.
- The service's answer is a string or a failure, and an exception of any kind counts as the failure. Which exception it was is not modelled.
- tools/allchars.py, tools/detect_nonprintable.py and dl_translate/demo.py are not part of this model. They are standalone scripts over files, floating point and an external model library.
