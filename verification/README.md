# Go course exercises: verified models of their sequential logic

This project models, in Dafny, the parts of a set of Go course exercises that compute something
precise. It proves what each part promises.

- **Topic-frequency scan** (`tracing-programs/main.go`). Six variants search RSS documents for a
  topic:
  - `freq`, `freqConcurrent`, `freqConcurrentSem`, `freqNumCPU`, `freqNumCPUTasks`;
  - `freqActor`, a pipeline of stages.

  All six share the per-document work:
  - derive the file name `doc[:8] + ".xml"`;
  - open, read and decode the file;
  - count the items whose title contains the topic, or else whose description does.

  The model has these parts:
  - The disk is a map from file name to what the file holds.
  - The outcome of each document (failed at one of the three steps, or its items) is
    `Tracing.Fetch`.
  - Every variant is a method proved to return a sum over those outcomes.
  - Goroutine scheduling is a nondeterministic choice (`:|`) inside sequential loops:
    - the per-document goroutines finish in any order;
    - any live worker may receive the next document.
  - A variant that can block forever returns an `Option`, with `None` meaning "never returns".
- **Word frequency and top-N** (`practical-go-foundations/freq/freq.go`):
  - the loop that counts lowercased `\w+` matches line by line into a map;
  - `topN`, which collects the map's keys, sorts them in place by descending count and keeps the
    first `min(n, len)`.
- **Tokenizer** (`practical-go-foundations/nlp/nlp.go`). The matches of `\w+` are the maximal runs
  of ASCII `[0-9A-Za-z_]`, taken left to right and lowercased.
- **Stemmer** (`practical-go-foundations/nlp/stemmer/stem.go`). It removes the first suffix of
  "ing", "ed", "ly", "es", "s" that the word ends with and is longer than, on bytes.
- **Safe division** (`practical-go-foundations/panic/div.go`). This is Go's truncating 64-bit
  division, with a divide-by-zero panic recovered into the zero results.

Files:
- `topic_match.dfy` (module `TopicMatch`): `strings.Contains` and the item loop.
- `tracing.dfy` (module `Tracing`): the six scan variants.
- `word_freq.dfy` (module `WordFreq`): counting and `topN`.
- `nlp.dfy` (module `Nlp`): the tokenizer.
- `stemmer.dfy` (module `Stemmer`): the stemmer.
- `safe_div.dfy` (module `SafeDivision`): safe division.
- `sets.dfy` (module `Sets`): the subset-cardinality lemma shared by `Tracing` and `WordFreq`.

## Model

| member | source | states |
|---|---|---|
| `TopicMatch.Contains` | tracing-programs/main.go:101 | `strings.Contains(s, sub)` is false when `sub` is longer than `s`, and true when `sub` begins or ends `s` |
| `TopicMatch.ContainsIff` | tracing-programs/main.go:101 | `strings.Contains(s, sub)` holds exactly when `sub` occurs in `s` at some position, in both directions |
| `TopicMatch.ContainsEmpty` | tracing-programs/main.go:101 | the empty topic is contained in every text |
| `TopicMatch.Count` | tracing-programs/main.go:100-109 | the number of matching items is at most the number of items |
| `TopicMatch.CountIsMatchingIndices` | tracing-programs/main.go:100-109 | the count is the number of positions whose item matches: an item whose title and description both match is counted once |
| `TopicMatch.CountItems` | tracing-programs/main.go:100-109 | the item loop, with `continue` after a title hit, computes `Count`, which is at most the number of items |
| `Tracing.FileName` | tracing-programs/main.go:81 | the name is 12 characters long: the first 8 of the id followed by ".xml" |
| `Tracing.Fetch` | tracing-programs/main.go:81-98 | opening fails exactly when the file is missing, reading exactly when it is unreadable, decoding exactly when it is not an RSS document; otherwise the outcome carries exactly the document's items |
| `Tracing.Outcomes` | tracing-programs/main.go:114-116 | one outcome per document, in order, each the fetch of that document |
| `Tracing.ProcessDocument` | tracing-programs/main.go:138-167 | a goroutine's count is its document's value; an early return on a failing step counts 0 and signals the failure |
| `Tracing.AllFailTotal` | tracing-programs/main.go:82-98 | when every document fails, the total is 0 |
| `Tracing.PrefixBounds` | tracing-programs/main.go:114-120 | a prefix of the documents finds no more, and fails no more often, than all of them |
| `Tracing.SumOverRemove` | tracing-programs/main.go:133-136 | the order-free sum is the same whichever finished goroutine is added first |
| `Tracing.SumOverRange` | tracing-programs/main.go:130-172 | summed in any order, the values of all documents give the in-order total |
| `Tracing.FreqConcurrent` | tracing-programs/main.go:123-173 | with the goroutines finishing in any order, the result is the total over all documents, failed ones adding 0 |
| `Tracing.SemaphoreScan` | tracing-programs/main.go:182-226 | a result is always the full total; with fewer failures than slots, or with slots released on every path, it returns; with more failures than slots and slots leaked on error, it never returns |
| `Tracing.FreqConcurrentSem` | tracing-programs/main.go:175-231 | as written: returns the total when fewer documents fail than there are CPUs, and never returns when more fail |
| `Tracing.FreqConcurrentSemReleased` | tracing-programs/main.go:175-231 | with the slot released on every path, it always returns the total |
| `Tracing.Taken` | tracing-programs/main.go:250-256 | the number of documents workers take from the channel is at most the number of documents |
| `Tracing.TakenStops` | tracing-programs/main.go:242-256 | every document taken found a live worker, and when documents are left every worker has ended |
| `Tracing.TakenAll` | tracing-programs/main.go:242-256 | with fewer failures than workers, every document is taken |
| `Tracing.PoolStep` | tracing-programs/main.go:250-287 | one document sent and received keeps the pool's accounting: the documents taken so far are counted in `found` or in a running worker, and the documents still to be taken are `Taken` of the rest with the live workers |
| `Tracing.WorkerPool` | tracing-programs/main.go:242-292 | whichever live worker gets each document, the documents taken are exactly `Taken`, and `found` is the total over them once the deferred adds have run; the sender blocks exactly when more documents remain than the channel holds |
| `Tracing.DeferredAdds` | tracing-programs/main.go:245-248 | closing the channel makes each worker still running add its own count exactly once |
| `Tracing.WorkerReceives` | tracing-programs/main.go:250-281 | worker `w` adds the document's value to its own `lfound` and no other worker changes; `w` ends, and its deferred add hands over its `lfound`, exactly when the document fails and returns end workers; the value reaches `found` now or in a later deferred add |
| `Tracing.Freq` | tracing-programs/main.go:63-121 | with one worker per document every document is taken, and the result is the total over all documents |
| `Tracing.FreqTakesAll` | tracing-programs/main.go:66-86 | with as many workers as documents, failures never starve the channel |
| `Tracing.FreqNumCPU` | tracing-programs/main.go:233-293 | never returns exactly when more documents remain after the last worker ends than the channel holds; a result is the total over the documents taken; with fewer failures than CPUs it is the full total |
| `Tracing.FreqNumCPUTasks` | tracing-programs/main.go:295-368 | an early return only ends the per-document function, so every document is taken and the result is the full total |
| `Tracing.FirstFailure` | tracing-programs/main.go:373-406 | the position where the pipeline stops: no failure before it, and a failure at it unless it is the end |
| `Tracing.OpenStage` | tracing-programs/main.go:372-383 | the opened files are those of the documents before the first file that cannot be opened |
| `Tracing.ReadStage` | tracing-programs/main.go:386-397 | the files read are the prefix before the first unreadable file |
| `Tracing.DecodeStage` | tracing-programs/main.go:400-410 | the documents decoded are the prefix before the first one that does not decode |
| `Tracing.CountStage` | tracing-programs/main.go:415-429 | the last stage finds the total over the decoded documents |
| `Tracing.FreqActor` | tracing-programs/main.go:370-433 | the pipeline finds the total over the documents before the first failure at any stage |
| `Tracing.FirstFailureUnique` | tracing-programs/main.go:373-406 | the first failure is the only position with no failure before it and a failure at it |
| `Tracing.ActorAgreesWithoutFailures` | tracing-programs/main.go:370-433 | the pipeline never finds more than the worker variants, and stops at the end exactly when no document fails |
| `Tracing.NoDocuments` | tracing-programs/main.go:114-120 | with no documents, every one of the six variants returns 0 |
| `Tracing.Decimal` | tracing-programs/main.go:49 | a decimal numeral has at least one digit, only digits, and no leading zero unless it is the single digit 0 |
| `Tracing.DecimalRoundTrip` | tracing-programs/main.go:49 | reading back the decimal digits of n gives n |
| `Tracing.ZeroPad4` | tracing-programs/main.go:49 | `%.4d` gives digits denoting `n`: its decimal numeral, padded with leading zeros to exactly four digits when shorter and unpadded otherwise |
| `Tracing.GeneratedIds` | tracing-programs/main.go:47-50 | `main` makes `count` ids, the i-th being "newsfeed-" + `%.4d` of i + ".xml", each long enough to slice |
| `Tracing.GeneratedFileName` | tracing-programs/main.go:47-50 | every generated id maps to the file "newsfeed.xml" |
| `Tracing.GeneratedOutcomes` | tracing-programs/main.go:47-53 | so the scan of the generated ids fetches the same file for every document |
| `Tracing.RepeatedTotal` | tracing-programs/main.go:47-53 | the scan of one outcome repeated `count` times finds `count` times its value |
| `Tracing.EmptyDiskFails` | tracing-programs/main.go:82-86 | with no files, every document fails to open |
| `Tracing.LeakedSlotBlocks` | tracing-programs/main.go:186-225 | two documents, one CPU and no files: freqConcurrentSem never returns |
| `Tracing.DeadWorkersBlock` | tracing-programs/main.go:250-256 | three documents, one CPU and no files: freqNumCPU never returns |
| `Tracing.TasksScanReturns` | tracing-programs/main.go:312-356 | on the same inputs freqNumCPUTasks returns 0 |
| `WordFreq.AllTokens` | practical-go-foundations/freq/freq.go:28-33 | the tokens of all lines, each non-empty and lower-case |
| `WordFreq.AllTokensOfText` | practical-go-foundations/freq/freq.go:28-33 | counting line by line sees the tokens of the whole newline-joined text |
| `WordFreq.CountLine` | practical-go-foundations/freq/freq.go:29-32 | one line's loop adds each of its tokens' occurrences to the tally |
| `WordFreq.CountWords` | practical-go-foundations/freq/freq.go:25-33 | the keys are exactly the tokens of the lines; each count is the number of occurrences of the key, at least 1; every key is a non-empty lower-case token |
| `WordFreq.CollectKeys` | practical-go-foundations/freq/freq.go:44 | the collected slice holds every key exactly once, in some order |
| `WordFreq.SortByCountDesc` | practical-go-foundations/freq/freq.go:46-49 | afterwards counts never increase along the slice, and the slice is a permutation of what it was |
| `WordFreq.Insert` | practical-go-foundations/freq/freq.go:46-49 | one step of the sort: the sorted prefix grows by one, as a permutation, and every entry after position `i` is left as it was |
| `WordFreq.TopN` | practical-go-foundations/freq/freq.go:43-53 | the result has `min(n, len(freq))` distinct keys with non-increasing counts, and no key left out has a higher count than one returned |
| `WordFreq.PrefixIsTopN` | practical-go-foundations/freq/freq.go:51-52 | the first `min(n, len)` entries of the sorted keys meet that promise |
| `WordFreq.DistinctPermutation` | practical-go-foundations/freq/freq.go:44-49 | sorting distinct keys keeps them distinct |
| `WordFreq.TopNCountsAgree` | practical-go-foundations/freq/freq.go:44-52 | any two results of topN have the same count at every position: only the order among equal counts is open |
| `WordFreq.TopNTiesSwap` | practical-go-foundations/freq/freq.go:44-49 | conversely, exchanging neighbours of equal count gives another valid result |
| `Nlp.RunLength` | practical-go-foundations/nlp/nlp.go:10 | the greedy `\w+` run from the start: word characters up to it, and a non-word character or the end at it |
| `Nlp.Words` | practical-go-foundations/nlp/nlp.go:16 | every match is a non-empty run of word characters |
| `Nlp.WordsOfGap` | practical-go-foundations/nlp/nlp.go:16 | text without word characters has no matches |
| `Nlp.WordsOfWord` | practical-go-foundations/nlp/nlp.go:16 | a whole word is one match |
| `Nlp.WordsSplit` | practical-go-foundations/nlp/nlp.go:10-16 | a non-word character separates: the matches of `a + [c] + b` are those of `a` followed by those of `b` |
| `Nlp.WordsCoverWordChars` | practical-go-foundations/nlp/nlp.go:10-16 | the matches put together are exactly the word characters of the text in order, so punctuation and spaces never reach a token |
| `Nlp.WordsOfJoin` | practical-go-foundations/nlp/nlp.go:16 | words joined by spaces are matched back one by one |
| `Nlp.Lower` | practical-go-foundations/nlp/nlp.go:20 | `strings.ToLower` keeps the length, maps each upper-case ASCII letter to its lower-case letter and keeps every other character |
| `Nlp.LowerWord` | practical-go-foundations/nlp/nlp.go:20 | lowercasing a match gives a token made of `[0-9a-z_]` |
| `Nlp.LowerToken` | practical-go-foundations/nlp/nlp.go:20 | lowercasing a token leaves it unchanged |
| `Nlp.Tokens` | practical-go-foundations/nlp/nlp.go:14-24 | every token is non-empty and made of lower-case word characters |
| `Nlp.Tokenize` | practical-go-foundations/nlp/nlp.go:14-24 | the loop appends one lowercased token per match, in order |
| `Nlp.TokensSplit` | practical-go-foundations/nlp/nlp.go:16-22 | a non-word character separates tokens as it separates matches |
| `Nlp.TokensOfGap` | practical-go-foundations/nlp/nlp.go:16-17 | text with no word character, the empty text included, has no tokens |
| `Nlp.TokensRoundTrip` | practical-go-foundations/nlp/nlp.go:16-22 | tokenizing the space-joined tokens gives the same tokens back |
| `Nlp.WordsOfSentence` | practical-go-foundations/nlp/nlp.go:16 | words separated by non-empty gaps of non-word characters are matched back exactly |
| `Nlp.TokensWhosOnFirst` | practical-go-foundations/nlp/nlp_test.go:13 | "Who's on first?" gives ["who", "s", "on", "first"] |
| `Nlp.TokensHelloWorld` | practical-go-foundations/nlp/nlp_test.go:14 | "Hello, World!" gives ["hello", "world"] |
| `Nlp.TokensGoIsAwesome` | practical-go-foundations/nlp/nlp_test.go:15 | "Go is awesome." gives ["go", "is", "awesome"] |
| `Stemmer.StripFirst` | practical-go-foundations/nlp/stemmer/stem.go:13-19 | the word is unchanged exactly when no suffix strips; otherwise the first suffix that strips is removed |
| `Stemmer.Stem` | practical-go-foundations/nlp/stemmer/stem.go:4-20 | words under 3 bytes are unchanged; the result is a prefix at most 3 bytes shorter; it is non-empty for inputs of 3 bytes or more; it is unchanged exactly when no suffix strips; otherwise the first stripping suffix is removed |
| `Stemmer.SuffixBytes` | practical-go-foundations/nlp/stemmer/stem.go:12 | the suffix list in bytes, in its fixed order |
| `Stemmer.StemRemovesFirstStrip` | practical-go-foundations/nlp/stemmer/stem.go:13-16 | when suffix k is the first that strips, exactly it is removed |
| `Stemmer.StemLikes` | practical-go-foundations/nlp/stemmer/stem.go:12-16 | "likes" becomes "lik", because "es" is tried before "s" |
| `Stemmer.StemKeepsBareSuffix` | practical-go-foundations/nlp/stemmer/stem.go:14 | "ing" stays "ing": a word is never stripped to nothing |
| `Stemmer.StemRunning` | practical-go-foundations/nlp/stemmer/stem.go:13-15 | "running" becomes "runn" |
| `SafeDivision.TruncDiv` | practical-go-foundations/panic/div.go:16 | the quotient is truncated toward zero, and no larger in magnitude than the dividend |
| `SafeDivision.TruncatedQuotientUnique` | practical-go-foundations/panic/div.go:16 | the truncation rule determines the quotient |
| `SafeDivision.Wrap` | practical-go-foundations/panic/div.go:9 | values within 64 bits are kept; every value is mapped to the 64-bit value congruent to it modulo 2^64 (two's-complement wrap-around) |
| `SafeDivision.SafeDiv` | practical-go-foundations/panic/div.go:9-17 | the error is always nil; dividing by 0 recovers into the zero quotient; otherwise Go's truncated quotient, with the minimum int divided by -1 wrapping to itself |
| `SafeDivision.TruncationDiffersFromEuclidean` | practical-go-foundations/panic/div.go:16 | -7 / 2 is -3 in Go, where Dafny's `/` gives -4 |

## Left out

- Goroutines, `sync.WaitGroup`, `atomic.AddInt32` and the channels are not modelled as concurrent
  code. Each variant is a sequential loop whose nondeterministic choices cover every schedule's
  result. Interleavings between a worker's steps do not change any sum.
- Tracing.WorkerPool: the sender and the workers are run in lock-step (take one, then the next).
  The channel buffer is used only to decide whether the sender is left blocked. Under every
  schedule the Go code takes the same documents, because a worker ends only at its own failure.
- File I/O is abstracted as the disk map: `os.OpenFile`, `io.ReadAll`, `xml.Unmarshal` and
  `f.Close`. The decoder is not modelled. A file either holds an RSS document's items or is
  `Malformed`.
- `runtime/trace` tasks and regions, `trace.Start`/`Stop`, `log.Printf`, `fmt.Println` in
  `safeDiv`'s deferred function, and the `main` functions are instrumentation or printing.
- `found` is an `int32` in the worker variants. The model counts with unbounded naturals, so a
  scan with more than 2^31 - 1 matches is not modelled.
- `runtime.NumCPU()` is a parameter `cpus`, required to be at least 1.
- Tracing.FileName: the model slices characters where Go slices bytes. This matters only for
  ids whose first 8 bytes are not ASCII. The generated ids are ASCII.
- TopicMatch.Contains: the model compares characters where Go compares bytes. The two agree
  except on invalid UTF-8.
- Tracing.Outcomes: requires every id to be at least 8 characters long. Go panics at `doc[:8]`
  only when it reaches a short id, and the panic is not modelled.
- Goroutines left blocked after a variant returns are not modelled. These are the pipeline
  stages above one that `break`s once their 100-slot channel is full. They do not change the
  result.
- Deferred `f.Close()` calls and the files left open on error paths are not modelled.
- In freq.go, opening `sherlock.txt` and reading it with `bufio.Scanner` are left out: the lines
  are a parameter. `mapDemo` only prints.
- `strings.ToLower` is modelled on ASCII only. It is applied only to `\w` matches, which are
  ASCII.
- Go's `int` is taken to be 64 bits.
- WordFreq.TopN: requires `n >= 0`. A negative `n` makes `words[:n]` panic in Go; the panic is not modelled.
- practical-go-foundations/nlp/cmd/httpd, understanding-go-time-format/main.go and
  practical-go-foundations/go_chan/go_chan.go are not part of this model. They are an HTTP
  server, a `time.Format` loop and a printing demo.

## Findings

| source | as written | input that shows it | evidently intended | confidence | as-written member | corrected member |
|---|---|---|---|---|---|---|
| tracing-programs/main.go:186-225 | the early `return`s on an open, read or decode error leave the goroutine before `<-ch`, so its semaphore slot is never released | one CPU, no files on disk, two documents: the first goroutine fails and keeps the only slot, the second blocks on `ch <- true` forever and `wg.Wait()` never returns | release the slot on every path, e.g. with a deferred receive | not executed | `Tracing.LeakedSlotBlocks` | `Tracing.FreqConcurrentSemReleased` |
| tracing-programs/main.go:250-256 | a `return` inside `for doc := range ch` ends the worker; once all `NumCPU` workers have failed, the sender at line 287 blocks on the full channel | one CPU, no files on disk, three documents: the only worker ends at the first document, the second fills the one-slot channel, and sending the third blocks forever | skip the failed document and keep receiving, as `freqNumCPUTasks` does by returning only from a per-document function | not executed | `Tracing.DeadWorkersBlock` | `Tracing.FreqNumCPUTasks` |
