# Proofs about oryx-crt

This project models the stateful components of the oryx C++ runtime (`include/oryx/crt`) in Dafny and proves what they
are for. `dafny verify dfyconfig.toml` checks all of it. Code that works by changing objects and loops is modelled by
classes, arrays and methods with loops; each such method is proved equal to a step or a function that says what it
does, and the properties are lemmas about these, for every input and every run.

| file | component |
|---|---|
| `Multipart.dfy` | the incremental multipart/form-data parser over its compacting buffer (section 4.1 of RFC 7578, section 5.1.1 of RFC 2046) |
| `MultipartStreaming.dfy` | what the parser makes of a text does not depend on how the text is cut into calls |
| `MultipartLimits.dfy` | when two calls are one, exactly: for every receiver, with the header length limit and the closing delimiter |
| `MultipartRoundTrip.dfy` | the multipart printer, and the round trip through the parser for any cut |
| `MultipartExactness.dfy`, `MultipartItems.dfy` | the round trip behind any preamble, that it fails for every cut of the first delimiter line, and which items survive |
| `MultipartGrammar.dfy` | that whatever the parser accepts has the form of the grammar, nothing lost or added |
| `SpscQueue.dfy` | the lock-free single-producer/single-consumer ring, atomic step by atomic step |
| `ThreadPool.dfy` | the pool's protocol: workers, submitters, waiters and resets under one mutex; conservation of tasks |
| `ThreadPoolWakeUp.dfy` | which steps can lose a wake-up, exactly; without them no lost wake-up, no deadlock, all work gets done under any scheduling |
| `Blocks.dfy` | the division of an index range into blocks, and `detach_loop` |
| `Scheduler.dfy` | the periodic scheduler on top of the pool |
| `BufferedStream.dfy` | the buffered socket read and the two-tier line buffer |
| `ChunkedCoding.dfy` | the chunked transfer coding, both ways (section 7.1 of RFC 9112) |
| `Base64.dfy` | the rolling accumulator against the block definition of section 4 of RFC 4648 |
| `UrlCoding.dfy`, `Query.dfy`, `QueryExactness.dfy` | percent encoding and query strings, both ways; which parameters come back, exactly |
| `RangeHeader.dfy` | the Range header, both ways (section 14.2 of RFC 9110) |
| `RangePipeline.dfy` | from a request's ranges to the 206 body and its length (sections 14.1.2, 14.2 and 14.6 of RFC 9110) |
| `RangeReadBack.dfy` | that body read back by the multipart parser and a reader of Content-Range (section 14.4 of RFC 9110) |
| `PathMatcher.dfy` | route patterns with path parameters |
| `BitFlag.dfy` | printing and parsing of bit flags |
| `Text.dfy`, `Splitting.dfy` | substring search, `trim`, `split`, decimal numbers |

How concurrency is modelled: the queue, the pool and the scheduler are state machines whose actions are the atomic
accesses or the critical sections of the source; a run is any sequence of actions that can take place. Condition
variables are sleeping/notified states, with spurious wake-ups. A notification that the source sends after unlocking is
a separate action, so a state can owe it. Memory is sequentially consistent.

Where the code does something other than its documentation, its tests or the RFC suggest, the model follows the code:

- The multipart parser drops everything a call brought when the first delimiter line is not complete in it. So the round
  trip needs that line unsplit. `MultipartExactness.RoundTripExactly` proves that this condition on the cut is exact,
  `MultipartItems.GoodItemsExactly` the same of the condition on the items.
- The multipart header limit depends on the split: an acceptable header line is taken in any pieces if and only if it is
  shorter than 8192 bytes, as one piece also at 8192 (`LimitExactly`). Behind the closing delimiter a further call
  changes the state unless it is empty or starts with dashes (`AfterClosing`). A receiver that refuses content at a pause
  would have been given more by one call. `TwoCallsExactly` gives the condition for any two calls and any receiver.
- `sizeGuess` is the true distance exactly for queues of at most 2^31 slots (`SizeGuessExact`).
- A wake-up can be lost by a `purge`, by overlapping waits and by a `reset` that overlaps a wait. `Harmless` is the guard
  of these steps; a step keeps the pool responsive if and only if it is harmless (`ResponsiveExactly`), and after a
  harmful one some waiter may sleep forever (`HarmfulStepStrands`), except for a purge during a reset, from which the
  pool recovers (`HealthyExactly`). Three runs from a new pool, one for each cause, reach a harmful step and a waiter
  that nobody wakes (`PurgeStrandsWaiter`, `OverlappingWaitsStrandWaiter`, `SharedResetStrandsWaiter`).
- A suffix range longer than the content is refused, where section 14.1.2 of RFC 9110 would send all of it
  (`UsableExactly`, `LongSuffixIsRefused`).
- A chunk of 2^64-1 bytes is printed but not read (`SizeRoundTrip`). Chunk sizes are read as leniently as `strtoul` reads
  (`SizesAreHexadecimal`), and the end of a message may be missing (`EndMayBeMissing`).
- Names and file names of form items are printed as they are: an item with a double quote in them is read back as another
  one (`ItemReadsBack`).
- A content provider whose last write in a call is empty ends the chunked writer's loop with success and no last chunk
  (`EmptyWriteCutsShort`). The reader finds a message cut short exactly when the provider does not come to `done`, and
  leaves unread what the provider writes behind it (`DecodesExactly`).
- A pattern matches its instances and nothing else if and only if no static fragment has a NUL before its last character
  (`NulExactly`).
- Query keys are printed as they are, and equal pairs are merged. A list of parameters of any length comes back if and
  only if its keys are good and its pairs distinct (`QueryExactness.RoundTripExactly`).
- A value whose bits are enumerators' bits may have no text when an enumerator has several bits;
  `PrintsContainedExactly` gives the condition on the table, `ContainedWithoutText` a case.

## Model

| member | source | states |
|---|---|---|
| Multipart.MultipartFormDataParser.constructor | include/oryx/crt/httplib.hpp:5420-5422 | a new parser is in the initial state with nothing unread |
| Multipart.MultipartFormDataParser.StartWith | include/oryx/crt/httplib.hpp:5425-5435 | true exactly when the text occurs at that place of the unread bytes |
| Multipart.MultipartFormDataParser.BufFind | include/oryx/crt/httplib.hpp:5445-5474 | the first occurrence in the unread bytes, their number when there is none; never looks at dead space |
| Multipart.MultipartFormDataParser.BufAppend | include/oryx/crt/httplib.hpp:5476-5494 | in-place compaction and growth: afterwards the unread bytes are the old unread bytes followed by the new ones |
| Multipart.MultipartFormDataParser.BufErase | include/oryx/crt/httplib.hpp:5496-5496 | drops exactly the first unread bytes |
| Multipart.MultipartFormDataParser.InitialBoundary | include/oryx/crt/httplib.hpp:5240-5251 | one initial-boundary step, including that an incomplete delimiter line is dropped |
| Multipart.MultipartFormDataParser.HeaderLine | include/oryx/crt/httplib.hpp:5262-5334 | one header line: the empty line opens the part, a refused line or part fails and clears validity |
| Multipart.MultipartFormDataParser.HeaderLines | include/oryx/crt/httplib.hpp:5257-5340 | the whole header phase; only the first search of a phase entry is held to the length limit |
| Multipart.MultipartFormDataParser.Body | include/oryx/crt/httplib.hpp:5341-5365 | one body step: hands on all up to the delimiter, or all but as many bytes as the delimiter has |
| Multipart.MultipartFormDataParser.Boundary | include/oryx/crt/httplib.hpp:5366-5386 | one boundary step: next entry, or closing delimiter with the epilogue of the same buffer dropped |
| Multipart.MultipartFormDataParser.Parse | include/oryx/crt/httplib.hpp:5232-5391 | a call of the imperative parser leaves exactly the state, unread bytes, delivered parts and answer of the abstract machine's call |
| MultipartStreaming.LimitNotReached | include/oryx/crt/httplib.hpp:5258-5261 | with header lines below the limit, the limit never changes a call |
| MultipartStreaming.StepMoreExtends | include/oryx/crt/httplib.hpp:5252-5386 | a step that consumed input does the same, and leaves the rest, when more input follows |
| MultipartStreaming.BodyResumes | include/oryx/crt/httplib.hpp:5341-5365 | a body phase that paused and resumes with more does what an uninterrupted one does |
| MultipartStreaming.RunResumes | include/oryx/crt/httplib.hpp:5238-5388 | stopping at the end of the input and going on equals one run over the whole, and failures are the same |
| MultipartStreaming.ClosingDropsTheRest | include/oryx/crt/httplib.hpp:5377-5380 | once the closing delimiter is seen, whatever follows in the same buffer changes nothing |
| MultipartStreaming.TwoCallsAreOne | include/oryx/crt/httplib.hpp:5257-5386 | past the first boundary and before the closing one, parse(a) then parse(b) leaves the state, unread bytes, parts and answer of parse(a+b) |
| MultipartStreaming.FeedIsOneCall | include/oryx/crt/httplib.hpp:5257-5386 | the same for any number of pieces |
| MultipartStreaming.BodyIsUpToTheDelimiter | include/oryx/crt/httplib.hpp:5341-5365 | whatever the pieces and whatever comes after, a part's content is exactly the bytes before the first CRLF--boundary of the whole stream; without one, content and held-back bytes are the whole stream |
| MultipartStreaming.DrainKeepsPart | include/oryx/crt/httplib.hpp:5238-5388 | a part that is closed is never touched again |
| MultipartStreaming.AcceptedFeed | include/oryx/crt/httplib.hpp:5232-5391 | as long as its calls succeed a receiver is asked and given exactly what one that takes everything is, so what is proved for those holds of it in these calls |
| MultipartRoundTrip.SerializeMultipartFormdata | include/oryx/crt/httplib.hpp:5540-5580 | the printed body is the items' texts in order, followed by the closing delimiter when asked for |
| MultipartRoundTrip.SerializedIsEntries | include/oryx/crt/httplib.hpp:5540-5580 | the printed body, cut at the delimiters as the parser will meet it |
| MultipartRoundTrip.BoundaryCannotOverlap | include/oryx/crt/httplib.hpp:5527-5537 | with permitted boundary characters CRLF--boundary cannot overlap itself |
| MultipartRoundTrip.RunEntries | include/oryx/crt/httplib.hpp:5252-5386 | the parser makes one part of each printed entry, in order |
| MultipartRoundTrip.EntriesReadBack | include/oryx/crt/httplib.hpp:5232-5391 | any good entries, in any pieces that leave the first delimiter line whole, with or without a line break behind the closing delimiter, are read as their header lines and contents in order |
| MultipartRoundTrip.FeedUntilClosed | include/oryx/crt/httplib.hpp:5232-5391 | any pieces of a text whose last byte completes the closing delimiter, followed by CRLF, end valid with the parts of the whole |
| MultipartRoundTrip.RoundTrip | include/oryx/crt/httplib.hpp:5232-5580 | the printed items, in any pieces that leave the first delimiter line whole, are read back as exactly their header lines and contents in order, and the parser ends valid |
| MultipartRoundTrip.FirstDelimiter | include/oryx/crt/httplib.hpp:5240-5251 | for every receiver: a call that holds the delimiter line, with any text in front of it, does what a parser behind this line does with the rest |
| MultipartRoundTrip.LostWithoutDelimiter | include/oryx/crt/httplib.hpp:5241-5244 | calls without the delimiter line leave the parser as if they had not happened |
| MultipartExactness.StepUses | include/oryx/crt/httplib.hpp:5238-5388 | no step makes more of the bytes than there are: header lines, contents and framing of what was read, with what is unread, never grow |
| MultipartExactness.PreambleIsDropped | include/oryx/crt/httplib.hpp:5240-5251 | for every receiver: text in front of the first delimiter line changes nothing in state, unread bytes, parts and answer |
| MultipartExactness.StartsSomewhere | include/oryx/crt/httplib.hpp:5240-5251 | whatever the pieces, a fresh parser starts at some delimiter line of the text and has no more than the bytes from there |
| MultipartExactness.NextDelimiterIsLater | include/oryx/crt/httplib.hpp:5540-5580 | in a printed body the delimiter line does not come again before the first item's header |
| MultipartExactness.RoundTripExactly | include/oryx/crt/httplib.hpp:5232-5580 | for every non-empty list of good items, behind any preamble without the delimiter line and in every cut: the items are read back and the parser ends valid if and only if the first delimiter line arrives unsplit |
| MultipartItems.BytewiseIsGood | include/oryx/crt/httplib.hpp:5232-5391 | a parser that is fed byte by byte behind the first delimiter line lets through only acceptable header lines below the limit and contents without the delimiter, whatever the bytes |
| MultipartItems.GoodItemsExactly | include/oryx/crt/httplib.hpp:5232-5580 | for every non-empty list of items: behind any preamble and in every cut they are read back exactly when the first delimiter line is unsplit, if and only if every header line is acceptable, without line break and below the limit and no content holds the delimiter |
| MultipartItems.ItemReadsBack | include/oryx/crt/httplib.hpp:5540-5556 | the header lines printed for an item say its name, file name and type again, by an independent reader, if and only if the names hold no double quote |
| MultipartItems.ItemsReadBack | include/oryx/crt/httplib.hpp:5232-5580 | the whole way: each good item is read back as the item it was, if and only if its names hold no double quote |
| MultipartGrammar.StepReads | include/oryx/crt/httplib.hpp:5252-5386 | for every receiver: a turn that succeeds moves exactly the bytes it consumes from the unread text to the text that the state stands for |
| MultipartGrammar.FeedReads | include/oryx/crt/httplib.hpp:5232-5391 | so over any calls: what was fed is the text read, the unread bytes and, after the closing delimiter, the dashes with what came in their call |
| MultipartGrammar.FeedProper | include/oryx/crt/httplib.hpp:5257-5365 | whatever the cut, header lines delivered are acceptable, not empty and without line break, and every content ends at the first delimiter behind its start |
| MultipartGrammar.ParsedText | include/oryx/crt/httplib.hpp:5232-5391 | soundness from a fresh parser: the text is something, a delimiter line, the entries as they were delivered with their delimiters, the lines under way and the unread bytes |
| MultipartGrammar.DrainRests | include/oryx/crt/httplib.hpp:5238-5388 | after a call that succeeds nothing is held back that could be used: of a content no more bytes than the delimiter has, of a header no whole line |
| MultipartGrammar.FeedAnswers | include/oryx/crt/httplib.hpp:5238-5388 | calls fail only over a line too long, a line not acceptable or a refusal; calls that succeed end with parts the receiver accepted |
| MultipartLimits.LimitExactly | include/oryx/crt/httplib.hpp:5257-5340 | an acceptable header line is taken as that one line in every cut into calls if and only if it is below the limit, and in one call if and only if it is not above |
| MultipartLimits.OnlyFirstIsHeld | include/oryx/crt/httplib.hpp:5257-5340 | behind the first header line of an entry in a call, a line of any length is taken in the same call |
| MultipartLimits.LastTurnDecides | include/oryx/crt/httplib.hpp:5238-5391 | for every receiver: whatever text follows, a call comes to the same last turn of its loop, with the same header search held to the limit, and decides there |
| MultipartLimits.BodyExactly | include/oryx/crt/httplib.hpp:5341-5365 | in a body, for every receiver: two calls are one if and only if the receiver took what the pause handed on and does not refuse what is behind it, or refused a whole content, or nothing follows |
| MultipartLimits.ElsewhereExactly | include/oryx/crt/httplib.hpp:5257-5386 | outside a body: two calls are one if and only if the line at the cut is held to the limit in both or in neither, or fails either way |
| MultipartLimits.AfterClosing | include/oryx/crt/httplib.hpp:5366-5386 | a closed parser is left as it is by a call if and only if the call is empty or starts with dashes |
| MultipartLimits.TwoCallsExactly | include/oryx/crt/httplib.hpp:5232-5391 | for every receiver and from any state behind the first boundary, closed or not: two calls leave the state, unread bytes, parts and answer of one call if and only if the line at the cut is treated alike, the receiver is asked about the same content, and after the closing delimiter nothing or dashes follow |
| MultipartLimits.IndependentCallsAreOne | include/oryx/crt/httplib.hpp:5232-5391 | any number of calls, each of which may be followed by the rest by that condition, are one call |
| SpscQueue.ProducerConsumerQueue.constructor | include/oryx/crt/spsc_queue.hpp:43-52 | a new queue has dead slots only and both indices at zero |
| SpscQueue.ProducerConsumerQueue.StartWrite | include/oryx/crt/spsc_queue.hpp:73-75 | the producer's load of its own index, in place |
| SpscQueue.ProducerConsumerQueue.ProducerStep | include/oryx/crt/spsc_queue.hpp:76-87 | each further atomic step of `write`, in place: full check, construction, publication |
| SpscQueue.ProducerConsumerQueue.StartConsumer | include/oryx/crt/spsc_queue.hpp:90-120 | the consumer's load of its own index in `read`, `frontPtr`, `popFront` |
| SpscQueue.ProducerConsumerQueue.ConsumerStep | include/oryx/crt/spsc_queue.hpp:91-129 | each further atomic step of the consumer, in place: empty check, move, destruction, publication |
| SpscQueue.ProducerConsumerQueue.Destroy | include/oryx/crt/spsc_queue.hpp:54-70 | the destructor destroys each queued object once, in queue order, and leaves no live slot |
| SpscQueue.InvStep | include/oryx/crt/spsc_queue.hpp:72-129 | every atomic step of either thread keeps the invariant between indices, slots, local copies and histories |
| SpscQueue.FifoAlways | include/oryx/crt/spsc_queue.hpp:72-129 | in every interleaving: written = taken ++ queued in order, at most size-1 queued, and the constructed slots are exactly the cyclic interval plus the slot in flight |
| SpscQueue.SlotsAreSafe | include/oryx/crt/spsc_queue.hpp:79-102 | in every interleaving: construction hits a dead slot, the consumer touches the oldest value, `popFront` finds the queue non-empty |
| SpscQueue.AnswersAreExact | include/oryx/crt/spsc_queue.hpp:79-101 | in every interleaving `write` refuses exactly when size-1 values are queued, `read` and `frontPtr` find nothing exactly when none is, and `read` hands out the oldest value |
| SpscQueue.WriteCompletes | include/oryx/crt/spsc_queue.hpp:72-87 | in every run: `write` is refused exactly on a full queue and then changes nothing; else it is over exactly after two more steps of the producer, and its value, once, is what was written last |
| SpscQueue.ReadCompletes | include/oryx/crt/spsc_queue.hpp:90-105 | in every run: `read` finds nothing exactly on an empty queue and then changes nothing; else it is over exactly after three more steps of the consumer, and the oldest value, once, is what was taken last |
| SpscQueue.FrontStays | include/oryx/crt/spsc_queue.hpp:109-116 | in every run: `frontPtr` points to the oldest value and keeps doing so whatever the producer does |
| SpscQueue.PopCompletes | include/oryx/crt/spsc_queue.hpp:119-129 | in every run: `popFront` is over exactly after three more steps, and the value that `frontPtr` showed is what was taken last |
| SpscQueue.OneSided | include/oryx/crt/spsc_queue.hpp:72-129 | while only one thread runs the queue only grows, or only shrinks |
| SpscQueue.SizeGuessExact | include/oryx/crt/spsc_queue.hpp:152-158 | with 32-bit wrap-around the guess is the distance of the indices for all indices if and only if size <= 2^31 |
| SpscQueue.SizeGuessIsSizeT | include/oryx/crt/spsc_queue.hpp:152-158 | a negative difference is returned as a `size_t` |
| SpscQueue.SizeGuessBounds | include/oryx/crt/spsc_queue.hpp:147-158 | a lower bound for the consumer and an upper bound for the producer, whatever the other thread does between the two loads |
| SpscQueue.NotFullStays | include/oryx/crt/spsc_queue.hpp:135-145 | once the producer has seen `isFull` false its next `write` succeeds |
| ThreadPool.ThreadPoolObject.constructor | include/oryx/crt/thread_pool.hpp:2005-2029 | a new pool: all workers starting and counted as running |
| ThreadPool.ThreadPoolObject.DetachTask | include/oryx/crt/thread_pool.hpp:1507-1514 | the task is queued last, the notify is still owed, accounts are kept |
| ThreadPool.ThreadPoolObject.PopTask | include/oryx/crt/thread_pool.hpp:2067-2075 | removes exactly the oldest task |
| ThreadPool.ThreadPoolObject.WorkerSectionInPlace | include/oryx/crt/thread_pool.hpp:2106-2124 | a worker's critical section in place: counts itself out, wakes waiters when all is done, exits, takes the oldest task or sleeps |
| ThreadPool.ThreadPoolObject.StartWait | include/oryx/crt/thread_pool.hpp:1917-1932 | `wait` raises the flag and returns or sleeps by its predicate |
| ThreadPool.ThreadPoolObject.CheckDoneInPlace | include/oryx/crt/thread_pool.hpp:1925-1931 | one evaluation of the wait predicate: lower the flag and return, or sleep on |
| ThreadPool.ThreadPoolObject.CreateThreads | include/oryx/crt/thread_pool.hpp:2005-2029 | a reset replaces the workers and sets the running count to their number |
| ThreadPool.AccountsStep | include/oryx/crt/thread_pool.hpp:2086-2138 | every action, resets and purges included, keeps the accounts |
| ThreadPool.Conservation | include/oryx/crt/thread_pool.hpp:1917-2138 | in every run `tasks_running` is the number of workers starting or executing, every detached task is queued, executing, finished or purged exactly once, and after a `wait` returned every task detached before is finished or purged |
| ThreadPool.WaitIsSound | include/oryx/crt/thread_pool.hpp:1917-1932 | at whatever moment of a run a `wait` ends, all that was detached by then is finished or purged, and stays so |
| ThreadPool.WorkersAreAsked | include/oryx/crt/thread_pool.hpp:2005-2092 | in every run the number of workers and stop flags is the one given to the constructor or to the last complete `reset`, read off the actions alone, and every caller stands where its last request has brought it; a `reset` does not return before it is complete |
| ThreadPool.StoppedStartsNothing | include/oryx/crt/thread_pool.hpp:2105-2124 | a worker told to stop starts no further task, whatever is queued |
| ThreadPool.RecordsAreRight | include/oryx/crt/thread_pool.hpp:1507-2133 | in every run as many tasks are detached as were submitted, as many finished as came to their end, and without a purge none is purged |
| ThreadPool.SpuriousChangesNothing | include/oryx/crt/thread_pool.hpp:1925-2115 | a worker or a waiter woken without a reason goes back to the same sleep |
| ThreadPool.StartsInOrder | include/oryx/crt/thread_pool.hpp:2067-2123 | in every run the queue holds the tasks detached last, oldest first, and every executing task was detached before all queued ones |
| ThreadPoolWakeUp.ResponsiveExactly | include/oryx/crt/thread_pool.hpp:1507-2138 | in any state where queued work is seen by someone and no waiter is overlooked, a step keeps it so if and only if it is harmless: no purge of the last work of a sleeping waiter, no new work while a waiter is inside and the flag is down |
| ThreadPoolWakeUp.HarmfulStepStrands | include/oryx/crt/thread_pool.hpp:1610-1613 | the other half for all states: after a harmful step, other than a purge during a reset with no waiter awake, and at most one more internal step some waiter sleeps on whatever the threads inside the pool do |
| ThreadPoolWakeUp.StrandedForGood | include/oryx/crt/thread_pool.hpp:1924-1931 | a waiter asleep with the flag down, or with all over and no reset, is never woken by the threads inside |
| ThreadPoolWakeUp.OneResetAlways | include/oryx/crt/thread_pool.hpp:2085-2092 | in every run at most one caller is inside `reset`, when none is started during another |
| ThreadPoolWakeUp.PurgeDuringReset | include/oryx/crt/thread_pool.hpp:2085-2092 | the exception: after a purge during a reset with no waiter awake the new workers will tell the waiter |
| ThreadPoolWakeUp.ResponsiveStep | include/oryx/crt/thread_pool.hpp:1507-2138 | every harmless action keeps: queued work is seen by someone, a waiter sleeps only with the flag up and while there is something to wait for |
| ThreadPoolWakeUp.NoLostWakeUp | include/oryx/crt/thread_pool.hpp:1507-2133 | in every run of harmless steps, purges and overlapping waits included, a non-empty queue has an awake worker, an owed notify or a reset under way, and a sleeping waiter has its flag up and a running worker or a queued task |
| ThreadPoolWakeUp.StuckMeansDone | include/oryx/crt/thread_pool.hpp:2105-2133 | where no thread inside the pool can take a step, all tasks are over, all workers sleep and nobody waits |
| ThreadPoolWakeUp.InternalStepsCloser | include/oryx/crt/thread_pool.hpp:2105-2133 | every harmless step of the threads inside keeps the pool responsive and comes closer to that state in a well-founded order |
| ThreadPoolWakeUp.HealthySteps | include/oryx/crt/thread_pool.hpp:2085-2133 | the same of every healthy state, one that is responsive or recovers from a purge during a reset |
| ThreadPoolWakeUp.HarmlessNext | include/oryx/crt/thread_pool.hpp:2085-2133 | where some thread inside a healthy pool can take a step, some thread can take a harmless one |
| ThreadPoolWakeUp.HealthyExactly | include/oryx/crt/thread_pool.hpp:1507-2138 | in every state that a run of harmless steps reaches, the next step of any kind leaves the pool healthy if and only if it is harmless or a purge during a reset with no waiter awake |
| ThreadPoolWakeUp.WorkGetsDone | include/oryx/crt/thread_pool.hpp:2105-2133 | from every healthy state, whatever the scheduling of the threads inside, with its whole history, as long as it picks harmless steps: they come to an end, and there all work is over |
| ThreadPoolWakeUp.AnyOrderGetsDone | include/oryx/crt/thread_pool.hpp:2105-2133 | the same of every scheduling at all, from states in which no reset shares its wait with another waiter, as all steps inside are harmless there |
| ThreadPoolWakeUp.PurgeStrandsWaiter | include/oryx/crt/thread_pool.hpp:1610-1613 | harmful purges are reached: a run in which one leaves a waiter asleep although its predicate holds |
| ThreadPoolWakeUp.OverlappingWaitsStrandWaiter | include/oryx/crt/thread_pool.hpp:1924-1931 | harmful submissions are reached: a run without purge in which two overlapping waits do the same |
| ThreadPoolWakeUp.SharedResetStrandsWaiter | include/oryx/crt/thread_pool.hpp:1917-2138 | harmful starts of new workers are reached: a run without purge or task in which a reset overlaps a wait and leaves it asleep |
| Blocks.DividedExactly | include/oryx/crt/thread_pool.hpp:470-486 | block size and remainder of the constructor divide the range exactly |
| Blocks.BlocksPartition | include/oryx/crt/thread_pool.hpp:470-514 | the blocks are non-empty, adjacent, cover the range exactly, differ by at most one, and no intermediate value leaves the range |
| Blocks.DetachLoop | include/oryx/crt/thread_pool.hpp:1444-1461 | the detached tasks run each index of the range once, in order; they are as many as asked for, or one for each thread, or as there are indices, and as equal as can be |
| Scheduler.PeriodicScheduler.ScheduleTask | include/oryx/crt/periodic_scheduler.hpp:92-100 | appends a task due now under a fresh id, notification still owed |
| Scheduler.PeriodicScheduler.StopTask | include/oryx/crt/periodic_scheduler.hpp:136-145 | found exactly when the id is live; afterwards it is not |
| Scheduler.PeriodicScheduler.ScanInPlace | include/oryx/crt/periodic_scheduler.hpp:159-185 | one turn of the loop in place: submits due tasks that are not running, then sleeps until the earliest next execution |
| Scheduler.PeriodicScheduler.ScanTasksInPlace | include/oryx/crt/periodic_scheduler.hpp:166-179 | the loop over the tasks equals the recursive scan and computes the earliest next execution |
| Scheduler.PeriodicScheduler.ScanTaskInPlace | include/oryx/crt/periodic_scheduler.hpp:169-176 | one task, in place: submitted when due and not running, its next execution moved on when due, other tasks untouched |
| Scheduler.InvStep | include/oryx/crt/periodic_scheduler.hpp:92-186 | every action keeps: no overlapping runs, spaced submissions, and a sleep that ends in time |
| Scheduler.ScanSubmitsExactly | include/oryx/crt/periodic_scheduler.hpp:166-176 | in every reachable state a scan submits a live task exactly once when it is due and has no unfinished run, not at all otherwise, and moves the next execution on exactly when it is due |
| Scheduler.FirstRunAtOnce | include/oryx/crt/periodic_scheduler.hpp:92-97 | a scheduled task is due at once: whatever happens before the next scan, if it is not stopped, that scan submits it for the first time |
| Scheduler.ScanSleepsExactly | include/oryx/crt/periodic_scheduler.hpp:161-184 | after a scan the loop sleeps until the earliest next execution, no earlier and no later, and without a deadline exactly when there is no task |
| Scheduler.AtMostOneRun | include/oryx/crt/periodic_scheduler.hpp:168-176 | in every reachable state a task, live or stopped, has at most one submitted and unfinished run |
| Scheduler.StoppedForGood | include/oryx/crt/periodic_scheduler.hpp:143-144 | a task taken out of the list is never submitted again |
| Scheduler.StopGuarantee | include/oryx/crt/periodic_scheduler.hpp:136-154 | after a successful stop with kWaitForCompletion no run of the task is unfinished, then or ever; with kSkipWait at most the one its promise refers to |
| Scheduler.NeverOversleeps | include/oryx/crt/periodic_scheduler.hpp:161-184 | while the loop sleeps un-notified with no notification owed, its deadline is at most every live task's next execution |
| Scheduler.DueTaskIsSubmitted | include/oryx/crt/periodic_scheduler.hpp:156-186 | in every reachable state with a live task that is due and not running: a sleeping loop can be woken, by its deadline or a notification, is awake then, and its scan submits the task at that time |
| Scheduler.SleepEndsForAReason | include/oryx/crt/periodic_scheduler.hpp:159-184 | a sleep ends if and only if there are tasks where there were none, one was scheduled since the scan, or the deadline has come |
| Scheduler.SpuriousChangesNothing | include/oryx/crt/periodic_scheduler.hpp:159-184 | woken without a reason the loop goes back to the same sleep |
| Scheduler.TasksAreAsked | include/oryx/crt/periodic_scheduler.hpp:92-145 | in every run each scheduled task, with its policy and interval, read off the actions alone, is in the list until it is stopped and then among the stopped ones; ids are given in order |
| Scheduler.StopReturns | include/oryx/crt/periodic_scheduler.hpp:136-154 | `Stop` can return at once, or, with `kWaitForCompletion` and a run unfinished, exactly when this run is finished |
| Scheduler.NeverRunsEarly | include/oryx/crt/periodic_scheduler.hpp:169-176 | any k+1 consecutive submissions of a task span at least k intervals |
| BufferedStream.SocketStream.Read | include/oryx/crt/httplib.hpp:6361-6404 | the bytes delivered are the next bytes of the stream in order, and delivered ++ buffered = received stays true |
| BufferedStream.StreamLineReader.Append | include/oryx/crt/httplib.hpp:3228-3239 | the exposed text grows by the character, across the spill to the growable buffer |
| BufferedStream.StreamLineReader.GetLine | include/oryx/crt/httplib.hpp:3184-3226 | for every fixed buffer of at least two bytes: success exposes exactly the bytes consumed, through the first CRLF or the end of the stream; a reliable stream fails only at its end or on a line that is too long |
| BufferedStream.LineExactly | include/oryx/crt/httplib.hpp:3193-3225 | a line is read if and only if the stream starts with one of at most 32768 bytes whose only CRLF is at its end, or with a shorter last one; else as many bytes are gone |
| ChunkedCoding.FromIToHex | include/oryx/crt/httplib.hpp:2845-2853 | prints the base-16 digits |
| ChunkedCoding.HexValue | include/oryx/crt/httplib.hpp:2845-2853 | base-16 parsing inverts the digits, for every number |
| ChunkedCoding.SizeRoundTrip | include/oryx/crt/httplib.hpp:4656-4667 | a printed size line is read back as the size, for every size below 2^64-1; all larger ones are refused |
| ChunkedCoding.SizesAreHexadecimal | include/oryx/crt/httplib.hpp:4656-4664 | sizes are read in either case, with blanks, sign and prefix in front and anything behind; no digits and -1 are refused |
| ChunkedCoding.ChunkedSink.Write | include/oryx/crt/httplib.hpp:4964-4986 | a successful write puts out exactly one chunk, nothing for the empty write |
| ChunkedCoding.ChunkedSink.Done | include/oryx/crt/httplib.hpp:4990-5034 | success puts out the last chunk, the fields of the trailer and the final line break |
| ChunkedCoding.WriteContentChunked | include/oryx/crt/httplib.hpp:4956-5055 | for any sequence of provider calls, each asking for any writes and any `done`, with or without a trailer, in any order, cancelled or not, up to a shutdown: success means that their whole coding was put out, and the writer fails only when the provider or the stream does |
| ChunkedCoding.CodingIsEvents | include/oryx/crt/httplib.hpp:4956-5055 | however the provider spreads what it asks for over the calls, the coding is that of all of it |
| ChunkedCoding.CallsMade | include/oryx/crt/httplib.hpp:5040-5055 | the provider is called up to the first call whose last request is `done` or an empty write; the writer succeeds if and only if none of these calls is cancelled |
| ChunkedCoding.DecodesExactly | include/oryx/crt/httplib.hpp:4646-5055 | whatever the provider's calls: if they come to `done`, the reader gets what was written before as a whole message, with its trailer, and leaves the rest unread, if and only if sizes and trailer lines are acceptable; if they do not, it gets all that was written and finds the message cut short |
| ChunkedCoding.EmptyWriteCutsShort | include/oryx/crt/httplib.hpp:4964-4986 | a case of a message cut short although the writer succeeds: data, then an empty write |
| ChunkedCoding.ReadContentWithLength | include/oryx/crt/httplib.hpp:4585-4609 | delivers exactly the next bytes of the stream, whatever the receives, or those up to the receiver's refusal |
| ChunkedCoding.ReadContentChunked | include/oryx/crt/httplib.hpp:4646-4726 | on a reliable stream and without a refusal by the receiver the answer, the payload, the trailer lines and what is left unread are functions of the content alone; in any case payload and trailer are prefixes of those, the payload is all of it on success |
| ChunkedCoding.ChunksDecode | include/oryx/crt/httplib.hpp:4654-4694 | the chunks of any writes are read as their concatenation, whatever follows, exactly when no write has the size 2^64-1 |
| ChunkedCoding.DecodedTrailerIsGood | include/oryx/crt/httplib.hpp:4654-4726 | whatever is read, no trailer line has a line break but at its end or is longer than 8192 bytes |
| ChunkedCoding.AcceptedForm | include/oryx/crt/httplib.hpp:4646-4726 | the converse of the round trip: whatever is accepted has the form of section 7.1 of RFC 9112, chunks with their sizes and a CRLF behind each, a last size of zero, the trailer and an empty line or the end of the stream |
| ChunkedCoding.EndMayBeMissing | include/oryx/crt/httplib.hpp:4686-4700 | a message that ends behind the last size line is accepted |
| ChunkedCoding.RoundTripExactly | include/oryx/crt/httplib.hpp:4646-5055 | the coding of any writes and any trailer, followed by anything, is read as their concatenation and the trailer's lines and leaves exactly what follows, if and only if no write has the size 2^64-1 and no field's line is broken or longer than 8192 bytes |
| ChunkedCoding.SendAndReceive | include/oryx/crt/httplib.hpp:4646-5055 | the same through the writer and the reader themselves, for any provider's calls that come to `done` |
| Base64.Base64Encode | include/oryx/crt/httplib.hpp:2889-2916 | the rolling 32-bit accumulator, wrap-around included, puts out the block definition of the standard |
| Base64.DigitFromLowBits | include/oryx/crt/httplib.hpp:2902-2908 | only the low 12 bits of the accumulator reach the output |
| Base64.ByteStep | include/oryx/crt/httplib.hpp:2898-2905 | one byte's turn of the loop: which characters come out, and that the accumulator's low bits are the unfinished block |
| Base64.EncodedIsEmitted | include/oryx/crt/httplib.hpp:2907-2913 | the flush and the padding complete the block definition; the length is 4*ceil(n/3) |
| Base64.RoundTrip | include/oryx/crt/httplib.hpp:2889-2916 | a decoder recovers every input of any length |
| Splitting.Trim | include/oryx/crt/httplib.hpp:3087-3095 | the bounds of the segment without blanks at its ends, also when the left bound runs past a blank segment |
| Splitting.SplitAtMost | include/oryx/crt/httplib.hpp:3135-3156 | reports exactly the trimmed, non-empty segments between delimiters, in order, the last segment keeping the delimiters beyond the limit |
| Splitting.Split | include/oryx/crt/httplib.hpp:3131-3133 | without a limit all of them |
| Splitting.CutAtMostExactly | include/oryx/crt/httplib.hpp:3135-3156 | the segments, joined again, are the text; none but the last of as many as asked for holds the delimiter |
| Splitting.CutExactly | include/oryx/crt/httplib.hpp:3131-3156 | without a limit they are the text too, and none holds the delimiter |
| Splitting.KeptOne | include/oryx/crt/httplib.hpp:3143-3154 | of a segment what is left by trimming is reported, unless nothing is |
| Splitting.KeptJoined | include/oryx/crt/httplib.hpp:3135-3156 | so of any segments, in their order |
| Splitting.TrimmedExactly | include/oryx/crt/httplib.hpp:3087-3095 | trimming takes the blanks at both ends and nothing else |
| Splitting.DecimalRoundTrip | include/oryx/crt/httplib.hpp:5199-5200 | decimal printing is read back, for every number |
| UrlCoding.EncodeQueryParam | include/oryx/crt/httplib.hpp:2973-2990 | the encoding of each byte in order |
| UrlCoding.EncodedExactly | include/oryx/crt/httplib.hpp:2973-2990 | letters, digits and -_.!~*'() are encoded as themselves, any other byte as a percent sign and two upper-case digits of its value |
| UrlCoding.EncodedIsPlain | include/oryx/crt/httplib.hpp:2978-2987 | only pass-through characters and percent signs come out |
| UrlCoding.FromHexToI | include/oryx/crt/httplib.hpp:2825-2843 | succeeds exactly when that many digits are there, and gives their number |
| UrlCoding.Utf8ReadsBack | include/oryx/crt/httplib.hpp:2855-2885 | `to_utf8` writes every code point that is not a surrogate as UTF-8 that decodes to it, and nothing for a surrogate |
| UrlCoding.DecodeUrl | include/oryx/crt/httplib.hpp:3038-3074 | every escape that is complete is replaced, everything else is copied, from left to right |
| UrlCoding.DecodeInvertsEncode | include/oryx/crt/httplib.hpp:2973-3074 | decoding inverts encoding on every byte string, with and without plus conversion |
| UrlCoding.DecodeChangesNothing | include/oryx/crt/httplib.hpp:3038-3074 | decoding never lengthens; it leaves a text alone if and only if it holds no plus sign and no escape |
| UrlCoding.DecodeOnlySpaces | include/oryx/crt/httplib.hpp:3038-3074 | a text is decoded to itself, but for its plus signs, if and only if it holds no complete escape |
| UrlCoding.TokenDecodes | include/oryx/crt/httplib.hpp:3038-3074 | characters, plus signs, percent signs that begin no escape, bytes and code points in hexadecimal of either case: each is decoded to what it stands for, by an independent UTF-8 reader, and what follows alone |
| UrlCoding.EncodeThenDecode | include/oryx/crt/httplib.hpp:2973-3074 | the round trip through the two operations themselves |
| Query.EmplaceKeepsOrder | include/oryx/crt/httplib.hpp:519-519 | the multimap stays ordered by key |
| Query.LessExactly | include/oryx/crt/httplib.hpp:5118-5127 | the order of the keys is the lexicographic one |
| Query.ParamsToQueryStr | include/oryx/crt/httplib.hpp:5093-5105 | the printed pairs joined by ampersands |
| Query.Divide | include/oryx/crt/httplib.hpp:3111-3129 | cuts at the first delimiter only |
| Query.ParseQueryText | include/oryx/crt/httplib.hpp:5107-5128 | each distinct piece with a key is decoded and emplaced, in order; the multimap stays ordered |
| Query.PairIsRead | include/oryx/crt/httplib.hpp:5107-5128 | key and value without escapes are read as they are, with a space for each plus sign; without a key nothing is read |
| Query.KeyIsRead | include/oryx/crt/httplib.hpp:5107-5128 | without an equals sign all is the key and the value is empty |
| Query.QueryTextPieces | include/oryx/crt/httplib.hpp:5093-5115 | splitting undoes the joining |
| Query.RoundTrip | include/oryx/crt/httplib.hpp:5093-5128 | with good keys, parsing the printed multimap gives it back without later copies of a pair; so it comes back if and only if its pairs are distinct |
| Query.PlainKeysAreOk | include/oryx/crt/httplib.hpp:5100-5100 | non-empty keys of pass-through characters are good |
| QueryExactness.ParsedIsBounded | include/oryx/crt/httplib.hpp:5107-5128 | parsing gives no more parameters than pieces and no more key characters than are read; as many only when no piece is repeated or lacks a key |
| QueryExactness.ListReads | include/oryx/crt/httplib.hpp:5093-5128 | of a printed list no more key characters are read than its keys have, and as many only when no key holds a delimiter, a leading blank or an escape |
| QueryExactness.RoundTripExactly | include/oryx/crt/httplib.hpp:5093-5128 | a list of parameters of any length comes back if and only if its keys are non-empty, start with no blank, hold no ampersand, equals sign, plus sign or escape, and its pairs are distinct |
| QueryExactness.SinglePairExactly | include/oryx/crt/httplib.hpp:5093-5128 | in particular a single pair comes back if and only if its key is good |
| Query.PrintThenParse | include/oryx/crt/httplib.hpp:5093-5128 | the round trip through the two operations themselves |
| RangeHeader.MakeRangeHeader | include/oryx/crt/httplib.hpp:6102-6119 | the printed ranges joined by comma and space behind the unit |
| RangeHeader.ParseRangeHeader | include/oryx/crt/httplib.hpp:5172-5216 | accepts exactly when every piece is a range and there is one; leaves the ranges before the first bad piece |
| RangeHeader.AcceptedExactly | include/oryx/crt/httplib.hpp:5172-5218 | a header is accepted if and only if it is the unit and a list of byte ranges of the grammar of section 14.2 of RFC 9110, and then these are the ranges |
| RangeHeader.PrintedReadsBack | include/oryx/crt/httplib.hpp:5184-5207 | a printed range reads back as itself when it is a-b, a- or -n, and is refused otherwise |
| RangeHeader.RoundTrip | include/oryx/crt/httplib.hpp:5172-6119 | for every list of 64-bit ranges: the printed header is accepted if and only if the list is non-empty and every range has one of the three forms, and then gives the list back |
| RangeHeader.PrintingKeepsTheMeaning | include/oryx/crt/httplib.hpp:5172-6119 | whatever header was accepted, printing its ranges gives a header with the same meaning |
| RangeHeader.PrintThenParse | include/oryx/crt/httplib.hpp:5172-6119 | the round trip through the two operations themselves |
| RangePipeline.RangeError | include/oryx/crt/httplib.hpp:5582-5650 | refuses if and only if there are too many ranges or the rewritten ones are not all inside the content, strictly ascending, with at most two overlapping earlier ones; says exactly what was rewritten in place |
| RangePipeline.ScanOne | include/oryx/crt/httplib.hpp:5626-5645 | the three comparisons with running maxima decide exactly whether one range more is acceptable |
| RangePipeline.AcceptableExactly | include/oryx/crt/httplib.hpp:5606-5645 | said without counting: in the content, ascending, and no three ranges that reach into earlier ones |
| RangePipeline.UsableExactly | include/oryx/crt/httplib.hpp:5603-5629 | a rewritten range is usable if and only if it selects a byte and is not a suffix longer than the content |
| RangePipeline.LongSuffixIsRefused | include/oryx/crt/httplib.hpp:5608-5629 | such a suffix selects bytes by the RFC and is refused |
| RangePipeline.ResolveKeepsTheBytes | include/oryx/crt/httplib.hpp:5603-5624 | a usable rewritten range covers exactly the bytes the request asked for |
| RangePipeline.AcceptedAsksForLittle | include/oryx/crt/httplib.hpp:5590-5648 | an accepted request asks for at most three times the content in all |
| RangePipeline.GetRangeOffsetAndLength | include/oryx/crt/httplib.hpp:5652-5658 | offset and length describe the range and stay inside the content |
| RangePipeline.MakeMultipartRangesData | include/oryx/crt/httplib.hpp:5674-5726 | the body has one part for each range with its bytes, and the closing delimiter |
| RangeReadBack.ContentRangeReadsBack | include/oryx/crt/httplib.hpp:5658-5672 | every Content-Range field printed is read as its first and last position and the length |
| RangeReadBack.BodyReadsBack | include/oryx/crt/httplib.hpp:5674-5731 | the body, in any pieces that leave its first delimiter line whole, is read by the multipart parser to its closing delimiter as one part for each range, in order, with the range's positions, the type and exactly the bytes between the positions |
| RangeReadBack.AnswerReadsBack | include/oryx/crt/httplib.hpp:5582-5731 | of an accepted request each range gets exactly the bytes it selects |
| RangePipeline.GetMultipartRangesDataLength | include/oryx/crt/httplib.hpp:5728-5743 | without seeing the content, the length of that body for every content of the size |
| RangePipeline.Answer | include/oryx/crt/httplib.hpp:7400-7447 | from request to answer: accepted exactly when acceptable, the announced length is the body's length, the body holds the bytes asked for |
| PathMatcher.Build | include/oryx/crt/httplib.hpp:6465-6513 | succeeds if and only if the names are distinct, with the pattern's fragments and names; otherwise reports the first repeated name |
| PathMatcher.WrittenPattern | include/oryx/crt/httplib.hpp:6465-6513 | a pattern written with texts and `/:name` parameters has these parameters and is filled in by putting values in their places |
| PathMatcher.Match | include/oryx/crt/httplib.hpp:6515-6558 | the loop over positions equals the run over the rest of the path; the parameters are bound by name, also those captured before a failure |
| PathMatcher.RunExactly | include/oryx/crt/httplib.hpp:6515-6558 | by recursion over the pattern: the run succeeds with some values on the instances, and on nothing else when no fragment has a NUL before its end |
| PathMatcher.RoundTrip | include/oryx/crt/httplib.hpp:6465-6558 | for any pattern and any values without separators, matching the filled-in pattern captures exactly these values |
| PathMatcher.MatchedExactly | include/oryx/crt/httplib.hpp:6465-6558 | when no fragment has a NUL before its last character: a path is matched with some values if and only if they hold no separator and the path is the pattern filled with them, up to one slash after a final parameter |
| PathMatcher.BadPath | include/oryx/crt/httplib.hpp:6531-6533 | for every other pattern a path that is matched although it is no instance |
| PathMatcher.NulExactly | include/oryx/crt/httplib.hpp:6465-6558 | over all patterns: exactly the instances are matched if and only if no fragment has a NUL before its last character |
| PathMatcher.BoundGives | include/oryx/crt/httplib.hpp:6549-6551 | with distinct names every value is found under its name |
| PathMatcher.BoundFirst | include/oryx/crt/httplib.hpp:6549-6551 | a name that comes more than once has the value of its first parameter |
| PathMatcher.FillThenMatch | include/oryx/crt/httplib.hpp:6465-6558 | the round trip through the two operations themselves |
| BitFlag.ValueOrs | include/oryx/crt/enchantum.hpp:1739-1746 | the union of all enumerators' bits |
| BitFlag.ContainsBitflag | include/oryx/crt/enchantum.hpp:1748-1754 | true exactly for the values made of enumerators' bits, zero only with a zero flag |
| BitFlag.ToStringBitflag | include/oryx/crt/enchantum.hpp:1783-1803 | the names of the enumerators inside the value, when they make up all of it |
| BitFlag.TextPieces | include/oryx/crt/enchantum.hpp:1783-1803 | cut at the separators the text is the names of the enumerators inside the value, in their order |
| BitFlag.CastBitflag | include/oryx/crt/enchantum.hpp:1805-1827 | the union of the named enumerators, when every piece is a name |
| BitFlag.ParsedExactly | include/oryx/crt/enchantum.hpp:1805-1827 | a text, in any order and with any repetitions, is read if and only if all its pieces are names, and then the value has just their bits |
| BitFlag.Cast | include/oryx/crt/enchantum.hpp:1685-1695 | the value of the first entry with the name |
| BitFlag.FirstIsMeant | include/oryx/crt/enchantum.hpp:1685-1695 | a name stands for its first entry |
| BitFlag.PrintsContainedExactly | include/oryx/crt/enchantum.hpp:1748-1803 | exactly the contained values have a text if and only if every single bit of an enumerator is an enumerator |
| BitFlag.ContainedWithoutText | include/oryx/crt/enchantum.hpp:1748-1803 | a table of one flag of two bits contains half of it and has no text for it |
| BitFlag.SingleBitsCover | include/oryx/crt/enchantum.hpp:1739-1803 | tables of single bits and zeros meet that condition |
| BitFlag.RoundTrip | include/oryx/crt/enchantum.hpp:1783-1827 | the text of a value is read back as the value, whatever bits the enumerators have |
| BitFlag.ParsedIsContained | include/oryx/crt/enchantum.hpp:1748-1827 | only contained values are read |
| BitFlag.PrintThenParse | include/oryx/crt/enchantum.hpp:1783-1827 | for tables of single bits and zeros: the text is non-empty exactly when the value is contained, and is read back as it |

## Left out

- Multipart.MultipartFormDataParser.Parse: the receiver's refusals are a predicate on the parts delivered so far, not on where one content call ends and the next begins; header acceptance (`parse_header`, the disposition expressions) is a predicate on the line, and a part is its raw header lines.
- MultipartStreaming.TwoCallsAreOne: header lines below the limit, no closing delimiter, a receiver that takes everything; `MultipartLimits.TwoCallsExactly` has none of these restrictions.
- MultipartStreaming.FeedIsOneCall: the same restrictions, for any number of calls; `MultipartLimits.IndependentCallsAreOne` has none of them.
- MultipartStreaming.RunResumes: receivers that take everything; for the others `MultipartStreaming.AcceptedFeed` and `MultipartLimits.TwoCallsExactly`.
- MultipartLimits.TwoCallsExactly: before the first boundary; there a call without the whole delimiter line is forgotten, `MultipartRoundTrip.LostWithoutDelimiter`.
- MultipartRoundTrip.RoundTrip: `make_multipart_data_boundary` is random and not part of this model; the boundary is a parameter.
- SpscQueue.InvStep: weak memory orderings; steps are sequentially consistent. Exceptions thrown by the element's constructor or move are not modelled.
- ThreadPool.Conservation: for the pool without pausing and priorities, one `reset` at a time; the pool's destructor and failures to create threads are not modelled.
- ThreadPoolWakeUp.NoLostWakeUp: for `tp::none` and runs of harmless steps; what a harmful step does is proved beside it. Timed waits are not modelled.
- Blocks.BlocksPartition: indices are unbounded integers; the bounds it proves show that no sum leaves the range, and a range whose length overflows the index type is not modelled.
- Scheduler.StopGuarantee: the promise is an index into the list of submissions; handles, the stop token and the scheduler's destruction are not modelled.
- Scheduler.NeverRunsEarly: the clock is an integer that never goes back; overflow of time points is not modelled.
- BufferedStream.SocketStream.Read: receives are nondeterministic pieces of the incoming bytes; timeouts and errors are an error result that takes nothing.
- ChunkedCoding.ReadContentChunked: a trailer is its raw lines; their division into names and values (`parse_header`) is not modelled. The receiver answers by all it has been given so far.
- ChunkedCoding.WriteContentChunked: the compressor that changes nothing.
- Base64.Base64Encode: the left shift of a negative accumulator is taken as wrap-around.
- RangeHeader.ParseRangeHeader: into an empty vector, as the server calls it.
- RangePipeline.RangeError: the conversion of the content length to a signed number is the caller's; overflow of the subtraction for a suffix is not modelled and cannot occur for parsed ranges.
- RangePipeline.Answer: the length is computed as for a content provider and the body as for a body in memory, so that they can be compared; `write_multipart_ranges_data`, compression and header fields are not part of this model.
- PathMatcher.Build: the duplicate-name exception is a result value; the build without exceptions is not modelled.
- BitFlag.ToStringBitflag: the underlying type is taken as 64 bits; the table is given, with the zero flag first as the reflection orders it. `contains_bitflag` on text and custom comparison of names are left out.
- Sockets, polling, TLS, memory mapping, files, DNS, client and server dispatch: I/O plumbing.
- zlib, brotli, zstd and OpenSSL: foreign code.
- The small utilities (`argparse`, `retry`, `uuid`, `stopwatch`, `error_group`, `synchronized`, and others): they would add only easy members.
