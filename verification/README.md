# A verified model of the reactor library and its servers

This project models the most intricate parts of a C++ network library (an event loop, timers, connections, buffers, logging, thread pools) and of the servers built on it (a Sudoku solver, a memcached server, a Protobuf codec, a distributed word count), and proves what those parts promise. Objects that change in place are classes with the source's fields; concurrency is a step system in which every interleaving of the atomic steps is a sequence of events; sockets, clocks, allocation and callbacks are parameters of the steps.

The main results:

- **Dancing links** (`Torus`, `DancingLinks`, `ExactCover`, `Search`, `SolverSteps`, `SudokuSolver`). `uncover` undoes `cover` exactly on every well-formed torus of any size; `solve` terminates, finds an exact cover if there is one, and otherwise proves there is none and leaves every link, size and stack entry as it was.
- **The Sudoku reduction** (`Building`, `Sudoku`, `Encoding`, `SolvePuzzle`). The matrix that the constructor builds has an exact cover if and only if the puzzle has a legal completion, so `solveSudoku` answers with a completion exactly when there is one. Contradictory givens need a counting argument: nine values without a repeat are all nine.
- **Timers** (`TimerQueue`). Two indexes over one set of timers, timers added and cancelled from inside callbacks and reuse of addresses, over every sequence of events.
- **Connections and the event loop** (`TcpConnection`, `EventLoop`). Conservation of the bytes of every message, down to what each call of `write` took, and no lost wakeup.
- **Logging and monitors** (`AsyncLogging`, `Conditions`, `BoundedBlockingQueue`, `ThreadPool`). Conservation of log lines across the recycled buffers; no lost wakeup with barging and spurious wakeups.
- **Memcached** (`ItemStore`, `MemcacheServer`, `Requests`, `RequestLines`, `Session`, `Chunking`, `LeftOvers`, `SetThenGet`, `Protocol`, `ClientLaws`). 4096 shards refine one map; compare-and-swap numbers are never reused; how the bytes of a session are cut does not show if and only if its lines are short; and for every sequence of commands, however its bytes are cut, the server sends exactly the replies of the text protocol on a plain table of flags and data. The laws of each command are also stated by observation alone, as what a get shows before and after.
- **Calendar, statistics, buffer** (`Calendar`, `SudokuStat`, `Bytes`, `Buffer`, with `Division`). The closed-form date arithmetic agrees with the Gregorian calendar; a ring of 60 seconds agrees with the whole history; an indexed byte array agrees with a byte sequence.
- **Wire protocols** (`Codec`, `WordCount`, with `Texts` for numbers and lines). Frames arrive exactly and in order in any chunking and a damaged byte is found; words are conserved over all hashers, receivers and chunks.

Properties that one would expect and that do not hold of the code are kept as they are, with the exact condition:

- The loop blocks in `poll` on functors that no wakeup announces if and only if it is the first poll, something is pending, and no other thread has pushed or quit (`EventLoop.UnannouncedExactly`). `EventLoop.EarlyFunctorWaits` reaches such a poll with a functor queued by the loop's own thread before `loop()`, and `EventLoop.EarlyFunctorAnnounced` one where another thread pushed before.
- A log line of 4,000,000 bytes or more is lost, every shorter one is kept (`AsyncLogging.AsyncLogging.Append`).
- Two ways to cut the bytes of a memcached session always have the same outcome (replies, store, requests to close, state, unread bytes) if and only if every line that ends is shorter than 1024 bytes and at most 1025 bytes come after the last one (`Chunking.ChunkingIsInvisible`). If not, cutting within the long line asks once more for the end of the connection than the uncut stream does (`Chunking.LongLineShows`), and the client loses the replies after it (`Chunking.CutLosesReply`).
- A get answers with the values of its own keys alone if and only if nothing is left in `outputBuf_` (`Session.GetAnswersOwnKeys`). In terms of the requests: from an empty buffer, exactly two kinds of get leave something there, one that is refused for an overlong key after a stored one, and any other one after the session has asked for the end of the connection (`LeftOvers.LeavesSomething`, `LeftOvers.CleanStreams`). `LeftOvers.LeftOverIsSent` and `LeftOvers.LeftOverExample` give requests to a new session where the value of one key is sent as the answer to a get of another, `LeftOvers.QuitThenGet` the second kind.
- An update takes exactly its line, its size in bytes and a CRLF if and only if the size is at most 2147483645 (`Session.UpdateTakesItsValue`). For the two larger sizes `bytes + 2` overflows an `int`; taken as wrapping around, the session discards nearly 2^64 bytes and answers no request after it (`Session.RequestsDiscarded`, `SetThenGet.LargestUpdate`).
- A value that was set is shown by a get if and only if its key is not `noreply`, because `get noreply` reads as an option (`SetThenGet.StoredIsShown`, `SetThenGet.NoreplyIsNotShown`).
- `delete k` reads as a delete of `k` if and only if the key is not `noreply` or the option follows it; `delete noreply` alone reads as a delete without a key, which the code does not check (`ClientLaws.DeleteReads`).
- `getYearMonthDay` stays within 32 bits if and only if the day number is at most 536838867 (`Calendar.OverflowLimit`), `getJulianDayNumber` if and only if the date is at most 15 December 5874689 (`Calendar.DateOverflowLimit`), and all of `toUtcTime` up to the last second of day number 536838867 (`Calendar.UtcExactRange`). `weekDay` is in range from day -1 on and before that only on every seventh day (`Calendar.WeekDays`).
- A cancel takes effect if and only if the timer is queued or in the running batch (`TimerQueue.TimerQueue.CancelInLoop`): a timer cancelled before it is inserted is called (`TimerQueue.CancelledTooEarly`). A timer of the running batch is still called in that batch, whoever cancels it, exactly if it stands later in the batch, and never in a later batch (`TimerQueue.TimerQueue.HandleRead`, with `TimerQueue.CancelledInBatch` for two timers).
- `SudokuStat::reset` leaves the count of dropped requests (`SudokuStat.SudokuStat.Reset`).

Reading guide: for a class, `Valid()` is the invariant, the ghost fields are the history, `Handle` is one event and `Run` every sequence of events.

## Model

| member | source | states |
|---|---|---|
| Torus.RelinkUndoesUnlinkV | sudoku/sudoku.cc:224-237 | putting a node back into its column undoes taking it out: every link and every size, in the whole torus |
| Torus.RelinkUndoesUnlinkH | sudoku/sudoku.cc:220-241 | the same for a header in the header ring |
| Torus.UnlinkRingV | sudoku/sudoku.cc:224-226 | a column ring from which a node is unlinked is the ring of the others, in order |
| Torus.UnlinkRingH | sudoku/sudoku.cc:220-221 | unlinking a header leaves the ring of the other headers, in order |
| DancingLinks.UncoverUndoesCover | sudoku/sudoku.cc:218-242 | on every well-formed torus of any size, uncovering a covered column gives back exactly the torus there was |
| DancingLinks.DuringCover | sudoku/sudoku.cc:222-228 | in the middle of a cover, after any number of unlinked nodes, all columns are still rings with right sizes and the covered column is untouched |
| DancingLinks.CoverActive | sudoku/sudoku.cc:218-229 | a node is still linked after a cover if and only if it was and its row has no node in the covered column |
| DancingLinks.CoverKeepsWellFormed | sudoku/sudoku.cc:218-229 | covering a linked column leaves a well-formed torus |
| ExactCover.ExtendCover | sudoku/sudoku.cc:118-125 | a cover of what a row leaves, plus the row, is a cover |
| ExactCover.ShrinkCover | sudoku/sudoku.cc:118-132 | a cover that uses a row, without it, covers what the row leaves |
| ExactCover.CoverUsesColumn | sudoku/sudoku.cc:116-118 | every cover has a row in the chosen column |
| Search.CoverReduces | sudoku/sudoku.cc:218-229 | a covered column and all rows that meet it are gone from the exact-cover problem that the torus stands for, and nothing else is |
| Search.CoverAllReduces | sudoku/sudoku.cc:117-122 | the same for any sequence of covers |
| Search.UncoverAllUndoesCoverAll | sudoku/sudoku.cc:117-131 | any sequence of covers is undone by the uncovers in reverse order |
| Search.TakingReduces | sudoku/sudoku.cc:117-122 | taking a row covers exactly its columns, and leaves the problem reduced by the row |
| SolverSteps.InnerStep | sudoku/sudoku.cc:223-227 | one step of the two nested walks of `cover` is one more unlinked node of the cover |
| SolverSteps.CoverEnds | sudoku/sudoku.cc:218-229 | the nested walks end with the whole cover done |
| SolverSteps.TakenStep | sudoku/sudoku.cc:120-122 | one more covered column of the row that is taken |
| SolverSteps.TakenShrinks | sudoku/sudoku.cc:95-133 | taking a row leaves fewer linked headers, which is why `solve` ends |
| SudokuSolver.TakenSolves | sudoku/sudoku.cc:118-125 | a solution after taking a row, with the row, is a solution before |
| SudokuSolver.NoRowNoCover | sudoku/sudoku.cc:118-132 | if no row of one column leads to a solution, there is none |
| SudokuSolver.SudokuSolver.GetMinColumn | sudoku/sudoku.cc:201-216 | the first linked header of size at most one, or else the first of the smallest |
| SudokuSolver.SudokuSolver.Cover | sudoku/sudoku.cc:218-229 | the pointer loops compute the cover |
| SudokuSolver.SudokuSolver.CoverRow | sudoku/sudoku.cc:223-227 | the inner loop unlinks exactly the rest of one row |
| SudokuSolver.SudokuSolver.Uncover | sudoku/sudoku.cc:231-242 | on a covered torus, the backward loops give back exactly the torus before the cover |
| SudokuSolver.SudokuSolver.UncoverRow | sudoku/sudoku.cc:234-238 | the inner backward loop puts back exactly the rest of one row |
| SudokuSolver.SudokuSolver.TakeRow | sudoku/sudoku.cc:120-122 | the columns of the rest of the row are covered, in order |
| SudokuSolver.SudokuSolver.ReleaseRow | sudoku/sudoku.cc:127-129 | the backward loop undoes it |
| SudokuSolver.SudokuSolver.TryRow | sudoku/sudoku.cc:119-129 | a row leads to a solution, or there is none with it and torus, stack and board are as before |
| SudokuSolver.SudokuSolver.TryRows | sudoku/sudoku.cc:118-130 | the loop over the rows of the column finds a solution, or no row leads to one and all is as before |
| SudokuSolver.SudokuSolver.Solve | sudoku/sudoku.cc:95-133 | terminates for every exact-cover matrix; true: the stack grew by rows that cover every linked column exactly once, and the board is filled from the stack; false: there is no cover, and torus, stack and board are as on entry |
| SudokuSolver.SudokuSolver.Decode | sudoku/sudoku.cc:99-108 | from any node of a row, the walk to the right finds the cell and the value of the row |
| SudokuSolver.SudokuSolver.Fill | sudoku/sudoku.cc:98-112 | the board gets the value of every row on the stack, and nothing else |
| Building.AppendColumnKeeps | sudoku/sudoku.cc:158-165 | appending a column keeps the torus well formed |
| Building.AddCellKeeps | sudoku/sudoku.cc:167-184 | a new node at the bottom of a column keeps all column rings and sizes |
| Building.AddRowKeeps | sudoku/sudoku.cc:82-88 | four new nodes in different columns, joined, are a row, and the torus stays well formed |
| Building.JoinRow | sudoku/sudoku.cc:86-88 | three `put_left` make the four nodes one ring and change no column |
| SudokuSolver.SudokuSolver.PutNodeLeft | sudoku/sudoku.cc:244-250 | the four assignments insert a node to the left, aliases included |
| SudokuSolver.SudokuSolver.PutNodeUp | sudoku/sudoku.cc:252-260 | the assignments insert a node above the header, count it and give it its column |
| SudokuSolver.SudokuSolver.AppendNamedColumn | sudoku/sudoku.cc:158-165 | the column table names exactly the linked columns |
| SudokuSolver.SudokuSolver.NewRow | sudoku/sudoku.cc:167-184 | one more node in the column of that name |
| SudokuSolver.SudokuSolver.AddCandidate | sudoku/sudoku.cc:82-88 | one more row, for one cell and value |
| SudokuSolver.SudokuSolver.MarkUsed | sudoku/sudoku.cc:43-55 | the three flag tables say which value occurs in which row, column and box of the givens |
| SudokuSolver.SudokuSolver.AppendCellColumns | sudoku/sudoku.cc:57-61 | a column for every empty cell |
| SudokuSolver.SudokuSolver.AppendUnitColumns | sudoku/sudoku.cc:63-72 | a column for every value missing in a row, column or box |
| SudokuSolver.SudokuSolver.AddRows | sudoku/sudoku.cc:74-92 | rows for exactly the moves that the givens allow, each once |
| SudokuSolver.SudokuSolver.Encode | sudoku/sudoku.cc:33-93 | the torus encodes the puzzle, within the nodes there are; the board is not changed |
| SudokuSolver.SudokuSolver.constructor | sudoku/sudoku.cc:33-93 | a solver whose torus encodes the puzzle, with an empty stack |
| Sudoku.Pigeonhole | sudoku/sudoku.cc:63-72 | nine values from 1 to 9 have no repeat if and only if each of the nine occurs |
| Sudoku.LegalIffAllOccur | sudoku/sudoku.cc:63-72 | a filled grid is legal if and only if every value occurs in every row, column and box |
| Sudoku.CoverCompletes | sudoku/sudoku.cc:33-93 | a set of moves that covers every wanted column once, played on the givens, is a legal completion, also when the givens repeat a value |
| Sudoku.CompletionCovers | sudoku/sudoku.cc:33-93 | the moves of a legal completion cover every wanted column once |
| Encoding.CoversAreByName | sudoku/sudoku.cc:57-92 | an exact cover of the torus is exactly a set of moves that covers the wanted columns |
| SolvePuzzle.SolutionCompletes | sudoku/sudoku.cc:97-113 | the board filled from a solution is a legal grid that keeps the givens |
| SolvePuzzle.UnsolvablePuzzle | sudoku/sudoku.cc:132 | without an exact cover there is no legal completion |
| SolvePuzzle.SolveBoard | sudoku/sudoku.cc:279-280 | true: the board is a completion of what it was; false: no grid is |
| SolvePuzzle.SolveSudoku | sudoku/sudoku.cc:263-291 | 81 digits that complete the puzzle exactly when the puzzle has only digits and a legal completion; NoSolution in every other case |
| TimerQueue.SameSize | muduo/net/TimerQueue.cc:291 | the two indexes have the same size, as the code asserts |
| TimerQueue.ResetTimerfd | muduo/net/TimerQueue.cc:45-91 | the timerfd is armed no later than the expiration, or 100 microseconds from now |
| TimerQueue.UpTo | muduo/net/TimerQueue.cc:226-237 | exactly the entries that are due, in order of time and address |
| TimerQueue.TimerQueue.NewTimer | muduo/net/TimerQueue.cc:133-145 | a new timer has a number that no timer had before, also at a reused address |
| TimerQueue.TimerQueue.Insert | muduo/net/TimerQueue.cc:288-320 | the timer enters both indexes; the result says whether it is earlier than all others |
| TimerQueue.TimerQueue.AddTimerInLoop | muduo/net/TimerQueue.cc:154-166 | after it, the timerfd still wakes in time for every timer |
| TimerQueue.TimerQueue.CancelInLoop | muduo/net/TimerQueue.cc:169-192 | a queued timer leaves both indexes and is freed; a timer of the current batch is marked; any other id, also a stale one at a reused address, touches no timer; the cancel takes effect exactly if the timer was queued or in the running batch |
| TimerQueue.TimerQueue.EraseAndDelete | muduo/net/TimerQueue.cc:174-183 | the timer of the id, and no other, is erased from both indexes and freed once |
| TimerQueue.TimerQueue.GetExpired | muduo/net/TimerQueue.cc:223-250 | the batch is exactly the due timers, in order, and they leave both indexes |
| TimerQueue.TimerQueue.BeginBatch | muduo/net/TimerQueue.cc:196-209 | no timer of the batch was cancelled before; a timerfd that fired is read |
| TimerQueue.TimerQueue.RunCallback | muduo/net/TimerQueue.cc:211-214 | whatever timers a callback adds and cancels, and other threads create: the timers, the pending, freed and cancelled ones afterwards are those of its actions one after the other; each inserted timer it cancels is cancelled, and freed unless it is in the batch; every other timer, and every timer of the batch, is as it was |
| TimerQueue.TimerQueue.Act | muduo/net/TimerQueue.cc:133-192 | one action of a callback: an added timer is there and inserted, one created elsewhere is there and pending, a cancelled one is gone or marked |
| TimerQueue.TimerQueue.AddTimer | muduo/net/TimerQueue.cc:133-166 | a timer added in the loop thread gets the next number and exactly one entry, with its time |
| TimerQueue.AddedStays | muduo/net/TimerQueue.cc:133-166 | over any actions of a callback: a timer added at a free address has a number above all earlier ones and, unless a later action cancels it, is there at the end as it was added, inserted and not in the batch |
| TimerQueue.ElsewhereStays | muduo/net/TimerQueue.cc:133-145 | a timer that another thread creates meanwhile is pending at the end, whatever is cancelled |
| TimerQueue.AddedInBatch | muduo/net/TimerQueue.cc:196-284 | the same over all callbacks of a batch and `reset` |
| TimerQueue.AddedIsQueued | muduo/net/TimerQueue.cc:196-219 | after a wakeup every timer that a callback added and no later action cancelled is queued at its time, with its interval and a number above all earlier ones |
| TimerQueue.WhatIsLive | muduo/net/TimerQueue.cc:288-320 | the two indexes hold exactly the timers that are neither pending nor in the running batch |
| TimerQueue.AddedByCallback | muduo/net/TimerQueue.cc:196-219 | an input: a callback adds a timer, and it is in the queue after the wakeup |
| TimerQueue.TimerQueue.RunBatch | muduo/net/TimerQueue.cc:209-216 | every timer of the batch is called once, in order, cancelled or not; what the callbacks of the batch cancelled together |
| TimerQueue.FollowsChain | muduo/net/TimerQueue.cc:211-214 | the effects of cancels follow on each other: what two callbacks cancel is what both cancel |
| TimerQueue.AskedByMeans | muduo/net/TimerQueue.cc:211-214 | the ids that the first callbacks of a batch cancel are those that some of them cancels |
| TimerQueue.TimerQueue.ResetOne | muduo/net/TimerQueue.cc:256-273 | a repeating timer that was not cancelled is queued again at its interval from now; any other is freed once |
| TimerQueue.TimerQueue.RestartOne | muduo/net/TimerQueue.cc:261-267 | the timer is queued again, at its interval from now |
| TimerQueue.TimerQueue.DeleteOne | muduo/net/TimerQueue.cc:268-272 | the timer leaves and is freed once |
| TimerQueue.TimerQueue.Reset | muduo/net/TimerQueue.cc:252-284 | this holds for every timer of the batch, no other timer is touched, and the timerfd is set for the earliest exactly if its time is valid, and wakes in time for it |
| TimerQueue.TimerQueue.ResetBatch | muduo/net/TimerQueue.cc:256-273 | the loop of `reset` over the batch |
| TimerQueue.BatchSettles | muduo/net/TimerQueue.cc:196-284 | callbacks and `reset` together bring every timer where it belongs |
| TimerQueue.TimerQueue.HandleRead | muduo/net/TimerQueue.cc:196-219 | exactly the due timers are called, in order, none of them cancelled before; after the k-th callback exactly those are still called that stand later in the batch; and for every timer there was: it is cancelled exactly if it was inserted and a callback of the batch cancels it, a due one is queued again exactly if it repeats and was not cancelled and is freed if not, another one is freed exactly if it was cancelled, and the rest is untouched; the timers, the pending, freed and cancelled ones afterwards are those of the actions of the callbacks, one after the other, and of `reset` |
| TimerQueue.TimerQueue.EndBatch | muduo/net/TimerQueue.cc:215-219 | after the last callback every timer there was is brought where it belongs |
| TimerQueue.TimerQueue.Wakeup | muduo/net/TimerQueue.cc:196-219 | the same for some batch of exactly the due timers, in order |
| TimerQueue.CancelledInBatch | muduo/net/TimerQueue.cc:196-219 | two due timers, the first callback cancels the second: both are called, and the second is cancelled and freed |
| TimerQueue.CancelledTooEarly | muduo/net/TimerQueue.cc:133-192 | a timer cancelled between its creation and its insertion is not cancelled, and is called |
| TimerQueue.TimerQueue.Tick | muduo/net/TimerQueue.cc:75-91 | an armed timerfd fires exactly when its deadline has come |
| TimerQueue.TimerQueue.Handle | muduo/net/TimerQueue.cc:133-320 | one event, exactly: which timers there are, which are pending, freed and cancelled after a creation, an insertion, a cancel, a clock tick or a wakeup; which timers it cancels: none if it is a creation, an insertion or a clock tick |
| TimerQueue.TimerQueue.Run | muduo/net/TimerQueue.cc:133-320 | over every sequence of events: both indexes hold the same timers, each timer is freed at most once, no timer is ever called in a batch that began after it was cancelled, and the timerfd wakes for every queued timer; all events are handled |
| TcpConnection.TcpConnection.SendInLoop | muduo/net/TcpConnection.cc:157-218 | on an open connection the message is offered to the socket exactly if nothing is buffered, what it does not take is buffered, and it is dropped on a broken connection; when the write-complete and high-water callbacks are due; on a closed one nothing happens |
| TcpConnection.TcpConnection.WriteNow | muduo/net/TcpConnection.cc:169-195 | the direct write: bytes taken by the socket, and whether the error means the message is lost |
| TcpConnection.TcpConnection.Enqueue | muduo/net/TcpConnection.cc:198-217 | the rest goes behind what is queued; writing is on exactly if something is queued; the high-water callback is due exactly when the mark is passed |
| TcpConnection.TcpConnection.HandleWrite | muduo/net/TcpConnection.cc:393-436 | the front of the output goes out; when it is empty writing ends, the callback is due and a pending shutdown is done; on a closed connection nothing happens |
| TcpConnection.TcpConnection.ShutdownConnection | muduo/net/TcpConnection.cc:222-231 | a connected connection starts to disconnect; from another thread, by a task |
| TcpConnection.TcpConnection.ShutdownInLoop | muduo/net/TcpConnection.cc:234-243 | the write side is shut exactly if nothing is being written |
| TcpConnection.TcpConnection.ForceCloseConnection | muduo/net/TcpConnection.cc:246-254 | only a connected or disconnecting connection is affected |
| TcpConnection.TcpConnection.HandleClose | muduo/net/TcpConnection.cc:439-453 | the connection is disconnected and wants no events |
| TcpConnection.TcpConnection.RunFirstTask | muduo/net/TcpConnection.cc:147-153 | a queued send does exactly what a send in the loop does, with the answer of the socket, its callbacks included; a queued shutdown shuts the write side exactly if nothing is being written; a queued close closes; no other task writes anything |
| TcpConnection.TcpConnection.SendMessage | muduo/net/TcpConnection.cc:100-121 | a connected connection does in the loop exactly what a send does, or queues it as a task and writes nothing; any other is unchanged |
| TcpConnection.TcpConnection.ChangeState | muduo/net/TcpConnection.cc:222-453 | the events that neither give nor write anything: the new state, tasks and shut write side |
| TcpConnection.TcpConnection.Handle | muduo/net/TcpConnection.cc:100-453 | one event, exactly: the bytes it offers to the socket and the answer, the message it gives, the new state, tasks and shut write side; the write-complete callback is due exactly if the socket took all it was offered, the high-water callback exactly if the buffer grew from below the mark to the mark or over |
| TcpConnection.TakenSnoc | muduo/net/TcpConnection.cc:170-182 | one more call of `write` adds to the bytes taken exactly the prefix that its answer says |
| TcpConnection.TcpConnection.Run | muduo/net/TcpConnection.cc:100-453 | over every sequence of events and answers of the socket: the bytes sent are the prefixes that the answers took of what was offered, in order, and each call of `write` is that of an event with its answer; bytes sent and output buffer together are the messages given, in order, without those dropped; writing is on exactly while output is queued; whenever the write side of an open connection is shut, nothing is queued; a closed connection sends no more; the events happen one after the other up to the first that cannot |
| EventLoop.EventLoop.QueueFromOther | muduo/net/EventLoop.cc:204-218 | a push by another thread, which owes a wakeup |
| EventLoop.EventLoop.WakeupFromOther | muduo/net/EventLoop.cc:292-301 | the owed wakeup |
| EventLoop.EventLoop.QueueFromLoop | muduo/net/EventLoop.cc:204-218 | a push by the loop thread, with a wakeup only while functors are being called |
| EventLoop.EventLoop.HandleRead | muduo/net/EventLoop.cc:304-312 | the counter is read down to zero |
| EventLoop.EventLoop.SwapFunctors | muduo/net/EventLoop.cc:315-325 | the pending functors are taken all at once |
| EventLoop.EventLoop.RunNext | muduo/net/EventLoop.cc:327-330 | functors are called in the order of the pushes |
| EventLoop.EventLoop.EndCalling | muduo/net/EventLoop.cc:135-173 | back to the poll, or out of the loop if it was told to quit; never to a poll with pending functors and no wakeup |
| EventLoop.EventLoop.Handle | muduo/net/EventLoop.cc:127-333 | one event, exactly: where the loop is, the counter, the wakeups owed, the functors pushed, taken and run, and whether it is told to quit |
| EventLoop.EventLoop.Iteration | muduo/net/EventLoop.cc:136-169 | one round of the loop: everything queued before it is run, in order, and the eventfd is cleared |
| EventLoop.EventLoop.Run | muduo/net/EventLoop.cc:127-333 | over every interleaving: each functor runs at most once, in push order; whenever the loop polls and was told to quit, or polls for other than the first time with functors pending, a wakeup has been written or is owed; and until the first poll returns the wakeups are as many as the pushes and quits of other threads; the events happen one after the other up to the first that cannot |
| EventLoop.UnannouncedExactly | muduo/net/EventLoop.cc:127-218 | functors are pending at a poll with no wakeup written or owed if and only if it is the first poll and no other thread has pushed or quit; a quit always has one |
| EventLoop.EarlyFunctorWaits | muduo/net/EventLoop.cc:204-218 | such a poll, reached: a functor queued by the loop's thread before `loop()` is pending at the first poll with no wakeup |
| EventLoop.EarlyFunctorAnnounced | muduo/net/EventLoop.cc:204-218 | after a push of another thread the same functor is announced |
| AsyncLogging.AsyncLogging.Append | muduo/base/AsyncLogging.cc:38-63 | a line shorter than a buffer is kept whole, after all lines before it; a longer one is lost; a buffer is handed over exactly if the line does not fit in it |
| AsyncLogging.AsyncLogging.SwapBuffers | muduo/base/AsyncLogging.cc:85-102 | the batch is the filled buffers and the current one, in order, and the front end has two empty buffers again |
| AsyncLogging.AsyncLogging.DropOversized | muduo/base/AsyncLogging.cc:107-118 | a batch of more than 25 buffers keeps exactly its first two, after the notice; the rest is set aside as dropped |
| AsyncLogging.AsyncLogging.WriteOut | muduo/base/AsyncLogging.cc:120-124 | the file gets the batch, in order |
| AsyncLogging.AsyncLogging.Recycle | muduo/base/AsyncLogging.cc:126-149 | the two spare buffers are there again, each from a buffer of its own; the assertions that there is a buffer to take hold |
| AsyncLogging.AsyncLogging.WriteBuffers | muduo/base/AsyncLogging.cc:104-151 | one round of the back end after its swap: all of the batch is written, or the notice and its first two buffers with the rest dropped |
| AsyncLogging.AsyncLogging.Handle | muduo/base/AsyncLogging.cc:38-151 | one event, exactly: the lines it logs, the batch it takes, what it writes and drops |
| AsyncLogging.AsyncLogging.Run | muduo/base/AsyncLogging.cc:38-151 | over every interleaving: what is logged is the lines of the front ends shorter than a buffer, in the order of the lock; what was written and dropped, the batch in hand, the filled buffers and the current buffer are all lines logged, and the file is what was written with the notices; a missing next buffer means that there is something to write |
| AsyncLogging.AccountErased | muduo/base/AsyncLogging.cc:107-118 | cutting an oversized batch keeps the account of all lines |
| AsyncLogging.AccountWritten | muduo/base/AsyncLogging.cc:120-124 | writing the batch keeps it, and adds exactly the batch to the file |
| AsyncLogging.NothingDropped | muduo/base/AsyncLogging.cc:107-124 | without an oversized batch the file is exactly the lines |
| Conditions.NotifyKeeps | muduo/base/BoundedBlockingQueue.h:41 | one more thing and one notification keep the invariant that no wakeup is lost |
| Conditions.LeaveKeeps | muduo/base/BoundedBlockingQueue.h:60-69 | a woken thread that takes one thing keeps it |
| Conditions.BargeKeeps | muduo/base/BoundedBlockingQueue.h:56-69 | a thread that takes one thing before the woken ones keeps it |
| Conditions.WaitKeeps | muduo/base/BoundedBlockingQueue.h:60-63 | a thread that waits because there is nothing keeps it |
| Conditions.WakeKeeps | muduo/base/BoundedBlockingQueue.h:60-63 | a spurious wakeup keeps it |
| Conditions.WakeAllKeeps | muduo/base/ThreadPool.cc:60-74 | after `notifyAll` nobody waits, and the invariant holds whatever there is |
| BoundedBlockingQueue.BoundedBlockingQueue.PutSection | muduo/base/BoundedBlockingQueue.h:31-42 | the item goes to the end and one consumer is signalled, or the thread waits exactly if the queue is full |
| BoundedBlockingQueue.BoundedBlockingQueue.TakeSection | muduo/base/BoundedBlockingQueue.h:56-69 | the front item, and one producer is signalled, or the thread waits exactly if the queue is empty |
| BoundedBlockingQueue.BoundedBlockingQueue.Handle | muduo/base/BoundedBlockingQueue.h:31-69 | one event, exactly: what is put, what is taken, who waits and who is woken |
| BoundedBlockingQueue.BoundedBlockingQueue.Run | muduo/base/BoundedBlockingQueue.h:31-69 | over every interleaving: items come out in the order they went in, within the capacity, and while a thread waits for items (or room) there are at least as many woken threads as items (or free places); the events happen one after the other up to the first that cannot |
| ThreadPool.ThreadPool.RunSection | muduo/base/ThreadPool.cc:83-105 | a running pool takes the task and signals one worker, or the thread waits exactly if it is full; a stopped pool refuses it |
| ThreadPool.ThreadPool.TakeSection | muduo/base/ThreadPool.cc:107-130 | the front task, and one waiting thread is signalled if there is a bound; with none, a running pool makes the thread wait and a stopped one returns without a task |
| ThreadPool.ThreadPool.StopPool | muduo/base/ThreadPool.cc:60-74 | everybody is woken, and nobody waits |
| ThreadPool.ThreadPool.Handle | muduo/base/ThreadPool.cc:60-130 | one event, exactly: what is accepted, what is taken, who waits and who is woken, also of a stopped pool |
| ThreadPool.ThreadPool.RunAll | muduo/base/ThreadPool.cc:60-137 | over every interleaving: tasks are taken in the order they were accepted, within the bound, no wakeup is lost while the pool runs and nobody waits once it is stopped; the events happen one after the other up to the first that cannot |
| ItemStore.StoreKeepsWellStored | memcached/server/MemcacheServer.cc:44-138 | whatever the policy, every item stays under its own key, ends in CRLF and has a number that was handed out |
| ItemStore.NumbersAreNeverReused | memcached/server/MemcacheServer.cc:44-155 | over every sequence of stores and deletes, a number keeps meaning the item it was given to |
| ItemStore.CasMeansSameItem | memcached/server/MemcacheServer.cc:119-131 | after any such sequence, a cas with a number goes through if and only if the key still holds the very item that got the number, also across delete and add |
| ItemStore.CasFromStart | memcached/server/MemcacheServer.cc:119-131 | the same over every run from the empty server, for every number handed out so far |
| ItemBuffers.ItemBuffer.constructor | memcached/server/Item.cc:14-31 | an item with its key and no value bytes yet |
| ItemBuffers.ItemBuffer.Append | memcached/server/Item.cc:33-39 | the bytes go behind those received; key unchanged; needed bytes go down by as many |
| ItemBuffers.ItemBuffer.ResetKey | memcached/server/Item.cc:56-63 | the needle gets a new key in place |
| ItemBuffers.ItemBuffer.HasCRLF | memcached/server/Item.h:105-110 | the value is complete and ends in CRLF |
| MemcacheServer.MemcacheServer.Find | memcached/server/MemcacheServer.cc:47-51 | the search in the key's shard finds exactly the item of the one map |
| MemcacheServer.EraseHolds | memcached/server/MemcacheServer.cc:55-58 | erasing an item from its shard is deleting its key from the one map |
| MemcacheServer.InsertHolds | memcached/server/MemcacheServer.cc:59 | inserting an item in its shard is adding it to the one map |
| MemcacheServer.MemcacheServer.Put | memcached/server/MemcacheServer.cc:52-60 | erase and insert in one shard replace the item in the one map, with the next number |
| MemcacheServer.MemcacheServer.Concatenate | memcached/server/MemcacheServer.cc:93-110 | two appends fill the new item exactly |
| MemcacheServer.MemcacheServer.StoreItem | memcached/server/MemcacheServer.cc:44-138 | on 4096 shards, all six policies do what they do on one map; what that is to a client is stated in ClientLaws |
| MemcacheServer.MemcacheServer.GetItem | memcached/server/MemcacheServer.cc:140-147 | the item of the one map |
| MemcacheServer.MemcacheServer.DeleteItem | memcached/server/MemcacheServer.cc:149-155 | deletion from the one map, and whether there was something to delete |
| Session.ProcessKeepsGood | memcached/server/Session.cc:201-306 | every request line leaves a store and a mode that are sound: a value that arrives still needs bytes, a discard has bytes left |
| Session.GetAnswers | memcached/server/Session.cc:237-269 | what a get sends: leftovers, then the values of its keys, then END; what it leaves on an open connection and on one that is to be closed; and what a rejected get leaves behind |
| Session.GetAnswersOwnKeys | memcached/server/Session.cc:237-269 | the answer is the values of the get's own keys if and only if nothing was left over; which requests leave something is stated in LeftOvers |
| Session.ReceiveInPieces | memcached/server/Session.cc:136-181 | a value received in two pieces is the value received at once |
| Session.DrainInPortions | memcached/server/Session.cc:73-199 | for every state and all bytes, the loop of `onMessage` on a stream in two portions does what it does on all of it: replies, store, mode and unread rest; the length check after the loop is apart |
| Session.UpdateTakesItsValue | memcached/server/Session.cc:325-394 | for every size: the session after an update line, `bytes` and a CRLF, stored or discarded; the next byte starts a new command if and only if the size is at most 2147483645 |
| Session.RequestsDiscarded | memcached/server/Session.cc:183-199 | after an update of a larger size no request behind its value is answered and the store does not change |
| Session.Session.Gets | memcached/server/Session.cc:237-269 | the loop over the keys computes the answer; the buffer is emptied exactly if the connection takes it |
| Session.Session.ProcessLine | memcached/server/Session.cc:201-306 | a request line on the sharded server does what it does on one map |
| Session.Session.Updates | memcached/server/Session.cc:325-394 | an update starts a value, with its expiration cut to an int, or discards one that is too large, with the int sum of its size as it wraps around, and deletes the key |
| Session.RelativeExpiration | memcached/server/Session.cc:355-367 | an expiration up to a month is kept; a later one is relative to the start of the server, and at least 1 |
| Session.Session.Deletes | memcached/server/Session.cc:396-423 | the delete of a key and its answer, as on one map; what that is to a client is stated in ClientLaws |
| Session.Session.ReceiveValueFrom | memcached/server/Session.cc:136-148 | bytes of the value move from the buffer to the item, no more than it needs |
| Session.Session.FinishValue | memcached/server/Session.cc:146-180 | a complete value is stored and answered, or rejected without its CRLF |
| Session.Session.DrainInput | memcached/server/Session.cc:80-132 | the loop on the buffer is the stream function, and stops at an overlong line exactly if there is one |
| Session.Session.OnMessage | memcached/server/Session.cc:73-134 | one call is the stream function, on the sharded server, with a request to close exactly when more than 1024 bytes hold no end of line; bytes read and bytes left are all bytes that came |
| Chunking.ShortLinesStay | memcached/server/Session.cc:108-117 | if the lines are short, no prefix of the stream is taken for an overlong line; with one byte more after the last line, no prefix but the whole |
| Chunking.LongLineTrips | memcached/server/Session.cc:108-117 | if not, some prefix that ends before the stream does is |
| Chunking.DrainTogether | memcached/server/Session.cc:73-134 | what a session does next (store, mode, rest, number of outputs) does not depend on what it has sent, asked of the connection or left in its buffer |
| Chunking.LongLineShows | memcached/server/Session.cc:73-134 | if not, the stream cut within the long line has another outcome than the uncut stream |
| Chunking.ChunkingIsInvisible | memcached/server/Session.cc:73-199 | for every state and all bytes, malformed lines included: all ways to cut them have the same outcome, requests to close included, if and only if every line that ends is shorter than 1024 bytes and at most 1025 bytes come after the last one; the outcome is then that of one call on all bytes |
| Chunking.FeedIsDrain | memcached/server/Session.cc:73-134 | with short lines the outcome of every cut is that of the loop on all bytes |
| Chunking.CutLosesReply | memcached/server/Session.cc:108-117 | for every overlong line: uncut it is answered, cut before its last byte the client gets nothing of the answer |
| Chunking.FeedAll | memcached/server/Session.cc:73-134 | the session object fed chunk by chunk; with short lines it ends as if all bytes had come at once, and every byte is read or left |
| LeftOvers.BufferAfter | memcached/server/Session.cc:201-306 | what every request leaves in the output buffer |
| LeftOvers.LeavesSomething | memcached/server/Session.cc:242-268 | from an empty buffer, a request leaves something if and only if it is a get refused for an overlong key after a stored one, or any other get on a connection that is to be closed |
| LeftOvers.CleanStreams | memcached/server/Session.cc:73-306 | a stream without such gets leaves the buffer empty |
| LeftOvers.LeftOverIsSent | memcached/server/Session.cc:242-269 | from a new session: a set, a get of the key with an overlong key after it, and a get of another key, which is answered with the value of the set |
| LeftOvers.LeftOverExample | memcached/server/Session.cc:242-269 | the same with concrete keys and value |
| LeftOvers.QuitThenGet | memcached/server/Session.cc:260-293 | a get after quit leaves its whole answer in the buffer |
| RequestLines.TokensOfJoined | memcached/server/Session.cc:19-42 | the tokenizer inverts joining any words with spaces |
| RequestLines.StrtoullOfShow | memcached/server/Session.cc:52-66 | a number below 2^64 is read back from its digits |
| RequestLines.StrtoullSigned | memcached/server/Session.cc:52-66 | a number with a sign, and one beyond 64 bits, reads as `strtoull` reads it |
| Requests.CastsWrap | memcached/server/Session.cc:353-358 | the casts keep a number modulo 2^32, and as a time modulo 2^64 |
| RequestLines.NoreplyIsGiven | memcached/server/Session.cc:210-219 | an update has the option exactly if it was written with it |
| RequestLines.ParseUpdateLine | memcached/server/Session.cc:325-373 | every update whose fields fit their types, of all six kinds, is read back from its line |
| RequestLines.UpdateLineEnds | memcached/server/Session.cc:97-101 | the line of an update ends at its own CRLF |
| RequestLines.UpdateLineShort | memcached/server/Session.cc:108-117 | the line of an update is shorter than 1024 bytes |
| SetThenGet.ParseGet | memcached/server/Session.cc:210-242 | how a get of one key reads, and that the key `noreply` reads as an option |
| RequestLines.UpdateKey | memcached/server/Session.cc:342-345 | the key of an update is a token within the length limit and without a line end |
| SetThenGet.SetStores | memcached/server/Session.cc:136-181 | a set stores exactly the value with its flags under the next number, answers, and touches no other key |
| SetThenGet.SetThenGetShows | memcached/server/Session.cc:201-306 | a set followed by a get of its key sends exactly the value and flags of the set, if and only if the key is not `noreply` |
| SetThenGet.NoreplyIsNotShown | memcached/server/Session.cc:210-219 | a get of the key `noreply` shows nothing |
| SetThenGet.StoredIsShown | memcached/server/Session.cc:73-394 | for every key, flags, expiration and value that fit, written as a client writes them: a set and then a get of the key sends exactly the flags and the value, if and only if the key is not `noreply` |
| SetThenGet.StoredIsShownInChunks | memcached/server/Session.cc:73-394 | the same in every way to cut the requests |
| SetThenGet.LargestUpdate | memcached/server/Session.cc:379-387 | a set with size 2147483647 makes the session discard 18446744071562067969 bytes |
| Protocol.LineOption | memcached/server/Session.cc:210-219 | a line of words has the option exactly if it was given, or the last of several words is taken for it |
| Protocol.ParseLine | memcached/server/Session.cc:201-306 | every legal command reads back from its line: the six updates, get and gets of any keys, delete with and without the zero of the old protocol, version, and what is refused |
| Protocol.NotANumber | memcached/server/Session.cc:52-66 | a word that ends in anything but a digit is not a number |
| Protocol.TextsAgree | memcached/server/Session.cc:237-256 | what a get sends, on the data without its CRLF |
| Protocol.EntryShown | memcached/server/Item.cc:41-54 | key, flags, size, number and data of one item, in this order |
| Protocol.MergedData | memcached/server/MemcacheServer.cc:93-110 | an append puts the new data behind the stored data and a prepend before it; any other update replaces it |
| Protocol.Stores | memcached/server/MemcacheServer.cc:44-138 | which updates go through and what they leave under the key, policy by policy, on the data without its CRLF |
| Protocol.Served | memcached/server/Session.cc:73-423 | one legal command, from its bytes: the replies and the cache are as the protocol says |
| Protocol.ServesAll | memcached/server/Session.cc:73-423 | for every sequence of legal commands: what the server sends is exactly their replies, what it then holds is exactly the cache of the protocol, and every command is counted |
| Protocol.ServesInChunks | memcached/server/Session.cc:73-423 | the same in every way to cut the bytes, if no line is overlong |
| ClientLaws.LineAsks | memcached/server/Session.cc:325-373 | every update that fits has a line that asks for it; the laws of the updates are for every such line |
| ClientLaws.SeesData | memcached/server/Session.cc:237-269 | what a get and a gets of a key show is exactly what is stored: nothing, or key, flags, size, number and data |
| ClientLaws.ValueInjective | memcached/server/Item.cc:41-54 | from the text of a value its flags and data can be told |
| ClientLaws.NumberedInjective | memcached/server/Item.cc:41-54 | with gets also its number |
| ClientLaws.DeleteReads | memcached/server/Session.cc:210-219 | `delete k` reads as a delete of `k` if and only if the key is not taken for the option; if it is, the command has no key |
| ClientLaws.DeleteLaw | memcached/server/Session.cc:412-422 | for every key and in every state: a delete is answered `DELETED` exactly if a get showed something and `NOT_FOUND` if not, a get then sends `END` alone, and every other key shows what it did |
| ClientLaws.SetLaw | memcached/server/MemcacheServer.cc:52-60 | a set is always stored, and a get then shows its flags and data; every other key shows what it did |
| ClientLaws.AddReplaceLaw | memcached/server/MemcacheServer.cc:61-88 | an add is stored exactly if a get showed nothing, a replace exactly if it showed something; a refused one is answered `NOT_STORED` and nothing that a client sees changes |
| ClientLaws.ExtendLaw | memcached/server/MemcacheServer.cc:89-118 | if a get showed flags and data, an append makes it show the same flags and the data with the new behind it, a prepend with the new before it; if it showed nothing the update is refused |
| ClientLaws.CasLaw | memcached/server/MemcacheServer.cc:119-131 | a cas is stored exactly if its number is the one that a gets showed, answered `EXISTS` with another number and `NOT_FOUND` without a value, and a refused one changes nothing |
| ClientLaws.OversizedLaw | memcached/server/Session.cc:379-387 | a value over the limit is thrown away, its key shows nothing any more, and every other key shows what it did |
| ClientLaws.BadChunkLaw | memcached/server/Session.cc:174-177 | a value that does not end in CRLF is refused, and nothing that a client sees changes |
| ClientLaws.ExtendedIsShown | memcached/server/MemcacheServer.cc:99-108 | a set, an append or prepend and a get in one stream: two times `STORED`, then both parts in order with the flags of the set |
| ClientLaws.QuitLaw | memcached/server/Session.cc:290-299 | `quit` asks for the end of the connection, `shutdown` also of the server; nothing is sent and nothing changes |
| Calendar.NextDayNextNumber | muduo/base/Date.cc:22-29 | the next day of the Gregorian calendar has the next number |
| Calendar.LaterHasGreaterNumber | muduo/base/Date.cc:22-29 | a later date has a greater number |
| Calendar.DayNumberOfDate | muduo/base/Date.cc:32-45 | every day number from 1 March -4800 on is the number of the date computed from it, and that date is valid |
| Calendar.DateOfDayNumber | muduo/base/Date.cc:22-45 | every valid date comes back from its number |
| Calendar.OverflowLimit | muduo/base/Date.cc:32-45 | no intermediate value leaves 32 bits if and only if the number is at most 536838867 |
| Calendar.DateOverflowLimit | muduo/base/Date.cc:22-29 | no intermediate value of the day number leaves 32 bits if and only if the date is at most 15 December 5874689 |
| Calendar.UtcExactRange | muduo/base/TimeZone.cc:322-348 | the casts and the int arithmetic of `toUtcTime` are exact if and only if the second is at most the last one of day number 536838867 |
| Calendar.WeekDays | muduo/base/Date.h:97-100 | consecutive days have consecutive weekdays, 1 January 1970 was a Thursday, and exactly where the remainder leaves the range |
| Calendar.DayOfYear | muduo/base/TimeZone.cc:341-345 | the difference from 1 January is a day of the year |
| Calendar.FillHMS | muduo/base/TimeZone.cc:76-82 | hour, minute and second in range, and together the seconds |
| Calendar.EpochDay | muduo/base/Date.cc:47 | the day number that stands for 1 January 1970 is that of the formula |
| Calendar.FloorDivision | muduo/base/TimeZone.cc:325-333 | the correction after truncating division is floor division, for negative seconds too |
| Calendar.FromUtcTimeInjective | muduo/base/TimeZone.cc:350-363 | different broken-down times have different seconds |
| Calendar.ToUtcTime | muduo/base/TimeZone.cc:322-348 | `fromUtcTime` inverts it for positive and negative seconds, every field is in range, weekday and day of year are right; the range in which the int arithmetic is exact is UtcExactRange |
| SudokuStat.Passed | sudoku/stat.h:108-129 | one more empty second, with the oldest dropped from a full ring, keeps the windows right |
| SudokuStat.AddedAt | sudoku/stat.h:139-152 | adding to any second of the window keeps them right |
| SudokuStat.Discarded | sudoku/stat.h:153-158 | a response older than the window may be discarded |
| SudokuStat.Restarted | sudoku/stat.h:130-138 | so may the window after a jump of a minute or more |
| SudokuStat.SudokuStat.Place | sudoku/stat.h:101-159 | all branches keep every window equal to the count and sum over the whole history of its second; the window ends at the latest second and starts again only after a reset or a jump of 60 seconds or more, otherwise it starts where it did or 59 seconds before its end |
| SudokuStat.SudokuStat.CatchUp | sudoku/stat.h:123-128 | the loop brings the window to the new second, and its start to where it was or 59 seconds before |
| SudokuStat.SudokuStat.RecordResponse | sudoku/stat.h:85-160 | windows agree with the history, where the window ends and starts, totals are right, negative latencies are only counted as bad |
| SudokuStat.SudokuStat.WindowSums | sudoku/stat.h:41-59 | the sums of the report are the count and latency over the history from the first to the last second |
| SudokuStat.SudokuStat.Reset | sudoku/stat.h:68-83 | everything but the dropped requests starts again |
| Bytes.DecodeEncodeInt | muduo/net/Buffer.h:240-265 | an integer of k bytes reads back from network order as it was written, negative ones included |
| Bytes.EncodeDecodeInt | muduo/net/Buffer.h:310-344 | k bytes are the encoding of the integer they decode to |
| Bytes.ToBytesAt | muduo/net/Buffer.h:250-254 | the most significant byte comes first: byte i of k counts the multiples of 256 to the k - 1 - i |
| Bytes.EncodeIntAt | muduo/net/Buffer.h:240-265 | the same for every integer, negative ones included, with the division rounding down |
| Bytes.FromBytesSum | muduo/net/Buffer.h:310-344 | bytes read as the sum of the bytes, each times its power of 256 |
| Bytes.DecodeIntAt | muduo/net/Buffer.h:310-344 | and as an integer the top bit of the first byte is the sign |
| Buffer.Buffer.constructor | muduo/net/Buffer.h:50-59 | empty, with the room that is asserted |
| Buffer.Buffer.Retrieve | muduo/net/Buffer.h:119-132 | the front of the contents goes; when all is gone the room in front is that of a new buffer |
| Buffer.Buffer.RetrieveAll | muduo/net/Buffer.h:161-165 | the contents are empty, and the room in front is that of a new buffer |
| Buffer.Buffer.RetrieveAsString | muduo/net/Buffer.h:173-181 | the front of the contents, and it goes |
| Buffer.Buffer.Unwrite | muduo/net/Buffer.h:231-235 | the end of the contents goes |
| Buffer.Buffer.MakeSpace | muduo/net/Buffer.h:415-439 | room for the bytes, contents unchanged, in a larger block or by moving down, exactly as the sizes say, and the assertion before moving holds |
| Buffer.Buffer.MoveDown | muduo/net/Buffer.h:428-437 | the overlapping copy to the front keeps the contents |
| Buffer.Buffer.EnsureWritableBytes | muduo/net/Buffer.h:208-216 | room for the bytes, contents unchanged; nothing happens exactly if there is room |
| Buffer.Buffer.Append | muduo/net/Buffer.h:195-201 | the contents grow by the bytes, in the same block or a larger one as the sizes say |
| Buffer.Buffer.Prepend | muduo/net/Buffer.h:376-382 | the bytes come before the contents |
| Buffer.Buffer.Shrink | muduo/net/Buffer.h:385-393 | contents unchanged, in a new block with exactly the room that the reserve and the initial size give |
| Buffer.Buffer.ReadFd | muduo/net/Buffer.cc:28-63 | what the socket gave, in the buffer and in the overflow area, is appended in order |
| Buffer.Buffer.AppendInt | muduo/net/Buffer.h:240-265 | the contents grow by the integer in network order, byte by byte as in `Bytes.EncodeIntAt` |
| Buffer.Buffer.PrependInt | muduo/net/Buffer.h:349-374 | the integer in network order, byte by byte as in `Bytes.EncodeIntAt`, comes before the contents |
| Buffer.Buffer.PeekInt | muduo/net/Buffer.h:310-344 | the integer at the front, read as in `Bytes.DecodeIntAt`, nothing consumed |
| Buffer.Buffer.ReadInt | muduo/net/Buffer.h:272-303 | the integer at the front, read as in `Bytes.DecodeIntAt`, and it is consumed |
| Codec.ParseFrame | protobuf/codec/codec.cc:186-235 | what a frame holds parses back to the message, or gives the error for an empty name, an unknown type or bad fields |
| Codec.DeliveredIffSendable | protobuf/codec/codec.cc:22-235 | a frame is delivered if and only if its type name is known and not empty, its fields parse and it is not longer than `kMaxMessageLen`; if not, nothing of it is consumed |
| Codec.DrainInPortions | protobuf/codec/codec.cc:135-167 | for all bytes, handling a stream in two portions is handling it at once; an error stays, and no byte from the bad frame on is consumed |
| Codec.DrainFrames | protobuf/codec/codec.cc:135-167 | frames followed by an incomplete tail deliver exactly their messages, in order, and leave the tail |
| Codec.PrefixOfFrames | protobuf/codec/codec.cc:135-167 | no prefix of a stream of frames is an error |
| Codec.FeedIsDrain | protobuf/codec/codec.cc:135-167 | for all bytes and every chunking: messages delivered, error and rest are those of the bytes alone |
| Codec.FramesArrive | protobuf/codec/codec.cc:22-167 | messages sent as frames arrive exactly and in order in every chunking |
| Codec.AdlerSeesByte | protobuf/codec/codec.cc:66-69 | Adler-32 (section 2.2 of RFC 1950) differs for texts that differ in one byte |
| Codec.AdlerSums | protobuf/codec/codec.cc:66-69 | both halves of the checksum as section 2.2 of RFC 1950 defines them: one plus the sum of the bytes, and the sum of these sums, modulo 65521 |
| Codec.ChecksumWritten | protobuf/codec/codec.cc:66-70 | the checksum is written as the two bytes of the sum of sums, then the two of the sum |
| Codec.FrameLayout | protobuf/codec/codec.cc:22-74 | a frame byte by byte: length, length of the name, name, a zero, data, checksum, every number with its most significant byte first |
| Codec.DamageIsFound | protobuf/codec/codec.cc:186-232 | a frame with one checksummed byte changed gives a checksum error |
| Codec.FillEmptyBuffer | protobuf/codec/codec.cc:22-74 | the buffer holds the frame of the message |
| Codec.NextMessage | protobuf/codec/codec.cc:139-166 | one round of the loop takes out one message, or stops with the reason and consumes nothing |
| Codec.OnMessage | protobuf/codec/codec.cc:135-167 | the loop on the buffer is the stream function: messages delivered, error, rest |
| Texts.AtollOfShowInt | wordcount/hasher.cc:60 | a printed count is read back as it was |
| Texts.ShowAt | wordcount/hasher.cc:60 | a printed number has the decimal digits, the last one for the units, and no zero in front |
| Texts.FindCRLF | muduo/net/Buffer.h:88-92 | the first CRLF, or none |
| WordCount.ParseOwnLine | wordcount/receiver.cc:58-66 | a record line is read as the record |
| WordCount.SplitInPortions | wordcount/receiver.cc:53-73 | the stream of records may be cut anywhere |
| WordCount.SplitText | wordcount/receiver.cc:53-73 | the receiver reads exactly the records that were written |
| WordCount.WordRead | wordcount/hasher.cc:197 | a word read and counted keeps the balance of counts and words |
| WordCount.RecordSent | wordcount/hasher.cc:208-209 | a record sent keeps the balance and goes to the receiver of its word |
| WordCount.WordCountSender.constructor | wordcount/hasher.cc:159-181 | nothing is written yet |
| WordCount.WordCountSender.Send | wordcount/hasher.cc:55-68 | the record goes to the receiver of its word, at once with all that waited exactly if a batch is full; no other receiver is touched |
| WordCount.WordCountSender.SendAll | wordcount/hasher.cc:205-210 | every count of the table is sent once, in whatever order the table has |
| WordCount.WordCountSender.ProcessFile | wordcount/hasher.cc:183-212 | after a file, whatever the size of the tables, the records of all receivers add up to the words read; every table but the last is sent with one word more than the limit |
| WordCount.WordCountSender.DisconnectAll | wordcount/hasher.cc:142-149 | every receiver was given exactly the text of its records |
| WordCount.WordCountReceiver.Connect | wordcount/receiver.cc:37-50 | one more connection with nothing arrived on it |
| WordCount.WordCountReceiver.Disconnect | wordcount/receiver.cc:37-50 | a connection closes after its last byte; the shard is written exactly when the last expected sender goes, with the counts of that moment |
| WordCount.WordCountReceiver.OnMessage | wordcount/receiver.cc:53-73 | however the streams are cut and interleaved, the counts are those of all complete lines on all connections, and a connection is asked to close exactly if a line had no tab |
| WordCount.WordCountReceiver.AddLines | wordcount/receiver.cc:55-72 | the loop adds the record of every complete line and leaves the rest |
| WordCount.OccurrencesInAnyOrder | wordcount/receiver.cc:37-50 | the order in which the hashers connect does not matter |
| WordCount.CountedIfNamed | wordcount/receiver.cc:58-66 | a word has a count above zero exactly if some record names it |
| WordCount.StreamsCounted | wordcount/receiver.cc:53-73 | a receiver that has read the streams of the hashers counts exactly the words it owns, and no line was wrong |
| WordCount.WordsAreConserved | wordcount/receiver.cc:37-73 | with any number of hashers, connecting in any order, when the last one has gone the receiver has written one shard: it holds exactly the words that the hash assigns to it and that occur in the input, each with all its occurrences in all input |

## Left out

- Sockets, poll, timerfd, eventfd, threads and mutexes: they are steps with arbitrary outcomes, and a section under a mutex is one step. Liveness under a fair scheduler is not stated.
- The C++ memory model, and races inside one `shutdown` or `forceClose`, which the code marks as unsafe.
- TimerQueue: the clock of the timers and the clock of the timerfd are one clock; addresses are below the sentry's, as the code assumes; an interval is a whole number of microseconds; the batch time is positive.
- TcpConnection: reading, `startRead` and `stopRead` are not modelled; the timer of a delayed close is an event of its own; a connection is not used before it is established.
- EventLoop: channels other than the eventfd, functors still queued at `quit`, and a second `loop()` after it.
- AsyncLogging.AsyncLogging.Run: says nothing about lines still buffered at `stop`.
- ThreadPool: `start`, running a task in the caller's thread when there are no worker threads, exceptions thrown by tasks, and the tasks left at `stop`.
- ItemStore: the 64-bit number does not wrap around, and the length of an appended value does not overflow.
- Session: the binary protocol, which a first byte of 0x80 selects, and the allocator statistics are not modelled; a missing key and a negative size, on which the code asserts or reads past the end, put the session in a mode that does nothing more; expiration is stored but not acted on, as in the code.
- Protocol.ServesAll: is for commands with one space between words, plain decimal numbers and keys within the limit; a get with an overlong key is in LeftOvers, what comes after a quit too.
- Session.Session.OnMessage: holds an item in reception as a value; that the item is filled in place is modelled apart, in ItemBuffers.
- Requests: numbers are cut to their fields as the casts do; a number with leading blanks is read as `strtoull` reads it, but no round trip is stated for it.
- Calendar: dates before 1 March -4800, where the source's truncating divisions stop being floor divisions; daylight saving time and time zone files.
- SudokuStat.SudokuStat.RecordResponse: the time is one second after the epoch or later; at second zero the code reads the back of an empty ring. The text of the report is not modelled.
- Buffer: `swap`, `findEOL` and the capacity beyond the size of the vector.
- Codec: serialization inside Protobuf is a relation given as a parameter, the message registry too; a frame is shorter than 2 GiB. How often the error callback is called is not stated, nor which error a frame with several damaged bytes gives.
- WordCount.WordCountReceiver.Disconnect: is for a connection that closes after its last byte has arrived; one that breaks before is not modelled.
- WordCount.ParseLine: a number that is missing counts as zero, where `atoll` would read on into the next line; counts have no 64-bit limit. The throttling of a congested connection and the text of the shard file are not modelled.
- The HTTP, RPC, SOCKS, multiplexer and chat servers, the inspectors, `Connector`, `TcpServer` teardown and `LogStream` formatting.
