# Verification of the ryan_network library

This project models the parts of a C++ network library in which the hard reasoning lies,
and proves what they promise. Code that changes things in place is modelled in place:
objects are classes, loops are loops with invariants, node pools and buffers are arrays.
`dafny verify dfyconfig.toml` checks everything.

* **Sudoku by dancing links** (`Rings`, `DancingLinks`, `Matrix`, `Covering`, `ExactCover`,
  `SudokuRules`, `SudokuEncoding`, `SudokuSetup`, `Building`, `SudokuSolver`, `Sudoku`).
  The solver works on an array of nodes with four links each. Every list it builds holds
  its members in ascending order, so a list is described by a header and a set of node
  numbers; a set of live columns therefore fixes every link and every size
  (`Matrix.Represents`). `cover` and `uncover` are functions on the pool, the recursive
  search is proved against exact covers, and exact covers against completed grids. The
  result is full functional correctness for every string of 81 characters. Givens that
  clash are not rejected by the constructor; completeness then rests on counting the
  values left to show against the cells left to show them.
* **Memory pool** (`PoolBlocks`, `MemoryPool`). Blocks, reference counts and the records
  of large blocks, which the pool allocates from itself.
* **Connection, buffer and server** (`Bytes`, `Buffer`, `TcpState`, `TcpConnection`). The
  output path under partial writes, sends queued by other threads, half-close and teardown,
  with what either poller watches. `TcpState` has the connection's history as values and
  what its steps keep; the class ties each method to one of them.
* **Event loop and thread pool** (`EventLoop`, `ThreadPool`). Each method is one stretch
  of code between two points where another thread may run; any sequence of calls that the
  requirements allow is a run, and what every method keeps holds in every run; where it
  appears, a method `RunSteps` takes any sequence of steps and says so outright.
* **HTTP parsing** (`HttpContext`), **pollers** (`Channel`, `PollPoller`, `EpollPoller`,
  `Pollers`), **timers** (`TimerOrder`, `TimerQueue`), **asynchronous logging**
  (`FixedBuffer`, `AsyncLogging`) and **integer printing** (`Numerals`, `LogStream`).

What the system answers (system calls, clocks, addresses, wake-ups, the moment a callback
runs) is an argument of the method concerned, constrained only by what the system
guarantees.

## Findings

Properties one might expect and the code does not have, each with the exact condition and a
run or an input that shows it:

* With the epoll backend a connection can be closed twice. Closing disables the channel; if
  it had no interest left, that adds the descriptor again with an empty mask, and a hang-up
  reported before the final step fails the assertion in HandleClose. Exactly then, unless
  reading is switched after the close (`TcpStates.Life.SecondCloseIff`,
  `TcpConnections.ClosedTwice`; with poll it cannot). While the connection is up one report
  closes it twice exactly if it is a hang-up with priority data alone and the read meets the
  end of file (`TcpConnections.TcpConnection.HandleEvent`, `TcpConnections.ClosedTwiceAtOnce`).
* Reading may be switched after a connection has closed, since the calls do not look at its
  state. With epoll stopping it can have the descriptor watched again; starting it leaves the
  final step a channel with interest (`TcpConnections.StoppedLate`,
  `TcpConnections.StartedLate`, `TcpStates.Life.DestroyedOk`).
* The destructor of the server only queues the final step of the connections it finds, on
  their own loops. The teardown of such a connection completes exactly if it is connected
  when that step runs (`TcpStates.Life.EndedIff`), so it is doomed from when it leaves that
  state, before or after the destructor (`TcpStates.Life.DoomedIff`,
  `TcpConnections.TcpConnection.RunSteps`). Disconnecting, it fails the poller's assertion if
  it has interest (`TcpConnections.ShutAfterEnd`) and otherwise leaves its poller without
  being reported down (`TcpConnections.NeverDown`); closed but not yet erased, it has the erasure call a server
  that is gone and queue a second final step, whose assertion fails
  (`TcpConnections.ErasedAfterEnd`). One erased before is not affected
  (`TcpStates.Life.MissedIff`).
* What was passed to Send before Shutdown may be missing from the wire of a connection that
  shut its write side while up and without a fault: exactly the payloads that other threads
  had queued and that were still queued at that moment
  (`TcpStates.Wire.PromiseIff`, `TcpConnections.LatePayload`).
* A half-close may shut the write side before everything accepted was written: exactly if it
  runs after the connection has closed and bytes were waiting at the close
  (`TcpStates.Wire.EarlyHalfCloseIff`, `TcpConnections.LateHalfClose`).
* The two backends do not watch the same descriptors (`Pollers.SameWatchIff`,
  `Pollers.DisabledTwice`).
* MakeSpace takes an int, so for large lengths it may make less room than was asked for, cut
  the vector short or throw (`Buffers.EnoughIff`, `Buffers.Buffer.MakeSpace`,
  `Buffers.NarrowedToNothing`).
* After a timer callback the alarm is set for the earliest timer unless timers were waiting,
  none of them was due at the time read from the clock, and the alarm had gone off or was
  wrong before; a new earliest timer repairs it (`TimerQueues.TimerQueue.HandleRead`,
  `TimerQueues.TimerQueue.AddTimerInLoop`, `TimerQueues.LostAlarm`).
* The assertion on a removed poll slot fails exactly for channels that were registered
  without interest and then left alone (`PollSlots.Table.IgnoredIff`,
  `PollPollers.IdleRegistration`).
* A request does not end at its empty line but at the first line without a colon, whatever
  that contains; the two are the same exactly if every header line has one
  (`HttpContexts.RequestEndsIff`, `HttpContexts.EndsAtEmptyIff`, `HttpContexts.HeaderLost`).
* When the logger is stopped, what was appended after the last round stays in memory
  (`AsyncLoggings.AsyncLogging.CompleteIff`, `AsyncLoggings.LostRecord`).

## Model

| member | source | states |
|---|---|---|
| Sudoku.SolveSudoku | examples/sudoku/sudoku.cc:240-263 | for every 81 characters: the result is NoSolution exactly when no filled grid agrees with the givens and has no value twice in a row, a column or a box of three by three, and otherwise such a grid |
| SudokuRules.SolvedIffLegal | examples/sudoku/sudoku.cc:41-53 | the units by which the solver numbers its constraints are the rows, columns and boxes of the grid: solved by units is legal in coordinates |
| Sudoku.SearchSound | examples/sudoku/sudoku.cc:90-108 | a stack that covers every constraint writes a solved grid that keeps the givens |
| Sudoku.SearchComplete | examples/sudoku/sudoku.cc:61-88 | if the encoded matrix has no exact cover, no grid completes the givens, clashing ones included |
| SudokuSolvers.SudokuSolver.constructor | examples/sudoku/sudoku.cc:33-88 | for any board of digits the links represent the matrix that encodes it, with nothing covered and the stack empty |
| SudokuSolvers.SudokuSolver.MarkGivens | examples/sudoku/sudoku.cc:41-53 | the three tables mark exactly the values given in each row, column and box |
| SudokuSolvers.SudokuSolver.AppendColumns | examples/sudoku/sudoku.cc:55-67 | exactly the open cells and the constraints not yet met get a header, found by its name; at most 1 + 324 nodes are used |
| SudokuSolvers.SudokuSolver.AppendCandidate | examples/sudoku/sudoku.cc:77-83 | one more candidate gets a row of four nodes in four different columns |
| SudokuSolvers.SudokuSolver.AppendRows | examples/sudoku/sudoku.cc:69-87 | the rows are exactly the candidates, each once, and the node counter stays within kMaxNodes |
| SudokuSolvers.SudokuSolver.AppendColumn | examples/sudoku/sudoku.cc:137-157 | the new header joins the header list and the index by name; no earlier header is disturbed |
| SudokuSolvers.SudokuSolver.NewRowNode | examples/sudoku/sudoku.cc:159-176 | the new node is linked above its header and counted |
| Building.AppendHeader | examples/sudoku/sudoku.cc:137-157 | put_left on a represented matrix represents the matrix with one more empty column |
| Building.AppendRow | examples/sudoku/sudoku.cc:77-83 | four new_row calls and three put_left calls represent the matrix with one more row |
| SudokuSolvers.SudokuSolver.Cover | examples/sudoku/sudoku.cc:199-209 | the loops compute the covering function of the pool |
| SudokuSolvers.SudokuSolver.Uncover | examples/sudoku/sudoku.cc:211-221 | run on a covered pool, the reverse walk gives back exactly the pool before cover: every link and every size |
| SudokuSolvers.SudokuSolver.UnhideRowOf | examples/sudoku/sudoku.cc:213-217 | walking left undoes walking right, node by node |
| DancingLinks.UnhideNodeUndoes | examples/sudoku/sudoku.cc:203-216 | relinking a node by the neighbours it still names restores the pool |
| DancingLinks.UnhideColumnUndoes | examples/sudoku/sudoku.cc:200-220 | the same for a column header |
| Covering.CoverUpToKeeps | examples/sudoku/sudoku.cc:202-208 | at every moment of cover the lists hold exactly the nodes that remain, and sizes count them |
| Covering.CoverRepresents | examples/sudoku/sudoku.cc:199-209 | covering a live column leaves exactly the matrix without it and without the rows through it |
| Covering.CoverKeepsColumn | examples/sudoku/sudoku.cc:202-208 | the covered column itself keeps its links, so it can be walked while its rows are gone |
| Covering.CoverWalk | examples/sudoku/sudoku.cc:202-212 | its list before, during and after cover is the same in both directions |
| Covering.UnhideStepsBack | examples/sudoku/sudoku.cc:213-217 | unhiding a row in the opposite order steps back through the partly hidden states |
| Covering.OthersRepresent | examples/sudoku/sudoku.cc:114-116 | covering the other columns of a live row leaves the matrix of the columns the row does not use |
| SudokuSolvers.SudokuSolver.CoverRest | examples/sudoku/sudoku.cc:114-116 | the walk to the right covers the other three columns in order |
| SudokuSolvers.SudokuSolver.UncoverRest | examples/sudoku/sudoku.cc:121-123 | the walk to the left uncovers them exactly |
| SudokuSolvers.SudokuSolver.GetMinColumn | examples/sudoku/sudoku.cc:184-197 | a live column that at most one live row touches, or one that no other column undercuts |
| SudokuSolvers.SudokuSolver.ReadRow | examples/sudoku/sudoku.cc:92-103 | walking right from a stacked node finds the row's cell and value |
| SudokuSolvers.SudokuSolver.WriteBoard | examples/sudoku/sudoku.cc:92-106 | the board is filled in from the stack |
| SudokuSolvers.SudokuSolver.Solve | examples/sudoku/sudoku.cc:90-127 | success: the stack has grown into an exact cover of all columns and the board is filled in; failure: every link, every size, the stack and the board are as at entry and no choice of rows completes the stack; it terminates on the live columns |
| SudokuSolvers.SearchRow | examples/sudoku/sudoku.cc:112 | the next node in a covered column is the next live row, those before it having been tried |
| SudokuSolvers.SearchDeeper | examples/sudoku/sudoku.cc:112-117 | pushing a live row and covering its columns represents the smaller matrix, with fewer live columns |
| SudokuSolvers.SearchNext | examples/sudoku/sudoku.cc:112-124 | after a fruitless row the walk goes on to the next one |
| SudokuSolvers.SearchFailed | examples/sudoku/sudoku.cc:110-126 | when every row of the column was tried, no exact cover exists |
| Matrix.HeaderWalk | examples/sudoku/sudoku.cc:185-188 | walking the header list visits exactly the live columns, whose sizes count their live rows |
| Matrix.HideNodeKeepsColumns | examples/sudoku/sudoku.cc:204-206 | unlinking one node takes it out of its own column and leaves the other columns alone |
| ExactCovers.Peel | examples/sudoku/sudoku.cc:112-117 | taking a row out of an exact cover leaves an exact cover of the columns it does not use |
| ExactCovers.Join | examples/sudoku/sudoku.cc:112-117 | and back |
| ExactCovers.Exhausted | examples/sudoku/sudoku.cc:112-126 | if no row through a column leads to an exact cover, there is none |
| StackedRows.StackCovers | examples/sudoku/sudoku.cc:113 | the stacked rows are pairwise disjoint and make up exactly the columns that were taken away |
| SudokuRules.DistinctIffComplete | examples/sudoku/sudoku.cc:61-67 | with values 1..9, no value repeats in any unit exactly when every value appears in every unit |
| SudokuEncoding.CompletionCovers | examples/sudoku/sudoku.cc:55-87 | a completion of the givens chooses candidates that form an exact cover |
| SudokuEncoding.CoverCompletes | examples/sudoku/sudoku.cc:55-87 | an exact cover fills in a completion; with clashing givens there is none, by counting |
| SudokuEncoding.FillShows | examples/sudoku/sudoku.cc:92-106 | every stacked candidate is shown in the board, no cell being written twice |
| SudokuEncoding.RowRead | examples/sudoku/sudoku.cc:96-102 | one step of the walk around a row meets the row's next name |
| SudokuEncoding.NameInjective | examples/sudoku/sudoku.cc:178-182 | different constraints have different names |
| PoolBlocks.MpAlignMultiple | ryan_network/memory_pool/memory_pool.h:14-16 | on 64-bit words the low four bits of the result are zero |
| PoolBlocks.MpAlignAbove | ryan_network/memory_pool/memory_pool.h:14-16 | it is among n .. n + 15 unless the sum wraps |
| PoolBlocks.AlignLeast | ryan_network/memory_pool/memory_pool.h:18-20 | the least multiple of 16 not below the address |
| PoolBlocks.OnlyMultiple | ryan_network/memory_pool/memory_pool.h:18-20 | the multiple of 16 among n .. n + 15 is unique |
| PoolBlocks.MpAlignIsAlign | ryan_network/memory_pool/memory_pool.h:14-20 | unless the sum wraps, masking the word aligns the number its bits stand for |
| PoolBlocks.RoomLeft | ryan_network/memory_pool/memory_pool.cc:148-151 | the aligned pointer never passes the block's end, so the unsigned comparison is safe |
| PoolBlocks.CountFits | ryan_network/memory_pool/memory_pool.cc:112-152 | a block never has more than 255 live allocations, so its 32-bit count cannot wrap |
| PoolBlocks.BumpConsistent | ryan_network/memory_pool/memory_pool.cc:148-154 | a bump allocation is disjoint from every live one, aligned, inside the block, and counted |
| PoolBlocks.AddBlock | ryan_network/memory_pool/memory_pool.cc:96-112 | a new page joins the blocks without touching them |
| PoolBlocks.ReleaseConsistent | ryan_network/memory_pool/memory_pool.cc:187-199 | giving back keeps every block's count equal to its live allocations |
| PoolBlocks.LastOne | ryan_network/memory_pool/memory_pool.cc:189-199 | a count of zero means nothing in the block is live, so rewinding it is safe |
| PoolBlocks.ResetConsistent | ryan_network/memory_pool/memory_pool.cc:206-225 | after a reset nothing is live and every block is empty |
| PoolBlocks.OwnBlock | ryan_network/memory_pool/memory_pool.cc:185-186 | the block whose address range contains an allocation is its own |
| MemoryPools.MemoryPool.constructor | ryan_network/memory_pool/memory_pool.cc:8-33 | a page becomes a pool with one empty block |
| MemoryPools.MemoryPool.Malloc | ryan_network/memory_pool/memory_pool.cc:132-161 | a result other than null is a new live allocation of the size; null changes nothing; a small one comes from the first block from current with room for it, or a new page, which is from then on used up to the allocation's end, and no other block changes; failure counts and current are exactly as the rows below say |
| MemoryPools.TwoMallocs | ryan_network/memory_pool/memory_pool.cc:142-154 | two allocations for which the first block searched has room lie behind each other in it, as close as alignment allows, whatever pages could be had |
| PoolBlocks.Served | ryan_network/memory_pool/memory_pool.cc:142-160 | the functions that describe a small allocation put it, aligned, behind the used part of the first block from current with room, which ends with it from then on, or behind the header of a new page; nothing else is used up |
| MemoryPools.MemoryPool.MallocSmall | ryan_network/memory_pool/memory_pool.cc:142-160 | address, blocks, failure counts and current are exactly those of the first block from current with room, else of a new page; of the nodes only the one that serves it is used further, to the allocation's end |
| MemoryPools.MemoryPool.MallocSmallNode | ryan_network/memory_pool/memory_pool.cc:96-130 | the page is linked in at the end and holds the allocation; failure counts and current are as the next row says |
| MemoryPools.MemoryPool.SkipFailed | ryan_network/memory_pool/memory_pool.cc:115-128 | every block from current on but the last has failed once more, and current moves past the last of them that had failed five times |
| PoolBlocks.PageAddedIs | ryan_network/memory_pool/memory_pool.cc:115-128 | the function that says so: counts from current on but the last go up by one, as 32 bits count, and the search moves behind the last that was five or more |
| MemoryPools.MemoryPool.MallocLarge | ryan_network/memory_pool/memory_pool.cc:57-93 | the system's block is entered in the first empty record among the first five, else in a new one at the front, itself allocated from the pool; if none can be had nothing is kept |
| MemoryPools.FirstEmptyIs | ryan_network/memory_pool/memory_pool.cc:64-79 | the record searched for is the first empty one of the first five, or there is none |
| MemoryPools.MemoryPool.FreeMemory | ryan_network/memory_pool/memory_pool.cc:171-204 | exactly the given allocation stops being live; its block has one reference less, and at zero is used from behind its header again, has not failed, and is searched first; no other block changes |
| MemoryPools.Recycle | ryan_network/memory_pool/memory_pool.cc:142-199 | an allocation from a block that had none, given back, leaves room for one of its size without a page; in a pool of one block it comes out at the same address |
| MemoryPools.MemoryPool.DropCount | ryan_network/memory_pool/memory_pool.cc:187-199 | one reference less; at zero the block is rewound and the search starts from the head |
| PoolBlocks.ReleasedIs | ryan_network/memory_pool/memory_pool.cc:187-199 | the function that says so: the last reference rewinds the used part to right behind the header, another leaves it |
| MemoryPools.MemoryPool.ResetPool | ryan_network/memory_pool/memory_pool.cc:206-225 | nothing is live, all blocks are kept |
| MemoryPools.RecordsReuse | ryan_network/memory_pool/memory_pool.cc:66-71 | entering a block in an empty record keeps records and large blocks one to one |
| MemoryPools.RecordsNew | ryan_network/memory_pool/memory_pool.cc:87-91 | so does entering it in a new record |
| MemoryPools.RecordsFreed | ryan_network/memory_pool/memory_pool.cc:174-178 | and so does freeing it |
| TcpConnections.TcpConnection.SendInLoop | ryan_network/tcp_connection/tcp_connection.cc:112-162 | what is written and what then waits is exactly the payload, after what waited; EPIPE or a reset loses it; nothing happens when disconnected; the write-complete callback is queued exactly if all of the payload was written at once, the high-water callback exactly if the mark is crossed; what is to be kept must find room in the buffer, which `Buffers.EnoughIff` says when it does |
| TcpConnections.TcpConnection.WriteOrKeep | ryan_network/tcp_connection/tcp_connection.cc:118-161 | the bytes that wait, the interest and the callbacks afterwards, for every answer of write |
| TcpStates.Wire.SentIs | ryan_network/tcp_connection/tcp_connection.cc:112-162 | the function that describes a send: a payload behind waiting bytes waits, of another the front part that write took is on the wire and the rest waits, a broken connection takes nothing |
| TcpConnections.TcpConnection.Send | ryan_network/tcp_connection/tcp_connection.cc:90-102 | only a connected connection sends; in the loop thread the payload goes ahead of everything still queued; the callbacks queued |
| TcpConnections.TcpConnection.SendElsewhere | ryan_network/tcp_connection/tcp_connection.cc:90-102 | in another thread the payload joins the queue of functors, behind what is queued, and only while connected |
| TcpConnections.TcpConnection.RunQueued | ryan_network/tcp_connection/tcp_connection.cc:108-204 | the next queued functor runs: a payload is sent in whatever state the connection then is, with the same callbacks, a half-close happens unless bytes wait, a forced close closes a connection that is still up |
| TcpConnections.TcpConnection.Keep | ryan_network/tcp_connection/tcp_connection.cc:148-161 | the rest is queued, write events are on, and the high-water callback is queued exactly when the mark is crossed |
| TcpConnections.TcpConnection.HandleWrite | ryan_network/tcp_connection/tcp_connection.cc:298-328 | exactly the bytes the system took move from the front of what waits to the wire; when nothing is left write events go off, the write-complete callback is queued and a pending half-close happens, and only then |
| TcpStates.Wire.DrainedIs | ryan_network/tcp_connection/tcp_connection.cc:298-328 | the function that describes it: the first n waiting bytes are on the wire, and the write side is shut exactly if the last one went while disconnecting |
| TcpConnections.TcpConnection.Shutdown | ryan_network/tcp_connection/tcp_connection.cc:165-170 | only a connected connection starts to disconnect; the half-close happens at once in the loop thread unless bytes wait, or is queued behind the payloads of other threads |
| TcpStates.Wire.AskedToShutIs | ryan_network/tcp_connection/tcp_connection.cc:165-177 | the function that describes it: what was accepted or is queued at that moment is what was promised |
| TcpConnections.TcpConnection.ShutdownInLoop | ryan_network/tcp_connection/tcp_connection.cc:172-177 | the write side is shut exactly if no write events are asked for |
| TcpStates.Wire.DrainedMeansWritten | ryan_network/tcp_connection/tcp_connection.cc:112-162 | while the connection is up and nothing waits, exactly the accepted bytes are on the wire, in order, whatever payloads a fault refused |
| TcpStates.Wire.EarlyHalfCloseIff | ryan_network/tcp_connection/tcp_connection.cc:172-177 | a half-close with no write events asked for shuts the write side, and everything accepted was written by then exactly if the connection is up or nothing waited when it closed |
| TcpStates.Wire.PromiseIff | ryan_network/tcp_connection/tcp_connection.cc:90-177 | what was passed to Send, in any thread, before Shutdown took effect is on the wire but for the payloads still queued when the write side was shut; so all of it exactly if none was |
| TcpStates.Wire.SentFromQueueOk | ryan_network/tcp_connection/tcp_connection.cc:108-162 | sending the payload at the head of the queue keeps the stream intact, write interest matched to waiting bytes, the pending shutdown, the order of the queue and the promise |
| TcpStates.Wire.DrainedOk | ryan_network/tcp_connection/tcp_connection.cc:298-328 | so does writing waiting bytes, half-closing when the last is gone |
| TcpStates.Wire.AskedToShutOk | ryan_network/tcp_connection/tcp_connection.cc:165-170 | so does Shutdown, in the loop thread or in another |
| TcpConnections.TcpConnection.ForceClose | ryan_network/tcp_connection/tcp_connection.cc:179-185 | a connection that is up is queued for closing |
| TcpConnections.TcpConnection.ForceCloseInLoop | ryan_network/tcp_connection/tcp_connection.cc:198-204 | closes a connection that is still up and does nothing otherwise |
| TcpConnections.TcpConnection.HandleRead | ryan_network/tcp_connection/tcp_connection.cc:279-296 | data runs the message callback once, an end of file closes, an error does nothing |
| TcpConnections.TcpConnection.HandleClose | ryan_network/tcp_connection/tcp_connection.cc:330-340 | for a connection that is up: disconnected, all interest gone, one down callback, the server told; for one that is not, the assertion fails |
| TcpConnections.TcpConnection.HandleEvent | ryan_network/net/channel.cc:59-92 | any report, also one fetched before another handler changed the interest: state, interest, wire and callbacks are exactly those of the close, the read and the write callback in this order; a report of writability while the connection is up and asks for it moves exactly the bytes the system took from the front of what waits to the wire, half-closing if that was pending and all is gone, and another report moves none; the assertion in HandleClose fails exactly for the reports `ClosesAgain` names, of which the system makes one to a closed connection only with epoll after a close without interest, or after reading was switched; the state only moves forward and the down callback has run once exactly when disconnected |
| TcpStates.Life.SecondCloseIff | ryan_network/net/epoll_poller.cc:70-87 | a closed connection can be closed a second time exactly if its descriptor is still watched: until it is removed, if reading was started again or, with epoll, if the updates without interest are even in number; unless reading was switched after the close, exactly with epoll when the channel had no interest left at the close |
| TcpStates.Life.UpWatchedIff | ryan_network/net/channel.h:47-71 | while the connection is up its descriptor is watched exactly when it has interest |
| TcpStates.Life.ReportedIs | ryan_network/net/channel.cc:59-92 | the close and the read callback of any report together: when the connection ends up closed, when it is closed twice, and why |
| TcpStates.Life.DestroyedOk | ryan_network/tcp_connection/tcp_connection.cc:270-277 | a final step removes the channel for the first time or fails the poller's assertion, exactly if the channel is gone already or has interest and the connection is not connected; without the server's end that takes a switch of reading after the close |
| TcpStates.Life.EndedIff | ryan_network/tcp_connection/tcp_server.cc:37-47 | of a connection the destructor finds in its map, the teardown completes exactly if it is connected when the queued step runs on its own loop; disconnecting it is not reported down, closed it has its erasure still to come or made by a server that is gone |
| TcpStates.Life.DoomedIff | ryan_network/tcp_connection/tcp_server.cc:37-47 | so the teardown can be completed exactly until the connection leaves the connected state, from the destructor on and before it |
| TcpStates.Life.MissedIff | ryan_network/tcp_connection/tcp_server.cc:37-47 | of a connection erased before, the final step completes the teardown exactly if the channel has no interest, as it has none unless reading was switched after the close |
| TcpConnections.TcpConnection.ConnectEstablished | ryan_network/tcp_connection/tcp_connection.cc:252-267 | the connection is connected and reads, and the up callback runs once |
| TcpConnections.TcpConnection.RemoveConnectionInLoop | ryan_network/tcp_connection/tcp_server.cc:110-117 | the connection leaves the map before a final step is queued; the call of a destroyed server is recorded |
| TcpConnections.TcpConnection.ServerDestroyed | ryan_network/tcp_connection/tcp_server.cc:37-47 | a final step is queued for a connection in the map, established, up or closed, and for no other |
| TcpConnections.TcpConnection.ConnectDestroyed | ryan_network/tcp_connection/tcp_connection.cc:270-277 | one final step, of whichever origin: disabled and reported down if still connected, then out of the poller, or the poller's assertion fails, and exactly when |
| TcpStates.Life.Finished | ryan_network/tcp_connection/tcp_connection.cc:270-277 | without the server's end: once a closed connection has nothing left to do the teardown is complete: each callback has run once, the channel has left its poller, and the server no longer knows it |
| TcpConnections.TcpConnection.RunSteps | ryan_network/tcp_connection/tcp_connection.cc:90-340 | any run of calls from any thread, queued functors, poller reports, switches of reading, erasures, final steps and the server's end: the state only moves forward; the wire and what waits make up exactly what was accepted; hang-ups with priority data alone, switches of reading after the close and the server's end aside, no assertion fails with poll, nor with epoll unless the connection closed without interest; and a teardown once doomed is never completed |
| TcpConnections.TcpConnection.AlwaysMoves | ryan_network/tcp_connection/tcp_connection.cc:90-340 | in such a run users may call at any moment, and what is queued, reported or asked of the server can happen |
| TcpConnections.LateHalfClose | ryan_network/tcp_connection/tcp_connection.cc:172-177 | a half-close after the connection closed can come before everything accepted is written |
| TcpConnections.LatePayload | ryan_network/tcp_connection/tcp_connection.cc:315-317 | a payload queued by another thread before it asked for the shutdown is never written, the write side having been shut when the waiting bytes drained |
| TcpConnections.ClosedTwice | ryan_network/tcp_connection/tcp_connection.cc:330-340 | with epoll: reading stopped, nothing waiting, a forced close, and a hang-up before the final step closes the connection a second time |
| TcpConnections.ClosedTwiceAtOnce | ryan_network/net/channel.cc:59-85 | with either backend: one hang-up with priority data, whose read meets the end of file, closes the connection twice |
| TcpConnections.StoppedLate | ryan_network/tcp_connection/tcp_connection.cc:242-248 | with epoll: the peer closes, reading is stopped before the final step, and a hang-up closes the connection a second time |
| TcpConnections.StartedLate | ryan_network/tcp_connection/tcp_connection.cc:230-236 | with either backend: reading is started again before the final step, whose assertion then fails |
| TcpConnections.ShutAfterEnd | ryan_network/tcp_connection/tcp_server.cc:44-45 | the server destroyed while a connection is connected, which its own loop shuts down before the final step: the poller's assertion fails |
| TcpConnections.NeverDown | ryan_network/tcp_connection/tcp_server.cc:44-45 | a disconnecting connection without interest leaves its poller, with nothing left to run and not reported down |
| TcpConnections.ErasedAfterEnd | ryan_network/tcp_connection/tcp_server.cc:106-117 | the server destroyed between the close and the erasure: it is called after its end, and a second final step fails the assertion |
| TcpConnections.EndedInTime | ryan_network/tcp_connection/tcp_server.cc:37-47 | the server destroyed before the connection is established: the teardown completes |
| Buffers.Buffer.MakeSpace | ryan_network/buffer/buffer.h:295-311 | for every unsigned length: whether it slides, grows, cuts the vector or throws; the buffer stays valid exactly unless a negative int is met by growing, its content then being the same; and when the wanted room is there |
| Buffers.EnoughIff | ryan_network/buffer/buffer.h:295-311 | for every unsigned length: whether the room made suffices once the length has been narrowed to an int |
| Buffers.RoomIs | ryan_network/buffer/buffer.h:295-311 | sliding makes the whole free part writable, growing exactly the narrowed length |
| Buffers.Narrowing | ryan_network/buffer/buffer.h:295-311 | the narrowed length is the one 32-bit integer equal to it modulo 2 to the power 32 |
| Buffers.NarrowedToNothing | ryan_network/buffer/buffer.h:295-311 | a length of four gibibytes makes no room at all |
| Buffers.Buffer.SlideDown | ryan_network/buffer/buffer.h:305-309 | copying onto itself downwards keeps the content |
| Buffers.Buffer.Append | ryan_network/buffer/buffer.h:139-143 | data of any length for which room can be made follows the content; the vector only grows or slides if it must |
| Buffers.Buffer.Prepend | ryan_network/buffer/buffer.h:262-267 | the data precedes the content |
| Buffers.Buffer.Retrieve | ryan_network/buffer/buffer.h:82-92 | the front of the content goes; asking for more takes all |
| Buffers.Buffer.RetrieveAsString | ryan_network/buffer/buffer.h:114-120 | the string returned followed by the content left is the old content |
| Buffers.Buffer.Shrink | ryan_network/buffer/buffer.h:269-275 | for any reserve the content stays, behind eight bytes, in the room of a new buffer or that asked for, whichever is more; it throws exactly if the room asked for is more than a new buffer has and narrows to a number below -8 |
| Buffers.Buffer.ReadFd | ryan_network/buffer/buffer.cc:22-68 | whatever the two-segment read delivered follows the content, whole and in order, and its length is returned; a failed read returns -1, stores the error and changes nothing |
| Buffers.Buffer.FindCRLF | ryan_network/buffer/buffer.h:52-56 | the first line end, or none when there is none |
| Buffers.Buffer.ReadInt | ryan_network/buffer/buffer.h:176-202 | the integer whose two's complement in network order the first bytes are; the rest stays |
| Buffers.Buffer.AppendInt | ryan_network/buffer/buffer.h:152-170 | the value's bytes, the most significant first, follow the content |
| Buffers.Buffer.PrependInt | ryan_network/buffer/buffer.h:242-260 | the value's bytes, the most significant first, precede the content |
| Bytes.EncodedByte | ryan_network/buffer/buffer.h:152-170 | network order: byte i of k counts the multiples of 256 to the power k - 1 - i, of negative numbers too |
| Bytes.OneEncoded | ryan_network/buffer/buffer.h:152-170 | one in four bytes is 0 0 0 1, minus two in two bytes 255 254 |
| Bytes.DecodeEncode | ryan_network/buffer/buffer.h:152-170 | a signed integer of any width survives the network order |
| Bytes.EncodeDecode | ryan_network/buffer/buffer.h:176-202 | and any bytes are the encoding of the integer read from them |
| Bytes.WrittenIsQueued | ryan_network/buffer/buffer.h:152-260 | appending and prepending integers builds the encoding of the queue of values |
| Bytes.MixedRoundTrip | ryan_network/buffer/buffer.h:152-260 | integers of mixed widths written at either end read back as the same values in order with nothing left |
| EventLoops.EventLoop.PushFromOther | ryan_network/net/event_loop.cc:131-135 | a functor from another thread joins the queue |
| EventLoops.EventLoop.WakeupFromOther | ryan_network/net/event_loop.cc:145-163 | and its wakeup makes the descriptor readable |
| EventLoops.EventLoop.QueueFromLoop | ryan_network/net/event_loop.cc:131-149 | a functor queued by the loop thread joins the queue, and while a batch is run its wakeup is written at once |
| EventLoops.EventLoop.HandleRead | ryan_network/net/event_loop.cc:165-171 | reading the descriptor leaves no count, and no functor unannounced |
| EventLoops.EventLoop.SwapPending | ryan_network/net/event_loop.cc:195-198 | everything queued becomes the batch |
| EventLoops.EventLoop.RunNext | ryan_network/net/event_loop.cc:200-202 | the functor run next is the next one in the order of queueing |
| EventLoops.EventLoop.Round | ryan_network/net/event_loop.cc:84-100 | an undisturbed round runs everything queued before it |
| EventLoops.EventLoop.NoLostWakeup | ryan_network/net/event_loop.cc:84-149 | when the loop is about to block with work left, the descriptor is readable or a thread is between its push and its wakeup |
| EventLoops.EventLoop.AlwaysMoves | ryan_network/net/event_loop.cc:84-205 | the loop thread is never stuck: at any moment exactly one of its steps is next, and other threads may push at any moment |
| EventLoops.EventLoop.RanInOrder | ryan_network/net/event_loop.cc:185-205 | in every run what has been run is a front part of what was queued |
| EventLoops.EventLoop.RunSteps | ryan_network/net/event_loop.cc:84-205 | any interleaving of the loop with other threads: nothing runs out of turn or twice, and no wakeup is lost at any moment |
| ThreadPools.ThreadPool.RunTask | ryan_network/base/thread_pool.cc:53-67 | without threads the caller runs the task; otherwise a producer waits exactly when the pool runs and is full, returns without effect when stopped, and else the task is accepted |
| ThreadPools.ThreadPool.Take | ryan_network/base/thread_pool.cc:69-84 | a worker waits exactly when the pool runs and is empty, and otherwise takes the oldest task if there is one |
| ThreadPools.ThreadPool.Stop | ryan_network/base/thread_pool.cc:36-46 | every waiting thread is woken |
| ThreadPools.ThreadPool.SpuriousWorker | ryan_network/base/thread_pool.cc:71-74 | a wakeup without a signal breaks nothing |
| ThreadPools.ThreadPool.QueuedTaskIsNoticed | ryan_network/base/thread_pool.cc:64-74 | while a task is queued, no worker sleeps or one is on its way; and not all of the pool's threads sleep |
| ThreadPools.ThreadPool.FreeSlotIsNoticed | ryan_network/base/thread_pool.cc:58-81 | while a slot is free, no producer sleeps or one is on its way |
| ThreadPools.ThreadPool.NeverAllAsleep | ryan_network/base/thread_pool.cc:53-84 | sleeping producers and workers at once mean that enough woken ones are on their way |
| ThreadPools.ThreadPool.AlwaysMoves | ryan_network/base/thread_pool.cc:53-84 | no deadlock: a queued task can be taken by a worker that was woken or does not wait |
| ThreadPools.ThreadPool.TakenInOrder | ryan_network/base/thread_pool.cc:53-84 | tasks are taken in the order in which they were accepted |
| ThreadPools.ThreadPool.RunSteps | ryan_network/base/thread_pool.cc:36-84 | any interleaving of producers, workers, stray wakeups and stopping keeps the order, the signals and the bound of the queue; after stopping nothing is accepted and nobody sleeps |
| HttpContexts.HttpContext.ProcessRequestLine | ryan_network/http/http_context.cc:6-43 | method, target and version are found, and what a refused line leaves behind is what the code leaves |
| HttpContexts.AcceptedIff | ryan_network/http/http_context.cc:6-43 | a line is accepted exactly if it is GET, POST, HEAD, PUT or DELETE, a space, a target without a space, a space, and HTTP/1.0 or HTTP/1.1 |
| HttpContexts.AcceptedIs | ryan_network/http/http_context.cc:6-43 | and then gives the method and the version named, and the target cut before its first question mark |
| HttpContexts.RefusedIs | ryan_network/http/http_context.cc:6-43 | a refused line sets no version and no header, and nothing at all without a space |
| HttpContexts.RefusedStays | ryan_network/http/http_context.cc:50-66 | a refused line stays in the buffer and a request line is still expected |
| HttpContexts.HttpContext.AddHeader | ryan_network/http/http_request.h:78-91 | the two loops trim white space from both ends of the value |
| HttpContexts.TrimmedIs | ryan_network/http/http_request.h:80-90 | what is left of a value has no blank, tab or line, page or return character at either end, and only those were cut off |
| HttpContexts.HttpContext.ParseRequest | ryan_network/http/http_context.cc:46-98 | the loop computes the parsing function of the buffer's content and ends; the result tells whether this call accepted the request line |
| HttpContexts.StepSplit | ryan_network/http/http_context.cc:49-96 | with a line end in view, bytes that arrive later do not change the turn |
| HttpContexts.ParseSplit | ryan_network/http/http_context.cc:46-98 | parsing a part and then the rest is parsing everything |
| HttpContexts.ChunksDoNotMatter | ryan_network/http/http_context.cc:46-98 | however the bytes are cut up, state, request and leftover bytes come out the same |
| HttpContexts.PrintParse | ryan_network/http/http_context.cc:6-98 | printing a well-formed request (RFC 9112, sections 3 and 5) and parsing it gives it back and leaves exactly what follows |
| HttpContexts.PrintFeed | ryan_network/http/http_context.cc:6-98 | in however many pieces it arrives |
| HttpContexts.HeadersEnd | ryan_network/http/http_context.cc:71-96 | header lines are read up to and with the first one without a colon; without such a line all complete lines are read and the request stays open |
| HttpContexts.RequestEndsIff | ryan_network/http/http_context.cc:46-98 | however a text is cut up: the request is complete exactly if a line without a colon follows an accepted request line, and what is left starts right after the first such line |
| HttpContexts.EndsAtEmptyIff | ryan_network/http/http_context.cc:79-86 | a request with an empty line ends at that line exactly if every header line before it has a colon |
| HttpContexts.ColonlessEnds | ryan_network/http/http_context.cc:79-86 | a non-empty line without a colon ends the request too; what follows, headers included, is left over |
| HttpContexts.HeaderLost | ryan_network/http/http_context.cc:79-86 | a text whose header after a line "x" is not read |
| HttpContexts.HeaderRead | ryan_network/http/http_context.cc:71-96 | the same request without that line: its header is read |
| HttpContexts.MethodBack | ryan_network/http/http_request.h:19-62 | method names and methods correspond |
| HttpContexts.TargetRead | ryan_network/http/http_context.cc:18-27 | the path and the query of a printed target are read back |
| HttpContexts.TargetSplit | ryan_network/http/http_context.cc:18-27 | any target is cut before its first question mark, path and query together being the target; without one the query stays as it was |
| HttpContexts.HeaderMapHas | ryan_network/http/http_request.h:78-101 | every header printed under a name of its own can be looked up |
| HttpContexts.LineAgain | ryan_network/http/http_context.cc:50-66 | reading a refused line again changes nothing more |
| Channels.ChangeDoes | ryan_network/net/channel.h:47-71 | each change of interest turns on or off exactly the bits of input and priority data, or that of output, and leaves the others alone |
| Channels.BackendsAgreeIff | ryan_network/net/epoll_poller.cc:66-107 | after any history of updates both systems watch a channel or neither does, unless it was without interest at several updates in a row of which the last made epoll add it again |
| PollSlots.Table.RegisteredOk | ryan_network/net/poll_poller.cc:55-65 | a new slot keeps slots, indices and map one to one |
| PollSlots.Table.UpdatedOk | ryan_network/net/poll_poller.cc:66-81 | so does rewriting a slot, ignored without interest |
| PollSlots.Table.RemovedOk | ryan_network/net/poll_poller.cc:95-108 | so does moving the last slot, ignored or not, into the gap |
| PollSlots.Table.RemovedBijection | ryan_network/net/poll_poller.cc:95-108 | one slot less, the last one in the gap and the others in place |
| PollSlots.Table.EffectiveIsInterest | ryan_network/net/poll_poller.cc:52-82 | beside error and hang-up, poll is asked for exactly the interest of every registered descriptor and for nothing else |
| PollSlots.Table.WatchedIff | ryan_network/net/poll_poller.cc:52-82 | poll watches a descriptor at all exactly when it has interest, or was registered without and left alone since |
| PollSlots.Table.IgnoredIff | ryan_network/net/poll_poller.cc:89-94 | the assertion on the slot of a channel without interest holds exactly unless it was registered without interest and left alone since |
| PollPollers.IdleRegistration | ryan_network/net/poll_poller.cc:89-94 | a channel registered without interest and left alone: removing it fails the assertion |
| PollSlots.FlaggedPrefix | ryan_network/net/poll_poller.cc:37-40 | the early end of the walk misses no flagged slot |
| PollSlots.FlaggedIs | ryan_network/net/poll_poller.cc:37-40 | the flagged slots are exactly those with reported events, each once and in order |
| PollPollers.PollPoller.UpdateChannel | ryan_network/net/poll_poller.cc:52-82 | the descriptor's interest becomes the channel's, all else stays; the slot is rewritten, with the complement of the descriptor if there is no interest, or added at the end |
| PollPollers.PollPoller.RemoveChannel | ryan_network/net/poll_poller.cc:84-109 | the descriptor leaves the map of interests, all else stays; the last slot has moved into the gap |
| PollPollers.PollPoller.ChangeInterest | ryan_network/net/channel.h:47-66 | after each change the poller's map agrees with every channel; the slot asks poll for input (1) and priority data (2) when reading, output (4) when writing |
| PollPollers.PollPoller.RunSteps | ryan_network/net/poll_poller.cc:52-109 | any legal sequence of changes and removals leaves slots, indices, map and channels in agreement |
| PollPollers.PollPoller.LegalIff | ryan_network/net/poll_poller.cc:84-94 | a registered channel may always change, and may leave exactly without interest and unless it was registered so and left alone since |
| PollPollers.PollPoller.Poll | ryan_network/net/poll_poller.cc:16-33 | the active channels are exactly those whose slots the system flagged, in slot order, each with what it reported |
| PollPollers.PollPoller.FillActiveChannels | ryan_network/net/poll_poller.cc:35-50 | in slot order, each with its own report |
| EpollPollers.EpollPoller.UpdateChannel | ryan_network/net/epoll_poller.cc:66-107 | the descriptor's interest becomes the channel's: added, changed or, without interest, deleted in the system's set; every epoll_ctl call is one the system accepts |
| EpollPollers.EpollPoller.ChangeInterest | ryan_network/net/channel.h:47-66 | after each change the system's set agrees with the channel, which asks for input (1) and priority data (2) when reading, output (4) when writing |
| EpollPollers.EpollPoller.RemoveChannel | ryan_network/net/epoll_poller.cc:120-141 | the descriptor leaves both sets and the channel is new again |
| EpollPollers.EpollPoller.RunSteps | ryan_network/net/epoll_poller.cc:66-141 | any legal sequence of changes and removals leaves the system's set, the map and the channels in agreement |
| EpollPollers.EpollPoller.Poll | ryan_network/net/epoll_poller.cc:31-60 | the active channels are those reported, in order; the event list doubles when full; after a failed epoll_wait, whose -1 becomes a huge unsigned count, nothing is active and nothing grows |
| EpollPollers.EpollPoller.EffectiveIsInterest | ryan_network/net/epoll_poller.cc:143-159 | beside error and hang-up, the system is asked for exactly the interest of every registered descriptor |
| EpollPollers.EpollPoller.WatchedIff | ryan_network/net/epoll_poller.cc:66-107 | the system's set has a descriptor exactly when it has interest, or has had none at so many updates in a row that the last added it again |
| Pollers.SameEvents | ryan_network/net/epoll_poller.cc:66-141 | asked the same, poll and epoll are asked for the same events of every descriptor, those of its channel |
| Pollers.SameWatchIff | ryan_network/net/poll_poller.cc:52-82 | asked the same, both watch a descriptor at all or neither does, exactly unless it was without interest at several updates in a row of which the last made epoll add it again |
| Pollers.DisabledTwice | ryan_network/net/epoll_poller.cc:70-87 | reading enabled, disabled, and everything disabled: epoll watches the descriptor for no events, poll ignores it |
| TimerOrder.InsertedSorted | ryan_network/timer/timer_queue.cc:153-166 | insertion keeps the set ordered by time and address |
| TimerOrder.InsertedFirst | ryan_network/timer/timer_queue.cc:155-160 | the earliest time changes exactly when the new one is earlier |
| TimerOrder.DueSplit | ryan_network/timer/timer_queue.cc:109-112 | the search for the sentry splits the set into what is due and what is not |
| TimerOrder.TimespecExact | ryan_network/timer/timer_queue.cc:78-89 | the delay in seconds and nanoseconds is exact, in range and never zero |
| TimerOrder.Timer.DeltaIs | ryan_network/base/timestamp.h:57-62 | an interval of n seconds is n million microseconds, and any other rounded down to a whole one |
| TimerOrder.Timer.Restart | ryan_network/timer/timer.cc:3-9 | a timer with an interval expires that many seconds later, to the microsecond; another is not started again |
| TimerQueues.TimerQueue.AddTimerInLoop | ryan_network/timer/timer_queue.cc:60-68 | the timer joins the set, at rest or during callbacks; the alarm is set for it if it is the earliest and left alone otherwise, so it is right afterwards exactly if it was or the timer is the earliest |
| TimerQueues.TimerQueue.ResetTimerfd | ryan_network/timer/timer_queue.cc:71-94 | the alarm goes off at the expiration or 100 microseconds from now, whichever is later |
| TimerQueues.TimerQueue.Fire | ryan_network/timer/timer_queue.cc:90-93 | an alarm that was right goes off no earlier than the earliest expiration |
| TimerQueues.TimerQueue.GetExpired | ryan_network/timer/timer_queue.cc:106-115 | exactly the timers due at the time leave the set, in ascending order |
| TimerQueues.TimerQueue.RunNext | ryan_network/timer/timer_queue.cc:125-127 | a timer runs no earlier than its expiration, and a one-shot timer never again |
| TimerQueues.TimerQueue.Reset | ryan_network/timer/timer_queue.cc:134-151 | timers with a positive interval are put back that many seconds, in microseconds, after the time read for them, the others are deleted, and the alarm is right if any ran |
| TimerQueues.TimerQueue.HandleRead | ryan_network/timer/timer_queue.cc:117-132 | exactly the due timers run, in order, whatever the callbacks add, and are put back or deleted by their intervals; the alarm is right afterwards exactly if no timer was waiting, or one was due, or it was right and had not gone off |
| TimerQueues.LostAlarm | ryan_network/timer/timer_queue.cc:117-132 | a timer waits, the alarm has gone off for it, and the clock reads one microsecond too early: nothing is left to wake the loop |
| TimerQueues.TimerQueue.RunsRight | ryan_network/timer/timer_queue.cc:117-151 | in every run nothing runs early and no one-shot timer twice |
| AsyncLoggings.AsyncLogging.Append | ryan_network/logger/async_logging.cc:24-43 | there is always a buffer to fill; a record shorter than a buffer is kept whole and in order, a longer one is dropped |
| AsyncLoggings.AsyncLogging.Test | ryan_network/logger/async_logging.cc:56 | the loop goes on while the logger runs, looking without the lock |
| AsyncLoggings.AsyncLogging.Collect | ryan_network/logger/async_logging.cc:57-74 | also when the logger was stopped after the loop had looked: two spare buffers are at hand, everything filled is taken over, and the front end has empty buffers again |
| AsyncLoggings.AsyncLogging.WriteNext | ryan_network/logger/async_logging.cc:76-79 | the used part of the next buffer is handed over |
| AsyncLoggings.AsyncLogging.ReturnBuffers | ryan_network/logger/async_logging.cc:81-100 | no empty vector is popped and two empty spare buffers are back |
| AsyncLoggings.AsyncLogging.WrittenInOrder | ryan_network/logger/async_logging.cc:24-102 | in every run the used parts handed over are a front part of what the last round collected, which is a front part of what was appended; between rounds they are all that was collected |
| AsyncLoggings.AsyncLogging.AlwaysMoves | ryan_network/logger/async_logging.cc:45-104 | until it has gone the back end is never stuck: exactly one of its steps is next |
| AsyncLoggings.AsyncLogging.CompleteIff | ryan_network/logger/async_logging.cc:56-104 | once the back end has gone the used parts handed over are exactly what its last round collected, and everything appended exactly if nothing was appended after that |
| AsyncLoggings.AsyncLogging.RunSteps | ryan_network/logger/async_logging.cc:24-104 | any interleaving of front-end threads, the back end and stopping loses, repeats and reorders nothing |
| AsyncLoggings.AsyncLogging.Round | ryan_network/logger/async_logging.cc:57-102 | an undisturbed round hands over the used parts of everything appended before it, also after a stop |
| AsyncLoggings.LostRecord | ryan_network/logger/async_logging.cc:56-104 | a record appended after the last round and before Stop is never handed over |
| AsyncLoggings.StoppedInTime | ryan_network/logger/async_logging.cc:56-104 | stopped between the loop's look and its lock, everything is still handed over |
| FixedBuffers.FixedBuffer.Append | ryan_network/buffer/fixed_buffer.h:20-26 | a text that leaves a spare place is added, another is dropped whole |
| Numerals.DecimalIff | ryan_network/logger/log_stream.cc:14-35 | the decimal text of a number is the one canonical text with that value |
| Numerals.HexIff | ryan_network/logger/log_stream.cc:101-112 | the same for hexadecimal numerals |
| Numerals.DigitAt | ryan_network/logger/log_stream.cc:23-27 | digit i from the right is that of the number divided by the i-th power of the base |
| Numerals.NumeralLength | ryan_network/logger/log_stream.cc:14-35 | a number below a power of the base has no more digits than the exponent |
| LogStreams.DigitOf | ryan_network/logger/log_stream.cc:24-26 | truncating division and the mirrored table give the last digit of the absolute value, also of negative numbers |
| LogStreams.NumberLength | ryan_network/logger/log_stream.cc:16 | 64-bit numbers have at most 20 decimal and 16 hexadecimal digits |
| LogStreams.ReverseInPlace | ryan_network/logger/log_stream.cc:32 | swapping from both ends reverses the stretch and touches nothing else |
| LogStreams.PrintDigits | ryan_network/logger/log_stream.cc:23-27 | the loop writes the numeral of the absolute value backwards |
| LogStreams.LogStream.FormatInteger | ryan_network/logger/log_stream.cc:15-35 | every signed and unsigned 64-bit value, the least included, is added as its decimal text, which fits in 48 characters with its terminator; without that room nothing happens |
| LogStreams.ConvertHex | ryan_network/logger/log_stream.cc:101-112 | the hexadecimal numeral of the address, terminated |
| LogStreams.LogStream.WriteAddress | ryan_network/logger/log_stream.cc:114-124 | 0x and the numeral, within 48 characters |

## Left out

- MemoryPools.MemoryPool.constructor: fresh blocks start with count, failures and next link zero, as the code needs; it does not set them itself.
- MemoryPools.MemoryPool.FreeMemory: only for pointers the pool handed out and that were not given back; for others the code does nothing useful.
- MemoryPools.MemoryPool.Malloc: the contents of the memory, and so the zeroing in Calloc, are not modelled; DestroyPool is not either.
- PoolBlocks.Align: the pool's addresses are numbers; additions that wrap around 64 bits are left out.
- TcpConnections.TcpConnection.SendInLoop: the overload of Send that passes a raw pointer to the loop thread is not modelled, the one that copies is; appending what finds no room, which the code would write past the end, is excluded by the requirement.
- TcpConnections.TcpConnection.ServerDestroyed: final steps run in any order with the other functors queued for the connection, which includes the order of the queue; a call of a destroyed server is recorded and then taken as if the server were still there.
- TcpConnections.TcpConnection.HandleRead: the input buffer is left out, reading into one being `Buffers.Buffer.ReadFd`; calls of the message callback are counted.
- TcpConnections.TcpConnection.ForceClose: the delayed variant, which only puts a timer before it, is left out.
- TcpConnections.TcpConnection.StartReadInLoop: not before the connection is established. A run ends where a removed channel is registered anew, by a switch of reading, a send or a close: poll fails an assertion there, and what epoll reports for such a channel is not modelled.
- Buffers.Buffer.MakeSpace: sliding with less than eight bytes in front of the content, where the copy overlaps its source from below, is excluded; only a narrowed length leads there.
- Buffers.Buffer.Shrink: content above 2147483647 bytes is excluded: the new buffer has no room for it and the copy runs past its end.
- EventLoops.EventLoop.Round: Quit, and functors queued before Loop starts, are left out: Quit wakes the loop only from its own thread.
- ThreadPools.ThreadPool.RunTask: exceptions thrown by tasks are left out.
- HttpContexts.HttpContext.ParseRequest: receive times are left out, and a context in the body state or already complete is excluded: the loop would not end.
- PollPollers.PollPoller.UpdateChannel: a channel removed before is not used again, its slot number being out of date.
- TimerOrder.TimespecExact: times are unbounded numbers of microseconds; overflow of 64 bits is left out, and interval arithmetic is on real numbers.
- TimerQueues.TimerQueue.AddTimerInLoop: no two live timers share an address, and none is stored at the very last address.
- AsyncLoggings.AsyncLogging.Append: buffers are owned by one pointer at a time, so they are modelled by the text in their used part; the model does not show their addresses. What the code hands to the file is the whole array, not the used part.
- FixedBuffers.FixedBuffer.Append: Length and ToString return the whole array and are left out.
- LogStreams.LogStream.FormatInteger: printing of floating-point numbers is left out.
- MySQL connection pool, TcpServer's naming and loop selection, Acceptor, InetAddress, Timestamp formatting, log files and their rolling, CountDownLatch and the example servers: wrappers around the system or easy members.
