# Verification of xio's buffers, handlers and log rewriter

A Dafny 4.11 model of four parts of xio, with proofs about every run of each.
`dafny verify dfyconfig.toml` checks the whole project.

**`basic_streambuf`** (`StreambufSpec`, `Streambuf`).  A byte queue in one growable array.
`BasicStreambuf` is the class with its six positions as offsets and all arithmetic on a
64-bit `size_t` type whose operations carry the obligation not to wrap.  Its methods are
proved against functions on the array cut at `gptr` and `pptr`; those are proved to be a
bounded FIFO over every run.

**`basic_socket_streambuf`** (`Clock`, `SocketSpec`, `SocketConnect`, `SocketStream`,
`SocketEffects`, `SocketStreambuf`).  A buffered stream over a non-blocking socket.  The answers of the clock,
`recv`, `send`, `poll_*`, `connect` and `getsockopt` are arbitrary sequences of rounds given
to each operation; a sequence that ends too early stands for a call that has not come back.
A position is null or a place in a vector's storage, so that swapping vectors between
objects is modelled as it happens.

**`any_completion_handler`** (`AlignedBlocks`, `HandlerHeap`, `Ownership`,
`CompletionHandler`).  Over-aligned memory whose base offset is hidden in the bytes behind
the user's, down to bytes; and type-erased unique ownership, with the statements of a call as
separate steps between which anything else may happen.

**`scripts/replace_raft_logs.py`** (`Lexer`, `Tokens`, `Splitter`, `Format`, `Rewriter`,
`Closing`, `Remains`).  The scanner, the argument splitter, the format conversion and the call rewriter;
where the brackets of an emitted call close, and which calls are left in the result.

Errors that the code throws or raises are result values.  `Option`, `Ret` and `Outcome` values
say which.

Some results are about things the code does not do.  Each has its exact condition, and an
input that shows it:

- A `prepare` that throws has already moved the unread bytes (`ThrowKeepsContentsIff`,
  `ThrowCanLoseData`).
- `close` reports success although its flush failed, `connect` drops what is pending, and a
  move starts the put area behind the pending characters (`CloseKeepsOutputIff`,
  `CloseCanLoseOutput`, `ConnectKeepsOutputIff`, `ConnectCanLoseOutput`, `MoveKeepsOutputIff`,
  `PoolStepLawfulIff`, `MoveCanLoseOutput`).  `PoolRunSound` accounts for every character, lost
  ones included.
- `connect` reports success when the time it may wait has run out (`SuccessIff`,
  `SuccessCanMislead`).
- `allocate` grants memory outside its block when the number of bytes or the addition of the
  cell wraps around and the sum of size and alignment does not (`OverrunIff`,
  `OverrunCanHappen`, `ManyObjectsOverrun`; `RunIsSafe` of `HandlerHeap` for whole runs), and
  loses a block when it throws (`ThrowLosesBlock`).
- A called wrapper keeps its function table, the table moves with its content, and an
  associated allocator keeps both pointers; asking such a wrapper, or an allocator whose object
  is gone, uses the table on no live object (`LeftoverIffCalled`, `DeadIffFreedSince`,
  `FaultIffAsksLeftover`, `MovedLeftoverFaults`, `DeadAllocatorFaults`).
- An emitted call is not closed where it ends when the level mixes kinds of brackets
  (`EmittedClosesIff`, `MixedBracketsDoNotClose`), and calls inside the arguments of other calls
  are left (`NoneLeftIff`, `NestedCallIsLeft`).

The comments of `expires_at` (`xio/basic_socket_streambuf.h:225-228`) announce the error
`operation_aborted`; the code sets `timed_out`, and so does the model.

## Model

| member | source | states |
|---|---|---|
| StreambufSpec.RunIsFifo | xio/basic_streambuf.h:172-305 | in every run of allowed uses the readable bytes are those of a bounded FIFO, prepared memory holds what the caller stored, and the next step throws exactly when the FIFO refuses it |
| StreambufSpec.StepSimulates | xio/basic_streambuf.h:193-305 | one step: commit appends the stored bytes, overflow one byte, consume drops from the front, shifting and growing change nothing |
| StreambufSpec.FillAppends | xio/basic_streambuf.h:193-215 | prepare, storing bytes and committing their number appends exactly those bytes, from any state that has room |
| StreambufSpec.RunWithin | xio/basic_streambuf.h:58-64 | `size() <= max_size()` after every run, thrown steps included |
| StreambufSpec.ReserveThrowsIff | xio/basic_streambuf.h:188-197 | prepare throws if and only if size + n > max_size, and otherwise keeps the input sequence |
| StreambufSpec.PutThrowsIffFull | xio/basic_streambuf.h:255-272 | overflow throws if and only if the queue is full, then changes nothing; otherwise it appends, whichever amount it reserves |
| StreambufSpec.ReserveShape | xio/basic_streambuf.h:274-305 | a request that fits behind the unread bytes changes nothing; any other that is met moves them to the front, and the array grows only if it must and then to exactly what is asked for |
| StreambufSpec.PutGrowth | xio/basic_streambuf.h:255-272 | a new buffer has room for min(128, max_size); writing to one without room leaves an array of the old length or min(max_size, size + 128), whichever is longer, and nothing dead in front |
| StreambufSpec.ThrowEffect | xio/basic_streambuf.h:285-300 | what the readable bytes are after a prepare that threw: the first g are lost and the last g repeated, g being the number consumed since the last shift |
| StreambufSpec.ThrowKeepsContentsIff | xio/basic_streambuf.h:285-300 | a throwing prepare keeps every content of that size if and only if g is zero or at least the size |
| StreambufSpec.ThrowCanLoseData | xio/basic_streambuf.h:285-300 | a reachable buffer whose contents a refused prepare changes |
| Streambuf.BasicStreambuf.constructor | xio/basic_streambuf.h:115-124 | an empty queue with room for min(max_size, 128), and an array of at least one byte |
| Streambuf.BasicStreambuf.Size | xio/basic_streambuf.h:141-143 | the number of unread bytes, without wrap-around |
| Streambuf.BasicStreambuf.Data | xio/basic_streambuf.h:172-175 | exactly the unread bytes |
| Streambuf.BasicStreambuf.Prepare | xio/basic_streambuf.h:193-197 | throws if and only if the bound forbids it, otherwise leaves n writable bytes at the put position and the contents as they were |
| Streambuf.BasicStreambuf.Commit | xio/basic_streambuf.h:211-215 | moves min(n, room) bytes from the output to the input sequence |
| Streambuf.BasicStreambuf.Consume | xio/basic_streambuf.h:224-230 | drops min(n, size) bytes from the front, also when the get area lags behind |
| Streambuf.BasicStreambuf.Underflow | xio/basic_streambuf.h:239-246 | the first unread byte, or eof exactly when there is none; closes the lag of the get area |
| Streambuf.BasicStreambuf.Overflow | xio/basic_streambuf.h:255-272 | appends the character, or throws exactly when full and then changes neither contents nor positions; eof changes nothing |
| Streambuf.BasicStreambuf.Reserve | xio/basic_streambuf.h:274-305 | the array after the shift and the growth, byte for byte; a throw keeps every position and the array's length; no size_t operation wraps, even for the largest max_size |
| Streambuf.BasicStreambuf.ReadSize | xio/basic_streambuf.h:312-317 | no unsigned underflow; at most 512 or the spare capacity, whichever is larger, and at least that unless the limit or the bytes left up to max_size are fewer, which are then the size; it never makes prepare throw, and is zero if and only if the limit is zero or the buffer full |
| Streambuf.BasicStreambuf.Sbumpc | xio/basic_streambuf.h:239-246 | reading a character takes the first unread byte, whether or not the get area lags behind |
| Streambuf.BasicStreambuf.Sputc | xio/basic_streambuf.h:255-272 | writing a character appends it unless the queue is full |
| Streambuf.BasicStreambuf.Replay | xio/basic_streambuf.h:103-318 | any sequence of uses of the class does what the run lemmas speak of, and keeps its positions in order |
| Clock.Add | xio/detail/chrono_time_traits.h:58-70 | the sum of time and duration, clamped to the 64-bit range, for all arguments and without intermediate overflow |
| Clock.Subtract | xio/detail/chrono_time_traits.h:73-97 | the difference of two times, clamped to the 64-bit range, for all arguments and without intermediate overflow |
| Clock.Timeout | xio/basic_socket_streambuf.h:398-407 | a poll never waits past the expiry time, is zero once it has come, and otherwise leaves less than a millisecond unless it is as long as an int can say |
| SocketSpec.FlushSends | xio/basic_socket_streambuf.h:317-347 | a sending loop succeeds if and only if it sent everything; otherwise it sent a strict prefix |
| SocketSpec.FlushIff | xio/basic_socket_streambuf.h:317-347 | a run of the sending loop, round by round, both ways: every round in front of the last was in time and sent something, or met would_block or try_again and polled without failing; it fails exactly in a round that is late (timed_out), sends nothing (no error), meets any other error or cannot poll (with that error), and succeeds exactly when the rounds together sent everything; what it sent is the sum of the rounds |
| SocketSpec.NothingSentLate | xio/basic_socket_streambuf.h:318-322 | no send follows a clock reading past the expiry, and the loop ends there with timed_out |
| SocketSpec.FlushTerminates | xio/basic_socket_streambuf.h:317-347 | with a clock that advances while the socket is not ready, the sending loop ends within unsent bytes plus ticks left |
| SocketSpec.LastMillisecond | xio/basic_socket_streambuf.h:343-346 | after a poll that waited in vain as long as `timeout` said, with its own reading of the clock, every later round falls in the last millisecond before the expiry or behind it |
| SocketSpec.RefillIff | xio/basic_socket_streambuf.h:258-295 | a run of the receiving loop, round by round, both ways: every round in front of the last was in time, met would_block or try_again and polled without failing; it fails exactly in a round that is late (timed_out), has no data (eof), meets any other error or cannot poll (with that error), and otherwise delivers the data of its last round |
| SocketSpec.NothingReceivedLate | xio/basic_socket_streambuf.h:259-263 | no recv follows a clock reading past the expiry |
| SocketSpec.RefillTerminates | xio/basic_socket_streambuf.h:258-295 | with such a clock the receiving loop ends within the ticks left |
| SocketConnect.ConnectToEndpoints | xio/basic_socket_streambuf.h:415-472 | for any answers: the error that `ConnectErrorIff` describes; how many endpoints are touched, in order, by which one decides and whether it was late; the socket is open for at most the last of them |
| SocketConnect.ConnectErrorIff | xio/basic_socket_streambuf.h:415-472 | in terms of what each endpoint answered, the error is e if and only if e is what the first endpoint stops with that was not turned away in time with an error of open, connect, poll or SO_ERROR: timed_out if it was late, the error of getsockopt if that failed, none otherwise; or all were turned away, the last one with e; or there is none and e is not_found |
| SocketConnect.SuccessIff | xio/basic_socket_streambuf.h:415-472 | the error is clear if and only if the first endpoint that is not turned away was in time, opened, and connected at once or was in progress or would block, did not fail to poll and has SO_ERROR clear; it is a connection if and only if that endpoint connected at once or its poll did not run out of time |
| SocketConnect.SuccessCanMislead | xio/basic_socket_streambuf.h:452-469 | an endpoint that never answers: no error, and no connection |
| SocketStream.AttemptSends | xio/basic_socket_streambuf.h:306-347 | a successful flush puts exactly the offered bytes on the wire, a failed one a strict prefix of them |
| SocketStream.OverflowLawful | xio/basic_socket_streambuf.h:299-363 | flushing keeps the law of the wire; a failed flush leaves the put area as it was, a successful one empties it and takes in the character |
| SocketStream.UnderflowLawful | xio/basic_socket_streambuf.h:250-297 | refilling keeps the law of the reader; a failing one leaves the get area as it was |
| SocketStream.StepLawful | xio/basic_socket_streambuf.h:162-396 | every operation, connecting by endpoint or by name included, keeps both laws and the sizes of the areas, whatever the system answers |
| SocketStream.RunLawful | xio/basic_socket_streambuf.h:162-396 | over every run: the wire is the concatenation of the attempts, accepted characters are those delivered then those pending, and a failed flush is repeated from its first byte |
| SocketStream.WireAndReader | xio/basic_socket_streambuf.h:162-396 | from construction, through any number of connections: with no failed flush since the last reset, wire plus pending equals accepted; always, read plus unread equals received |
| SocketStream.CloseKeepsOutputIff | xio/basic_socket_streambuf.h:192-198 | a close that reports success is sure to have delivered all accepted characters if and only if none was pending, whatever failed before |
| SocketStream.CloseKeepsWireIff | xio/basic_socket_streambuf.h:192-198 | if no flush failed before, the same of the bytes on the wire |
| SocketStream.CloseCanLoseOutput | xio/basic_socket_streambuf.h:192-198 | a written character whose flush is refused, and a close that reports success |
| SocketStream.ConnectKeepsOutputIff | xio/basic_socket_streambuf.h:162-167 | connect enters what is pending as lost, whether it succeeds or not, and nothing exactly when nothing is pending |
| SocketStream.ConnectCanLoseOutput | xio/basic_socket_streambuf.h:162-167 | a written character that connecting again drops |
| SocketStream.RunSound | xio/basic_socket_streambuf.h:162-396 | over every run of one stream, through any number of connections: what was accepted is, in order, what was delivered or lost at a connect or close, and then what is pending; without a loss it is what was delivered and then what is pending |
| SocketStream.MoveKeepsOutputIff | xio/basic_socket_streambuf.h:124-125 | a move keeps the law of the wire if and only if no output was pending |
| SocketStream.MoveCanLoseOutput | xio/basic_socket_streambuf.h:124-125 | a written character that a move drops |
| SocketStream.PoolRunSound | xio/basic_socket_streambuf.h:101-396 | over every run of constructing, connecting, using, moving, closing and destroying any number of objects: for every stream, live or given up, the characters accepted are, in order, those delivered or lost, entry by entry with the place of the loss, and then those pending; and each reader misses nothing |
| SocketStream.PoolStepLawfulIff | xio/basic_socket_streambuf.h:117-147 | among lawful objects a step leaves every object lawful if and only if it does not move a stream with output pending to another object |
| SocketStream.PoolRunLawful | xio/basic_socket_streambuf.h:101-396 | over every run that never does so, every object keeps both laws in full |
| SocketEffects.BufferedOverflow | xio/basic_socket_streambuf.h:299-363 | what the rounds sent is on the wire, their error is the error, and the result says how they ended; the put area is whole again if all was sent, with the character at its start, and untouched if not |
| SocketEffects.UnbufferedOverflow | xio/basic_socket_streambuf.h:299-363 | without a buffer the character itself is sent, and accepted if and only if it was; eof does nothing |
| SocketEffects.UnderflowEffect | xio/basic_socket_streambuf.h:250-297 | a get area that is not empty is refused without receiving; otherwise it holds the data of the last round, with the error and result the rounds end with |
| SocketEffects.GetReturnsTaken | xio/basic_socket_streambuf.h:250-297 | reading a character returns c if and only if c is the one handed to the reader |
| SocketEffects.GetTakesFirst | xio/basic_socket_streambuf.h:250-297 | and it is the first unread one, or the first received if there was none |
| SocketEffects.SetUnbufferedIff | xio/basic_socket_streambuf.h:369-378 | refused, without effect, if and only if output is pending |
| SocketEffects.CloseEffect | xio/basic_socket_streambuf.h:192-198 | pending bytes are sent as far as the rounds go; if the socket closes, both areas are empty and the pending bytes are on record as delivered or lost; if it does not, nothing is reset and the error is its answer |
| SocketEffects.CloseUnbuffered | xio/basic_socket_streambuf.h:192-198 | the same without a put buffer, when nothing is sent |
| SocketEffects.ConnectEffect | xio/basic_socket_streambuf.h:162-186 | both areas are empty and whatever was pending is lost; the error is that of resolving the name, or of the endpoints as `ConnectErrorIff` describes it |
| SocketEffects.DestroyedSends | xio/basic_socket_streambuf.h:150-153 | the destructor sends pending bytes as far as the rounds go |
| SocketEffects.MoveCarries | xio/basic_socket_streambuf.h:117-129 | error, expiry, unread characters and history go along; pending characters are lost |
| SocketEffects.NoneForgotten | xio/basic_socket_streambuf.h:117-153 | a step on any number of objects loses sight of no stream: each goes on in an object or is given up, with its books continued, and a stream is given up exactly by a move assignment or a destruction that came back |
| SocketEffects.NoneForgottenInRun | xio/basic_socket_streambuf.h:101-396 | the same over every run |
| SocketEffects.PoolStepEffect | xio/basic_socket_streambuf.h:117-153 | an object goes if and only if its destructor came back; a move leaves the initial state behind, and happens only once the target is closed; other objects are untouched |
| SocketStreambuf.Streambuf.constructor | xio/basic_socket_streambuf.h:101-106 | the initial buffered state, positions in the object's own vectors of 512 bytes |
| SocketStreambuf.Streambuf.InitBuffers | xio/basic_socket_streambuf.h:387-396 | both areas empty, in the object's own vectors |
| SocketStreambuf.Streambuf.SendLoop | xio/basic_socket_streambuf.h:317-347 | the loop ends as `FlushIff` describes for every sequence of answers, and appends exactly the sent bytes to the wire |
| SocketStreambuf.Streambuf.Overflow | xio/basic_socket_streambuf.h:299-363 | the new state and the result, buffered and unbuffered, for every sequence of answers |
| SocketStreambuf.Streambuf.Sync | xio/basic_socket_streambuf.h:365-367 | a flush without a character |
| SocketStreambuf.Streambuf.SetBuf | xio/basic_socket_streambuf.h:369-378 | drops the put vector if and only if nothing is pending and no storage is given |
| SocketStreambuf.Streambuf.RecvLoop | xio/basic_socket_streambuf.h:258-295 | the loop ends as `RefillIff` describes; received bytes lie behind the putback area, and a failure leaves the vector alone |
| SocketStreambuf.Streambuf.Underflow | xio/basic_socket_streambuf.h:250-297 | the new state and the result, for every sequence of answers |
| SocketStreambuf.Streambuf.Close | xio/basic_socket_streambuf.h:192-198 | flushes, ignores how that went, and resets the buffers if and only if the socket closed |
| SocketStreambuf.Streambuf.Connect | xio/basic_socket_streambuf.h:162-186 | by endpoint or by name: the buffers are reset whatever happens, and the new state and result are those of the step of the run lemmas |
| SocketStreambuf.Streambuf.Destroy | xio/basic_socket_streambuf.h:150-153 | flushes if and only if output is pending |
| SocketStreambuf.Streambuf.ExpiresAfter | xio/basic_socket_streambuf.h:245-247 | the expiry is now plus the duration, clamped to the 64-bit range |
| SocketStreambuf.Streambuf.Moved | xio/basic_socket_streambuf.h:117-129 | the new object has the other's state without its pending output, in the other's old vectors; the other is back in the initial state in fresh ones |
| SocketStreambuf.Streambuf.MoveAssign | xio/basic_socket_streambuf.h:132-147 | the same after closing this object's connection; the two objects have exchanged vectors, a dropped put vector has its 512 bytes back, and self-assignment is covered |
| SocketStreambuf.Streambuf.Perform | xio/basic_socket_streambuf.h:162-396 | any operation does what the step of the run lemmas does |
| SocketStreambuf.Pool.Construct | xio/basic_socket_streambuf.h:101-106 | a new object shares no vector with the others |
| SocketStreambuf.Pool.MoveConstruct | xio/basic_socket_streambuf.h:117-129 | among any number of objects: positions stay in each object's own vectors, no vector is shared, and third objects keep their state |
| SocketStreambuf.Pool.MoveAssign | xio/basic_socket_streambuf.h:132-147 | the same for move assignment |
| SocketStreambuf.Pool.Use | xio/basic_socket_streambuf.h:162-396 | the same for every operation on one object, connecting included |
| SocketStreambuf.Pool.Destroy | xio/basic_socket_streambuf.h:150-153 | the same for destruction; the object is gone once its flush has come back |
| SocketStreambuf.Pool.Replay | xio/basic_socket_streambuf.h:101-472 | any run over any number of objects does what the run of the model does; after it positions lie in each object's own vectors, no vector is shared, every character is accounted for and every reader misses nothing |
| AlignedBlocks.AlignUp | xio/detail/memory.h:52-55 | an aligned address at or behind the base and less than the alignment away |
| AlignedBlocks.AlignUpIsFirst | xio/detail/memory.h:52-55 | it is the first such address, as [ptr.align] of ISO/IEC 14882 says |
| AlignedBlocks.CellRoundTrip | xio/any_completion_handler.h:136-157 | decoding the eight bytes of any 64-bit offset gives the offset back |
| AlignedBlocks.HoldsStored | xio/any_completion_handler.h:136-137 | after the copy the bytes behind the user's are the offset's representation |
| AlignedBlocks.HoldsRead | xio/any_completion_handler.h:155-157 | wherever those bytes are in memory, the offset is what is read |
| AlignedBlocks.LayoutFitsIff | xio/any_completion_handler.h:129-138 | user bytes and cell lie inside the block, for every base, if and only if the length does not wrap |
| HandlerHeap.AllocateThrowsIff | xio/any_completion_handler.h:129-143 | allocate throws if and only if size + align - 1 wraps, and then the block is still live |
| HandlerHeap.OverrunIff | xio/any_completion_handler.h:129-138 | room for objects is granted outside its block if and only if size + align - 1 does not wrap, and the number of bytes or adding the cell does |
| HandlerHeap.OverrunCanHappen | xio/any_completion_handler.h:129-138 | the largest request is granted in a block of seven bytes |
| HandlerHeap.ManyObjectsOverrun | xio/any_completion_handler.h:464-468 | room for 2^60 + 1 objects of sixteen bytes is granted in thirty-nine |
| HandlerHeap.ThrowLosesBlock | xio/any_completion_handler.h:129-143 | a request that throws, and the block nobody has |
| HandlerHeap.TakeGrants | xio/any_completion_handler.h:121-144 | without wrap-around an aligned block is always granted, and its cell leads back to the base |
| HandlerHeap.GiveFindsBlock | xio/any_completion_handler.h:146-162 | whatever was written to the user's bytes, deallocate releases exactly the block taken, with its length |
| HandlerHeap.RunIsSafe | xio/any_completion_handler.h:121-162 | over every interleaving of allocating, writing and deallocating, with requests for any number of objects of any size (lines 464-468): all memory granted lies in its block and every release finds its block, if and only if no request is of that kind; a block is lost if and only if some allocate threw |
| HandlerHeap.GrantsApart | xio/any_completion_handler.h:121-162 | all live user regions and cells are pairwise disjoint |
| HandlerHeap.AllFreedOnce | xio/any_completion_handler.h:121-162 | no block is freed twice, and once everything was given back exactly the lost blocks are left |
| HandlerHeap.HandlerMemory.Allocate | xio/any_completion_handler.h:121-144 | the byte-level code, with wrapping arithmetic, computes the step of the run lemmas |
| HandlerHeap.HandlerMemory.AllocateObjects | xio/any_completion_handler.h:464-468 | the typed allocator asks for the product of count and size, wrapped |
| HandlerHeap.HandlerMemory.Deallocate | xio/any_completion_handler.h:146-162 | the byte-level code, null pointers included, computes the step of the run lemmas |
| Ownership.StepKeeps | xio/any_completion_handler.h:577-730 | no operation uses a table on another type's object or touches a freed one, except that asking a wrapper with a table and no object does, or an allocator whose object is gone; a call throws if and only if the wrapper is empty |
| Ownership.RunIsSafe | xio/any_completion_handler.h:577-680 | the invariant over every run, whatever happens between the statements of a call |
| Ownership.EveryRun | xio/any_completion_handler.h:83-177 | over every run: one owner per object, wrapper or call, through its own table; freed once; handler called once or destroyed uncalled but not both; no body entered before its object is freed; nothing left when no wrapper and no call has an object |
| Ownership.CallReleasesFirst | xio/any_completion_handler.h:165-177 | after any run, the step that enters a body finds the handler in the local, the block freed and no wrapper holding the object, and enters it for the first time |
| Ownership.CallStraight | xio/any_completion_handler.h:165-177 | a call with nothing in between, up to the body |
| Ownership.FreedForever | xio/any_completion_handler.h:672-680 | whatever the body or later code does, that object is never live, held or freed again |
| Ownership.SelfMove | xio/any_completion_handler.h:617-622 | assigning a wrapper to itself by move changes nothing |
| Ownership.LeftoverStep | xio/any_completion_handler.h:674-676 | after a step a wrapper has a table and no object if and only if the step called it with a target, or its content comes from a wrapper that was so before |
| Ownership.LeftoverIffCalled | xio/any_completion_handler.h:606-676 | after any run a wrapper has a table and no object if and only if some call with a target left that content and it was moved to this wrapper |
| Ownership.FaultIffAsksLeftover | xio/any_completion_handler.h:577-731 | a run uses a table on no live object if and only if it asks such a wrapper for an executor, or an allocator that is dead by then for memory |
| Ownership.DeadIffFreedSince | xio/any_completion_handler.h:422-429 | whatever happens after an allocator was taken from a wrapper, it is dead if and only if the wrapper had a table and no object then, or its object has been freed since |
| Ownership.MovedLeftoverFaults | xio/any_completion_handler.h:714-716 | a run that asks a wrapper which was never called, but moved from one that was |
| Ownership.DeadAllocatorFaults | xio/any_completion_handler.h:464-468 | a run that asks an allocator after its wrapper was destroyed |
| CompletionHandler.AnyCompletionHandler.Moved | xio/any_completion_handler.h:606-611 | takes both members and empties the other |
| CompletionHandler.AnyCompletionHandler.Swap | xio/any_completion_handler.h:647-650 | exchanges both members, also with itself |
| CompletionHandler.AnyCompletionHandler.Destroy | xio/any_completion_handler.h:631-634 | frees the object it holds, if any, with its handler uncalled |
| CompletionHandler.AnyCompletionHandler.MoveAssign | xio/any_completion_handler.h:617-622 | takes over the other's content, destroys the old one, and handles self-assignment |
| CompletionHandler.AnyCompletionHandler.AssignNull | xio/any_completion_handler.h:625-628 | empties the wrapper and destroys the old content |
| CompletionHandler.Store.Call | xio/any_completion_handler.h:165-177 | begins, moves the handler out, resets the pointer and invokes, each as its own step of the model |
| CompletionHandler.Store.Advance | xio/any_completion_handler.h:171-176 | each statement of a call computes the step of the run lemmas |
| CompletionHandler.AnyCompletionHandler.Begin | xio/any_completion_handler.h:672-680 | clears the object and keeps the table before anything of the call runs; throws if and only if empty |
| CompletionHandler.AnyCompletionHandler.Call | xio/any_completion_handler.h:672-680 | the whole of it up to the body |
| CompletionHandler.AnyCompletionHandler.Query | xio/any_completion_handler.h:714-716 | goes wrong if and only if there is a table and no object |
| CompletionHandler.Program.AskAllocator | xio/any_completion_handler.h:464-473 | an allocator throws without a table, and goes wrong if and only if it has one and no live object |
| CompletionHandler.Program.Apply | xio/any_completion_handler.h:577-680 | on any number of wrappers the two-pointer code, aliasing included, computes the step of the run lemmas |
| CompletionHandler.Program.Replay | xio/any_completion_handler.h:577-680 | any run of the code ends as the run of the model does, and goes wrong if and only if that does |
| Lexer.FindMatchingParen | scripts/replace_raft_logs.py:63-88 | the least position where the depth comes back to zero outside a literal; raises exactly when there is none |
| Lexer.MatchCloseIff | scripts/replace_raft_logs.py:63-88 | the recursive form has the same characterisation at any depth |
| Lexer.CloseIffNested | scripts/replace_raft_logs.py:63-88 | the bracket found is k if and only if the text up to k is derived from a grammar of nested groups, literals and escapes |
| Tokens.ReadsIff | scripts/replace_raft_logs.py:97-111 | the scanner of the splitter is outside literals at depth d if and only if the text is made of whole literals, with their escapes, and other characters with d more of "([{" than of ")]}" among them |
| Splitter.SplitTopLevelArgs | scripts/replace_raft_logs.py:91-118 | the loop splits the text in the way `SplitIff` describes |
| Splitter.TopCommaIff | scripts/replace_raft_logs.py:97-115 | the comma found is the first one outside literals with as many of "([{" as of ")]}" in front of it |
| Splitter.CutsAreTopCommas | scripts/replace_raft_logs.py:97-115 | the text is cut at a position if and only if a comma stands there outside literals with that count zero, from the start of the whole text |
| Splitter.PiecesIff | scripts/replace_raft_logs.py:91-118 | the pieces are the one way to cut the text at commas such that no piece has a comma of that kind, and all but the last are made of whole literals and other characters with that count zero |
| Splitter.SplitIff | scripts/replace_raft_logs.py:91-118 | a text splits into these parts if and only if it can be cut so into pieces that are the parts with white space around them, an empty last one left out |
| Splitter.StripIff | scripts/replace_raft_logs.py:113-115 | trimming gives the one text without white space at its ends that leaves only white space on either side |
| Splitter.SplitGivesArguments | scripts/replace_raft_logs.py:91-118 | every part is trimmed and without a top-level comma, and all but the last have brackets and quotes closed |
| Splitter.SplitJoinIff | scripts/replace_raft_logs.py:91-118 | splitting undoes joining with ", " if and only if the list is of that kind and its last argument is not empty |
| Splitter.SplitAgainIff | scripts/replace_raft_logs.py:91-118 | splitting, joining and splitting again changes nothing if and only if the last part is not empty |
| Splitter.JoinLast | scripts/replace_raft_logs.py:129 | every part but the last is followed by a comma and a blank |
| Format.FindIff | scripts/replace_raft_logs.py:141 | the leftmost occurrence, or none exactly when there is none |
| Format.ConvertPrintfFmt | scripts/replace_raft_logs.py:51-54 | applies the rules one after the other; no placeholder of any rule is left |
| Format.ConvertTwice | scripts/replace_raft_logs.py:51-54 | converting what was already converted changes nothing |
| Format.InTurnIsOnePass | scripts/replace_raft_logs.py:51-54 | for any rules whose patterns have their percent sign in front only and whose substitutes start with a brace the patterns lack: applying them one after the other is one pass from left to right with all of them at once |
| Format.ConvertIsOnePass | scripts/replace_raft_logs.py:22-54 | the table is of that kind |
| Format.RulesTable | scripts/replace_raft_logs.py:22-36 | the thirteen placeholders in order, and what replaces them |
| Format.ConvertByKeepsShape | scripts/replace_raft_logs.py:22-36 | replacing placeholders changes neither the bracket depth, the quoting nor the top-level commas of a literal argument |
| Format.ArgumentsConverted | scripts/replace_raft_logs.py:121-129 | an argument whose first character behind white space is a quote has all placeholders replaced in one pass and none of any rule left; every other argument is unchanged |
| Format.ConvertFormatArgs | scripts/replace_raft_logs.py:121-129 | joins the arguments, each converted so |
| Format.EmitTlog | scripts/replace_raft_logs.py:132-133 | the text of a TLOG call |
| Format.EmittedArguments | scripts/replace_raft_logs.py:121-133 | the emitted call splits into the severity and exactly the arguments, each converted as `ArgumentsConverted` describes |
| Rewriter.ReplacePLvCalls | scripts/replace_raft_logs.py:136-167 | the loop terminates and computes rewriting call after call, with the same errors |
| Rewriter.RewriteIffParsed | scripts/replace_raft_logs.py:136-167 | succeeds with a text if and only if the input can be cut at its leftmost disjoint calls, each closed and with two arguments; every character outside them is copied in place |
| Rewriter.ParseIsUnique | scripts/replace_raft_logs.py:136-167 | there is one such way to cut a text |
| Rewriter.SeverityTable | scripts/replace_raft_logs.py:41-48 | the severity of every level, and none for any other text |
| Rewriter.LinesLast | scripts/replace_raft_logs.py:156-165 | every line but the last is followed by a line feed |
| Rewriter.KnownLevelKeepsArguments | scripts/replace_raft_logs.py:152-155 | a call with a level of the table becomes the text of a TLOG call with that severity and the same other arguments |
| Rewriter.OtherLevelKeepsArguments | scripts/replace_raft_logs.py:156-165 | a call with any other level becomes a switch on it with a case for every level of the table, in order, and an empty default; the case of a level is what the call becomes with that level instead, so its arguments are the severity and the converted originals |
| Closing.EmittedClosesIff | scripts/replace_raft_logs.py:121-165 | the bracket of an emitted call, of any severity, is closed by the one that ends it if and only if the level of the original call is balanced by itself |
| Closing.KnownLevelCloses | scripts/replace_raft_logs.py:152-155 | so a call with a level of the table becomes one call that ends where the emitted text ends |
| Closing.MixedBracketsDoNotClose | scripts/replace_raft_logs.py:91-118 | a level with mixed brackets whose cases close too early |
| Remains.NoneLeftIff | scripts/replace_raft_logs.py:136-167 | no call is left in the result if and only if no level that is not in the table and no converted argument of a call has one |
| Remains.UnchangedIff | scripts/replace_raft_logs.py:136-167 | a text is left as it is if and only if there is no call in it |
| Remains.RewriteTwiceIff | scripts/replace_raft_logs.py:136-167 | rewriting the result changes nothing if and only if no call was left |
| Remains.NestedCallIsLeft | scripts/replace_raft_logs.py:136-167 | a call inside another one that is left |

## Left out

- Streambuf.BasicStreambuf.Consume: assumes that `gptr() + n` does not wrap as an address.
- Putback, `xsputn`/`xsgetn` and locale of `std::streambuf`: only `sputc` and `sbumpc` are modelled.
- Allocation failure, exceptions from handlers, handler destructors that use wrappers, the cancellation slot of a handler, what the executor queries answer, and the destruction of allocators.
- Native socket calls, name resolution, their flags and the Windows branches: their answers are inputs.
- `basic_streambuf_ref` and `basic_socket_iostream`: forwarding.
- Reading and writing files, the macro table and the line pattern of `scripts/replace_raft_logs.py`.
- Sockets, timers, executors, coroutines, TLS and Raft.
