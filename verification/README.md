# Verification of the buffer, stream, coroutine and coder code

The repository is a small network server for data coders (Hamming, CRC-32), built on a vendored
copy of Asio. This project models the parts of it that carry state and have something to get wrong,
and proves what they promise, for every input and every run:

- `Buffers`, `BuffersIterator`: scatter-gather lists of buffers over one memory. Copying between two
  lists is a flat prefix copy however their boundaries fall, and changes nothing else; the iterator
  over the bytes is an index into the flat sequence, whichever way it was moved.
- `Streambuf`: the growable stream buffer is a queue of bytes with a size limit, through all shifts,
  resizes and exceptions.
- `Coroutine`: what the `reenter`, `yield` and `fork` macros expand to, as a machine over one int,
  performs exactly the body executed straight through, entry by entry the segments between its
  yields; and exactly when it does not.
- `SocketOutput`, `Deadline`: output through sends of any length and any failures, and the timer that
  re-arms itself, under every interleaving.
- `EnumStr`, `ExecutorWork`: round trips of enumerator names, and the balance of work counts.
- `Hamming`, `Crc32`, `Framing`: the server's own coders and packet reader. A message survives the
  channel exactly if no block has two flipped bits; the checksum by table is the remainder of
  division by the CRC-32 polynomial and notices every error within 32 bits; packets are found however the stream is cut.

`Basics`, `Flat` and `Polynomials` hold what these share or rest on. Classes, and loops over arrays, stand where the source has
objects and buffers that change in place; each method is proved against a relation or function on
values, and lemmas about those carry the results. `dafny verify dfyconfig.toml` checks everything.

## Where the code and its documentation differ

The model follows the code.

- `basic_streambuf::prepare` promises a `length_error` and says nothing of damage, but the bytes are
  moved to the front of the vector before the size is tested, and the positions are not. The input
  sequence survives for all contents exactly if nothing precedes it or its old and new places do not
  overlap (`Streambuf.ThrowHarmlessIff`); `Streambuf.ThrowCanCorrupt` is a run of six operations
  from a new buffer that ends so.
- A coroutine that is left by `return`, by a throw or at its end is said to be complete. It is, unless
  it passed a fork since it was entered (`Coroutine.LeavingCompletes`, `Coroutine.ForkLeavesIncomplete`).
  It then completes on its next entry without performing anything (`Coroutine.DeadEntryCompletes`),
  if what the fork has saved is no case of the switch. It is one in two situations: a yield stands on
  the line of the fork (`Coroutine.SharedLineResumes`), or the fork's statement threw
  (`Coroutine.ThrowingForkResumes`). The next entry then goes on in the middle of a body that was
  left. Entries perform the body exactly if it is never left so (`Coroutine.ReentryPerformsBodyIff`),
  and it is not if no fork shares a line with a yield and no fork's statement throws
  (`Coroutine.NeverLeftAliveIf`). Where it goes on is in `Coroutine.LeftAliveGoesOn`.
- A failed flush of the socket stream buffer keeps all of its bytes, those already sent included, so
  they are sent again. Delivery is exactly once if and only if every operation that failed did so at
  its first send (`SocketOutput.ExactlyOnce`), and at least once always (`SocketOutput.AtLeastOnce`);
  `SocketOutput.HiccupSendsTwice` is a run in which a byte is sent twice.
- The Hamming coder accepts any message, and writes outside of what it has allocated for the empty
  message when it encodes (`Hamming.Encode`, `Hamming.EncodeNothing`) and for an odd number of blocks
  when it decodes (`Hamming.Decode`, `Hamming.DecodeOneBlock`), and only then.
- Printing a parsed enumerator name gives the name back exactly if no earlier enumerator has the same
  value (`EnumStr.NameRoundTrip`); `EnumStr.AliasLosesName` is a declaration in which one does not.
- A packet of length 0 is parsed and handed over only when the next byte arrives
  (`Framing.FramesFound`, `Framing.EmptyPacketWaits`). When parsing a packet throws, the packet stays
  in the buffer: the rest of the chunk is lost, and whatever is read later makes it throw again
  (`Framing.StuckForEver`). All packets are found exactly if all of them parse and the last is not
  empty.

## Model

| member | source | states |
|---|---|---|
| Buffers.PlusDrops | include/asio/buffer.hpp:487-498 | `operator+` drops bytes from the front, or gives the null buffer when asked for more than there are |
| Buffers.LimitTakes | include/asio/buffer.hpp:763-774 | `buffer(b, max)` keeps the first bytes, at most `max` |
| Buffers.ApartIff | include/asio/buffer.hpp:1719-1720 | buffers do not overlap exactly if no byte is in both; an empty one overlaps nothing |
| Buffers.CopyableIff | include/asio/buffer.hpp:1719-1720 | what the copies demand of existing buffers is that no byte of a target buffer is in another target buffer or in a source buffer, and no more |
| Buffers.BufferSize | include/asio/buffer.hpp:427-441 | the size of a sequence is the length of its flat view |
| Buffers.CopySingle | include/asio/buffer.hpp:1743-1752 | copies the smaller of the two sizes; the rest of memory is untouched |
| Buffers.CopySingleLimited | include/asio/buffer.hpp:2231-2235 | the same under a limit |
| Buffers.CopyManyToOne | include/asio/buffer.hpp:1850-1872 | returns the smaller total, and the new memory is the flat prefix copy |
| Buffers.CopyOneToMany | include/asio/buffer.hpp:2027-2049 | returns the smaller total, and the new memory is the flat prefix copy |
| Buffers.CopyManyToMany | include/asio/buffer.hpp:2159-2206 | for any disjoint lists, empty buffers included: returns the smaller total, the target reads as that prefix of the source followed by its old tail, no other byte of memory changes |
| Buffers.CopyManyToManyLimited | include/asio/buffer.hpp:2674-2723 | the same for the smallest of the totals and the limit, within as many iterations as there are buffers |
| Buffers.CopyStep | include/asio/buffer.hpp:2177-2203 | one iteration extends a flat prefix copy of `n` bytes to one of `n + k`, wherever in the two lists it happens |
| Buffers.SourceUnchanged | include/asio/buffer.hpp:1719-1721 | a flat prefix copy leaves every source buffer as it was |
| Buffers.CopiedIsUnique | include/asio/buffer.hpp:1707-1717 | being a flat prefix copy determines every byte of the new memory, so all forms agree |
| Buffers.CopiedByte | include/asio/buffer.hpp:1707-1717 | byte by byte: a target byte below the count is the source byte at the same position, and one above it is what it was |
| BuffersIterator.Iterator.Begin | include/asio/buffers_iterator.hpp:127-144 | the place of position 0, at the first non-empty buffer or the end |
| BuffersIterator.Iterator.End | include/asio/buffers_iterator.hpp:147-163 | the place whose position is the total size |
| BuffersIterator.Iterator.Dereference | include/asio/buffers_iterator.hpp:301-304 | at every position before the end, reads that byte of the flat view |
| BuffersIterator.Iterator.Equal | include/asio/buffers_iterator.hpp:307-310 | comparing positions is comparing places |
| BuffersIterator.Iterator.Less | include/asio/buffers_iterator.hpp:276-279 | iterators are ordered as their buffers, and within a buffer as their offsets |
| BuffersIterator.Iterator.DistanceTo | include/asio/buffers_iterator.hpp:448-451 | that many single steps lead from one iterator to the other |
| BuffersIterator.EndMinusBegin | include/asio/buffers_iterator.hpp:257-261 | end minus begin is `buffer_size` of the sequence, and the length of its flat view |
| BuffersIterator.Iterator.Increment | include/asio/buffers_iterator.hpp:313-333 | moves to the next place, over empty buffers; stays in step with the position; the out-of-bounds assertion holds |
| BuffersIterator.Iterator.Decrement | include/asio/buffers_iterator.hpp:336-363 | moves to the place before, over empty buffers; stays in step with the position |
| BuffersIterator.Iterator.Advance | include/asio/buffers_iterator.hpp:366-445 | reaches the place that `n` increments or `-n` decrements reach; both loops end and no assertion fires for a distance in range |
| BuffersIterator.Iterator.Plus | include/asio/buffers_iterator.hpp:230-254 | the sum of iterator and distance is a new iterator; the old one stays |
| BuffersIterator.PlaceOrder | include/asio/buffers_iterator.hpp:307-310 | there is exactly one place for a position, and places are ordered as positions |
| BuffersIterator.PlaceReadsFlatView | include/asio/buffers_iterator.hpp:301-304 | the byte at the place of position `p` is byte `p` of the flat view |
| BuffersIterator.NextIsPlace | include/asio/buffers_iterator.hpp:318-332 | skipping from the end of a buffer over empty ones lands on the place one position further |
| BuffersIterator.PreviousIsPlace | include/asio/buffers_iterator.hpp:341-362 | searching back lands on the place one position before |
| BuffersIterator.StepsIsPlace | include/asio/buffers_iterator.hpp:366-445 | any number of single steps within range lands on the place of the position so many further |
| BuffersIterator.StepsCompose | include/asio/buffers_iterator.hpp:216-254 | `(it + m) + n` is `it + (m + n)`, for moves of either sign |
| BuffersIterator.StepsReturn | include/asio/buffers_iterator.hpp:216-254 | `(it + n) - n` is `it` |
| Streambuf.BasicStreambuf.constructor | include/asio/basic_streambuf.hpp:131-141 | starts empty, with room for 128 bytes or the maximum size |
| Streambuf.BasicStreambuf.Size | include/asio/basic_streambuf.hpp:158-161 | the length of the input sequence, never more than the maximum size |
| Streambuf.BasicStreambuf.Prepare | include/asio/basic_streambuf.hpp:214-219 | fails exactly if size and request exceed the maximum; on success keeps the input sequence and hands out a buffer of exactly `n` bytes, the first of the writable area, right behind the input sequence, reusing the room in front of it before growing; on failure the input sequence is what the early move leaves |
| Streambuf.BasicStreambuf.Commit | include/asio/basic_streambuf.hpp:233-239 | appends the first bytes of the writable area, at most all of it |
| Streambuf.BasicStreambuf.Consume | include/asio/basic_streambuf.hpp:248-255 | removes bytes from the front, at most all of them |
| Streambuf.BasicStreambuf.Underflow | include/asio/basic_streambuf.hpp:264-275 | makes committed bytes readable and shows the first, or reports the end |
| Streambuf.BasicStreambuf.Overflow | include/asio/basic_streambuf.hpp:284-307 | appends the character whenever the size is below the maximum, whichever way room is made; otherwise throws with everything unchanged |
| Streambuf.BasicStreambuf.Reserve | include/asio/basic_streambuf.hpp:309-347 | keeps the order of all positions, the vector length and the size limit through return, shift, resize and throw |
| Streambuf.BasicStreambuf.ReadSizeHelper | include/asio/basic_streambuf.hpp:354-360 | 512 bytes or the spare capacity, whichever is more, cut to what was asked for and what is left of the maximum; preparing that never throws, and it is 0 only if nothing was asked for or the buffer is full |
| Streambuf.BasicStreambuf.Sbumpc | include/asio/basic_streambuf.hpp:264-275 | takes the first byte of the input sequence, committed or put, or reports the end |
| Streambuf.BasicStreambuf.Sputc | include/asio/basic_streambuf.hpp:284-307 | appends the character; fails exactly at the maximum size |
| Streambuf.RunIsFifo | include/asio/basic_streambuf.hpp:43-45 | over every run without a harmful throw, the bytes taken out followed by those left are those that were in followed by those put in, in order |
| Streambuf.StepConserves | include/asio/basic_streambuf.hpp:192-347 | every single operation keeps that balance |
| Streambuf.StepGrows | include/asio/basic_streambuf.hpp:284-347 | the vector grows only when the writable area does not do: to the request, or for a character by 128 bytes or what is left of the maximum |
| Streambuf.RefusedIffFull | include/asio/basic_streambuf.hpp:209-307 | in every run, a character is refused exactly when as many bytes are in as the maximum, and a request exactly when it does not fit beside them |
| Streambuf.PeekThenGet | include/asio/basic_streambuf.hpp:264-275 | the byte that was shown is the one that is taken next, from the front |
| Streambuf.PrepareFillCommit | include/asio/basic_streambuf.hpp:88-98 | bytes written into the prepared buffer enter in order when committed |
| Streambuf.BasicStreambuf.Fill | include/asio/basic_streambuf.hpp:90-95 | what the user writes into the buffer that `prepare` handed out is the front of the writable area, and nothing else changes |
| Streambuf.MovedParts | include/asio/basic_streambuf.hpp:322-327 | what the move puts at the front, what it leaves in the old place, and that the area behind is untouched |
| Streambuf.ThrowKeepsInput | include/asio/basic_streambuf.hpp:323-341 | a throwing `prepare` keeps the input sequence exactly if the bytes written over it are equal to it |
| Streambuf.ThrowHarmlessIff | include/asio/basic_streambuf.hpp:323-341 | it does so for all contents exactly if nothing precedes the input sequence or the two places do not overlap |
| Streambuf.ThrowCanCorrupt | include/asio/basic_streambuf.hpp:323-341 | a run from a new buffer of maximum size 4: four characters put, one consumed, and a failing `prepare` turns 1, 2, 3 into 2, 3, 3 |
| Coroutine.StepFollows | include/asio/coroutine.hpp:281-318 | every step of the expanded macros is a step of the body or administration that cannot go on for ever |
| Coroutine.StepOutside | include/asio/coroutine.hpp:264-292 | the same for the switch, the terminating case and the destructor of the reference |
| Coroutine.StepAtYield | include/asio/coroutine.hpp:294-309 | the same inside the expansion of the three forms of yield |
| Coroutine.StepAtFork | include/asio/coroutine.hpp:311-318 | the same inside the expansion of fork |
| Coroutine.RunFollows | include/asio/coroutine.hpp:281-318 | whatever the machine has done after any number of steps, the body does too |
| Coroutine.RunReaches | include/asio/coroutine.hpp:281-318 | whatever the body does, the machine does after some number of steps |
| Coroutine.ReentryPerformsBody | include/asio/coroutine.hpp:75-76 | from any value that can be resumed and over any number of entries, exactly the actions of the body straight through, in order; back with the caller, either the last step passed a yield, the one of the number of the entry, and its line is saved, or the body is left for good |
| Coroutine.ReentryPerformsBodyIff | include/asio/coroutine.hpp:194-225 | that holds over all runs exactly if the body, executed straight through, is never left while a fork has saved a value that has a case |
| Coroutine.DeadOrResumes | include/asio/coroutine.hpp:281-292 | a value has no case exactly if there is nowhere to resume with it |
| Coroutine.LeftAliveGoesOn | include/asio/coroutine.hpp:194-225 | if the body is left so, the caller has the coroutine back with the saved value, and its next entry goes on behind the statement with that case |
| Coroutine.NeverLeftAliveIf | include/asio/coroutine.hpp:320-326 | it never is if no fork shares its line with a yield and no fork's statement throws |
| Coroutine.ParentsAreDeadIff | include/asio/coroutine.hpp:311-316 | the values that forks leave with the parent have no case, exactly if no fork shares its line with a yield |
| Coroutine.EntryPerformsSegment | include/asio/coroutine.hpp:90-106 | one entry, from the caller and back, performs exactly the steps up to and including the next yield's statement, or up to the end |
| Coroutine.EntryByEntry | include/asio/coroutine.hpp:90-106 | in any run, what happens between two successive times with the caller is the segment of the straight execution from one yield to the next |
| Coroutine.SegmentIsPerformed | include/asio/coroutine.hpp:90-106 | where the segment ends, by a yield or by leaving, the entry comes back having performed it |
| Coroutine.SharedLineResumes | include/asio/coroutine.hpp:324-325 | a fork and a yield on one line: the parent returns, and its next entry goes on behind the yield, which the body straight through never does |
| Coroutine.ThrowingForkResumes | include/asio/coroutine.hpp:194-196 | a fork whose statement throws: the next entry goes on behind the fork, as a child |
| Coroutine.ForkLeavesIncomplete | include/asio/coroutine.hpp:194-196 | a body that forks and runs to its end is not complete, until it has been entered again |
| Coroutine.ReentryMissesNothing | include/asio/coroutine.hpp:98-106 | every action of the body is performed in the end |
| Coroutine.InterleaveTakesTurns | include/asio/coroutine.hpp:123-138 | the documented generator yields one, two, one, a segment each |
| Coroutine.ServerForks | include/asio/coroutine.hpp:202-213 | the documented server: the parent goes back to accepting, and a child goes on to handle what was accepted |
| Coroutine.ForkedChild | include/asio/coroutine.hpp:215-225 | a copy taken by the fork statement is a child, resumes behind the fork, and over any run performs what the body does there for a child |
| Coroutine.ForkingParent | include/asio/coroutine.hpp:215-225 | the parent goes on at the very place where the copy resumes, having performed the statement once, and is no child there |
| Coroutine.LeavingCompletes | include/asio/coroutine.hpp:194-196 | leaving the body by `return`, by a throw or at the end completes the coroutine exactly if no fork has saved a value since it was entered; otherwise that value stays |
| Coroutine.YieldBreakCompletes | include/asio/coroutine.hpp:183-192 | `yield break` completes the coroutine and performs nothing |
| Coroutine.DeadPerformsNothing | include/asio/coroutine.hpp:191-192 | entering a completed coroutine, or a parent that ran off the end, performs nothing, ever |
| Coroutine.DeadEntryCompletes | include/asio/coroutine.hpp:267-271 | such an entry ends complete |
| Coroutine.CoroutineRef.Assign | include/asio/coroutine.hpp:271 | writes through and remembers it |
| Coroutine.CoroutineRef.Destroy | include/asio/coroutine.hpp:269 | completes the coroutine unless it was written to |
| Coroutine.Reenter | include/asio/coroutine.hpp:281-318 | one entry, carried out on the coroutine object, is a run of the machine from caller to caller, up to the first time it is back |
| SocketOutput.Flush | include/asio/basic_socket_streambuf.hpp:446-468 | a series of sends of any lengths ends, and succeeds exactly if all bytes have left; it does on a network that never fails; a failing one has sent nothing exactly if the first send failed |
| SocketOutput.SocketStreambuf.SendAll | include/asio/basic_socket_streambuf.hpp:446-468 | the loop of sends puts on the wire, in order, as many pending bytes as the network takes, in as many sends |
| SocketOutput.SocketStreambuf.Overflow | include/asio/basic_socket_streambuf.hpp:443-479 | against any network: success puts all pending bytes on the wire in order and then accepts the character; failure leaves the prefix that was sent on the wire and everything still pending |
| SocketOutput.SocketStreambuf.Sync | include/asio/basic_socket_streambuf.hpp:482-485 | the same without a character |
| SocketOutput.SocketStreambuf.Sputc | include/asio/basic_socket_streambuf.hpp:443-479 | sends only when the put area of 512 bytes is full |
| SocketOutput.SocketStreambuf.Setp | include/asio/basic_socket_streambuf.hpp:510-519 | the put area is empty and whole |
| SocketOutput.AcceptedIsDeliveredOrPending | include/asio/basic_socket_streambuf.hpp:443-479 | over every run against any network, what was accepted is what has left the put area for good followed by what is in it |
| SocketOutput.ExactlyOnce | include/asio/basic_socket_streambuf.hpp:443-479 | wire followed by put area is what was accepted, exactly if every operation that failed did so at its first send |
| SocketOutput.ReliableIsExactlyOnce | include/asio/basic_socket_streambuf.hpp:443-479 | so on a network without failures, however short its sends, after every operation |
| SocketOutput.HiccupSendsTwice | include/asio/basic_socket_streambuf.hpp:466-467 | two characters, a `sync` that fails at its second send and one that succeeds put the first character on the wire twice |
| SocketOutput.SyncDelivers | include/asio/basic_socket_streambuf.hpp:482-485 | after a successful sync nothing is pending, and the wire holds what was accepted, once, under the same condition |
| SocketOutput.AtLeastOnce | include/asio/basic_socket_streambuf.hpp:443-479 | whatever fails, all accepted bytes are on the wire or pending, in order |
| SocketOutput.PutsGather | include/asio/basic_socket_streambuf.hpp:510-519 | up to 512 characters are accepted and nothing is sent |
| SocketOutput.FullAreaFlushes | include/asio/basic_socket_streambuf.hpp:443-479 | the next one has the network take the 512 first, in order |
| Deadline.SocketTimer.TimerHandler | include/asio/basic_socket_streambuf.hpp:576-599 | re-arms while the expiry lies ahead, else expires and closes |
| Deadline.SocketTimer.StartTimer | include/asio/basic_socket_streambuf.hpp:619-626 | runs the handler unless a wait is pending |
| Deadline.SocketTimer.ExpiresAt | include/asio/basic_socket_streambuf.hpp:289-298 | cancels, sets the expiry and starts the timer |
| Deadline.SocketTimer.ExpiresAfter | include/asio/basic_socket_streambuf.hpp:329-342 | the same relative to the clock |
| Deadline.SocketTimer.RunOne | include/asio/basic_socket_streambuf.hpp:570-600 | a queued handler is taken out and run once |
| Deadline.TimerService.ExpiresAt | include/asio/basic_waitable_timer.hpp:372-392 | pending waits are cancelled: their handlers are queued |
| Deadline.TimerService.AsyncWait | include/asio/basic_waitable_timer.hpp:592-615 | a wait for the expiry in force is outstanding |
| Deadline.StepKeepsInv | include/asio/basic_socket_streambuf.hpp:570-626 | every event keeps the protocol: one outstanding wait if the timer is pending, ready or armed for the expiry in force, and none otherwise; no close before its deadline; a cancelled wait whose deadline was moved ahead only re-arms |
| Deadline.ProtocolHolds | include/asio/basic_socket_streambuf.hpp:289-342 | in every state of every run, whatever the clock does; and no close ahead of its deadline |
| Deadline.ExpiryIsDue | include/asio/basic_socket_streambuf.hpp:289-342 | in every state of every run, the expiry in force is the one the last call named, outright or counted from the clock at that call |
| Deadline.ThirtyFromNow | include/asio/basic_socket_streambuf.hpp:289-342 | at time 1000, 30 from now leaves the timer pending until 1030, as does setting 1030; and setting 1000 expires the stream at once |
| Deadline.ExpiredMeansPast | include/asio/basic_socket_streambuf.hpp:588-598 | with a clock that does not go back, an expired stream is past the expiry that the last call named |
| Deadline.DeadlineIsExact | include/asio/basic_socket_streambuf.hpp:280-288 | when nothing is left to run, the stream has expired exactly if the expiry that the last call named has passed |
| Deadline.HandlersSettle | include/asio/basic_socket_streambuf.hpp:570-600 | handlers alone do not keep each other running |
| EnumStr.IsTerminator | include/enum_str.h:66-75 | true exactly for the characters of the terminator array, its NUL included |
| EnumStr.TerminatorsAre | include/enum_str.h:66 | these are the blank, the equals sign, the tab, carriage return, line feed and the NUL, and no others |
| EnumStr.NameIsTrimmed | include/enum_str.h:77-90 | a name without those characters is what is left of it and anything behind it that begins with one of them |
| EnumStr.EnumeratorByName | include/enum_str.h:156-179 | an enumerator is accepted by its name, whatever its initializer, with its value if names are distinct; and its value prints as its name if no earlier one has the value |
| EnumStr.RedIsRed | include/enum_str.h:156-179 | "red" parses to 1 and 1 prints as "red" for an enumerator written "red = 1" |
| EnumStr.MatchesUntrimmed | include/enum_str.h:77-90 | accepts exactly the raw name cut at its first terminator, and reads no character past either NUL |
| EnumStr.EnumType.TrimmedNames | include/enum_str.h:201-226 | the array holds every raw name, cut and terminated, from the first call on |
| EnumStr.EnumType.ToString | include/enum_str.h:156-166 | the name of the first enumerator with the value, or the exception |
| EnumStr.EnumType.FromString | include/enum_str.h:168-179 | the value of the first enumerator with the name, or the exception |
| EnumStr.ParsedFinds | include/enum_str.h:168-179 | exactly the trimmed names are accepted |
| EnumStr.PrintedAccepts | include/enum_str.h:156-166 | exactly the declared values are accepted |
| EnumStr.ValueRoundTrip | include/enum_str.h:156-179 | every declared value survives printing and parsing |
| EnumStr.NameRoundTrip | include/enum_str.h:156-179 | an accepted name survives parsing and printing exactly if no earlier enumerator has its value |
| EnumStr.NamesRoundTripIffDistinct | include/enum_str.h:156-179 | all accepted names survive exactly if the values are distinct |
| EnumStr.AliasLosesName | include/enum_str.h:156-179 | of two enumerators with one value, the name of the second prints as that of the first |
| ExecutorWork.Work.constructor | include/asio/executor_work.hpp:39-44 | one more owner, one more start |
| ExecutorWork.Work.Copy | include/asio/executor_work.hpp:47-53 | the copy of an owner is an owner and counted; the copy of another is neither |
| ExecutorWork.Work.Move | include/asio/executor_work.hpp:57-62 | ownership changes hands and nothing is counted |
| ExecutorWork.Work.Destroy | include/asio/executor_work.hpp:70-74 | an owner that goes is counted as finished, once |
| ExecutorWork.Work.Reset | include/asio/executor_work.hpp:93-100 | an owner gives up its work and is counted; doing it again does nothing |
| ExecutorWork.Executor.ZeroIffNoOwner | include/asio/executor_work.hpp:26-27 | the balance is never negative, and 0 exactly if no live object owns work |
| Hamming.CalculateParityBit | npct/coders/impl/algo/hamming/Hamming.tcc:36-45 | the parity of the covered positions |
| Hamming.AppendData | npct/coders/impl/algo/hamming/Hamming.tcc:55-61 | makes any block a codeword without touching its information bits or bit 7 |
| Hamming.BitIsDigit | npct/coders/impl/algo/hamming/Hamming.tcc:11-24 | bit `i` of a byte is its binary digit of the place value 1, 2, 4 and so on to 128 |
| Hamming.BlockValue | npct/coders/impl/algo/hamming/Hamming.tcc:48-79 | the block of a half-byte as a number: its digits at 4, 16, 32 and 64, and the parities of three of them each at 1, 2 and 8 |
| Hamming.DecodedValue | npct/coders/impl/algo/hamming/Hamming.tcc:108-115 | a decoded half-byte as a number, from the corrected block |
| Hamming.LetterEncodes | npct/coders/impl/algo/hamming/Hamming.tcc:48-79 | the only encoding of 0x61 with bit 7 clear is 0x07, 0x33 |
| Hamming.EncodeLetter | npct/coders/impl/algo/hamming/Hamming.tcc:48-79 | and that is what the coder makes of it |
| Hamming.LetterDecodes | npct/coders/impl/algo/hamming/Hamming.tcc:82-121 | 0x07, 0x33 is read as 0x61 without an error |
| Hamming.SyndromeNamesBit | npct/coders/impl/algo/hamming/Hamming.tcc:92-100 | the error index of a codeword with one bit flipped is the position of that bit, and 0 with none |
| Hamming.Encode | npct/coders/impl/algo/hamming/Hamming.tcc:48-79 | every half-byte of the message is in a codeword of its own, in order; all writes stay in the result exactly if the message is not empty |
| Hamming.EncodeNothing | npct/coders/impl/algo/hamming/Hamming.tcc:77 | for the empty message a byte is written to a result of size 0 |
| Hamming.ErrorIndex | npct/coders/impl/algo/hamming/Hamming.tcc:92-100 | the sum of the wrong parity bits' positions |
| Hamming.Decode | npct/coders/impl/algo/hamming/Hamming.tcc:82-121 | the information bits of the corrected blocks, and the number of blocks seen damaged; all writes stay in the result exactly if the number of blocks is even, and the paired blocks are decoded in any case |
| Hamming.DecodeOneBlock | npct/coders/impl/algo/hamming/Hamming.tcc:108-115 | for a single block half a byte is written to a result of size 0 |
| Hamming.Correct | npct/coders/impl/algo/hamming/Hamming.tcc:102-107 | flips the bit that the error index names, unless that is the first parity bit |
| Hamming.BlockCorrection | npct/coders/impl/algo/hamming/Hamming.tcc:92-107 | whatever the codeword and the error pattern, the block is read correctly exactly if at most one of its seven bits was flipped, and then noticed exactly if one was |
| Hamming.SyndromeOfError | npct/coders/impl/algo/hamming/Hamming.tcc:92-100 | the error index depends on the flipped bits alone |
| Hamming.MessageCorrection | tests/client/test_hamming.py:41-58 | the message comes back exactly if no block had more than one bit flipped |
| Hamming.ErrorCount | tests/client/test_hamming.py:41-58 | and then the reported number of errors is the number of damaged blocks |
| Crc32.Table | npct/coders/impl/algo/crc32/CRC32Coder.cc:15-22 | each entry is the register after eight shifts of its index |
| Crc32.Algo | npct/coders/impl/algo/crc32/CRC32Coder.cc:10-32 | the checksum of the division bit by bit, for every message, the empty one included |
| Crc32.ChecksumIsRemainder | npct/coders/impl/algo/crc32/CRC32Coder.cc:10-32 | the checksum is the complement of the one remainder of the message, followed by 32 zeros and with its first 32 bits complemented, by the polynomial of CRC-32 over GF(2) |
| Crc32.PolyOfShift | npct/coders/impl/algo/crc32/CRC32Coder.cc:19 | one shift multiplies by x modulo that polynomial |
| Crc32.EntryOf128 | npct/coders/impl/algo/crc32/CRC32Coder.cc:15-22 | the entry of 128 is 0xEDB88320 |
| Crc32.CheckValue | tests/client/test_crc32.py:16 | the checksum of the digits from 1 to 9 is 0xCBF43926 |
| Polynomials.RemainderIsUnique | npct/coders/impl/algo/crc32/CRC32Coder.cc:10-32 | there is but one remainder, whatever the quotients |
| Crc32.TableStep | npct/coders/impl/algo/crc32/CRC32Coder.cc:29 | one look-up and one shift by eight are eight shifts by one |
| Crc32.ShiftsSplit | npct/coders/impl/algo/crc32/CRC32Coder.cc:19 | high bits only travel within so many shifts |
| Crc32.RegisterIsFeed | npct/coders/impl/algo/crc32/CRC32Coder.cc:28-29 | the register after a message is the one after its bits, the lowest bit of each byte first |
| Crc32.FeedInjective | npct/coders/impl/algo/crc32/CRC32Coder.cc:28-29 | once two registers differ, no common continuation makes them equal again |
| Crc32.FeedOfWord | npct/coders/impl/algo/crc32/CRC32Coder.cc:28-29 | up to 32 bits go into the register as one word |
| Crc32.BurstDetected | npct/coders/impl/algo/crc32/CRC32Coder.cc:10-32 | every error within 32 consecutive bits, wherever in the message they begin, changes the checksum |
| Framing.PacketBuffer.Feed | npct/net/impl/JsonNetSession.tcc:160-166 | takes what is wanted and no more |
| Framing.PacketBuffer.Commit | npct/net/impl/JsonNetSession.tcc:169-191 | hands over a packet, or starts waiting for one of the length in the header; if the packet does not parse, throws and leaves everything as it was |
| Framing.PacketBuffer.HandleReadPacket | npct/net/impl/JsonNetSession.tcc:134-146 | reading a chunk is reading its bytes one at a time, to the end or up to a throw |
| Framing.ConsumeWanted | npct/net/impl/JsonNetSession.tcc:160-191 | feeding as many bytes as are wanted, or fewer, is feeding them one at a time |
| Framing.LoopStep | npct/net/impl/JsonNetSession.tcc:137-143 | one round of the loop takes bytes in, or hands over what is complete, or throws and so makes the rest of the chunk void |
| Framing.CutDoesNotMatter | npct/net/impl/JsonNetSession.tcc:134-146 | however the stream is cut into chunks, the same packets come out, the same state is left, and there is a throw or there is none |
| Framing.FramesFound | tests/client/models/__init__.py:15-23 | of the packets that were framed, those before the first that does not parse come out unchanged and in order, and none after it; all of them exactly if all parse and the last is not empty; when there is a throw |
| Framing.HeaderPlaces | npct/net/impl/JsonNetSession.tcc:177-178 | the length is read most significant byte first: every byte counts 256 times the next |
| Framing.HeaderOf | tests/client/models/__init__.py:23 | and written so |
| Framing.BracesFound | npct/net/impl/JsonNetSession.tcc:134-146 | from the bytes 0, 0, 0, 2 and two braces comes the packet of two braces, if it parses |
| Framing.StuckForEver | npct/net/impl/JsonNetSession.tcc:180-187 | after a packet that does not parse nothing comes out, whatever arrives, and every byte makes it throw |
| Framing.EmptyPacketWaits | npct/net/impl/JsonNetSession.tcc:134-146 | a stream of one empty packet yields nothing |

## Left out

- Machine integers: sizes and offsets are unbounded naturals; sizes are assumed to fit `size_t`, `ptrdiff_t` and the `int` of `pbump` and `gbump`.
- Buffers.CopyManyToMany: the target buffers must not overlap the source, as the documentation says, nor each other; a byte in two target buffers has no one place in the flat view.
- Buffers.CopyManyToManyLimited: the same.
- Buffers.CopyOneToMany: the same.
- Buffers: debug checks, the forwarding overloads of `buffer_copy` for single-element sequences, and `dynamic_buffer`, whose `consume` erases the wrong end.
- BuffersIterator.Iterator.Advance: distances out of range, which the source rejects by assertion.
- Streambuf: the capacity of the vector is a parameter of `ReadSizeHelper`; the allocator and the multi-character functions of `std::streambuf` are not modelled.
- Coroutine.Reenter: runs at most a given number of operations, because a body may loop without a yield. An entry that comes back within that number is followed to its end, and the lemmas about runs have no such bound. Local variables of the body are not modelled. A statement is an action that happens and then may throw.
- SocketOutput: unbuffered mode, `connect`, `close`, and the get area. A send that fails is taken to have sent nothing.
- SocketOutput.SocketStreambuf.Send: when the deadline expires is the network's choice here; `Deadline` says when it does.
- Deadline: the timer exists from the start, with an arbitrary expiry, instead of being constructed at first use; errors of the timer service are not modelled.
- EnumStr: the macros that count and map their arguments; `matches_untrimmed_i` and `_from_string_i`, which test for inequality and can read past the end of their argument.
- ExecutorWork: `make_work`; executors are compared by identity.
- Hamming.Encode: what is written outside the result is not modelled, only that it is; what the block buffer holds at first is a parameter.
- Hamming.Decode: what is written outside the result is not modelled, only that it is.
- Hamming: other configurations than (7,4), which the coder refuses at compile time; Base64, JSON and logging around the coder.
- Crc32: sign extension of characters, which the mask removes.
- Framing: which packets parse is a parameter; the session and socket around the packet buffer. The session itself starts no further read after a throw; what later chunks come to is said of the packet buffer.
- The rest of Asio (sockets, services, strands, executors) only forwards to implementations that are not part of this model.
