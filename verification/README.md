# Verification of the admission limiter and of Asio's stateful core

A Dafny model of the four places of this repository that hold state worth
reasoning about, with proofs about whole runs.

1. **The admission limiter** (`src/utils.cpp`, `src/udp_proxy.cpp`). A map from
   addresses to a counter and a time stamp, purged from inside a loop. Proved:
   one address never influences another; a decision is a function of the
   address's own admissions; blocks end; the number of admissions in any window
   of time is bounded, and the bound is reached; the total is conserved.
2. **`asio::basic_streambuf`**. A resizable array with get and put pointers.
   Proved: it refines a bounded first-in-first-out byte queue, and throws exactly
   where its documentation says.
3. **`any_completion_handler`**. An aligned allocator that hides its bookkeeping
   behind the user's bytes, and a move-only, call-once owner. Proved: the
   underlying allocator gets back exactly what it gave; every handler object is
   destroyed exactly once and invoked at most once, after its destruction.
4. **`asio::basic_socket_streambuf`**. Buffered output through partial sends, an
   unbuffered mode, and buffered input. Proved: no byte is lost or reordered in
   either direction.

Each part has a specification on values (functions and lemmas) and classes that
work in place as the C++ code does. Each method of a class is proved to compute
the specified state, and the theorems are about the specification. For handlers
the specification speaks of many wrappers and each method of one or two of them;
`Perform` carries the methods over to the whole family.

| part | specification and theorems | in-place code |
|---|---|---|
| limiter | `Limiter.dfy`, `LimiterRuns.dfy` | `UdpProxy.dfy` |
| stream buffer | `StreambufSpec.dfy`, `StreambufRuns.dfy` | `Streambuf.dfy` |
| aligned allocator | `AlignedHeap.dfy` | `HandlerAllocator.dfy` |
| handler ownership | `HandlerOwnership.dfy` | `AnyCompletionHandler.dfy` |
| socket stream | `SocketStream.dfy` | `SocketStreambuf.dfy` |

`Arith.dfy`, `Chars.dfy` and `Options.dfy` hold what they share.

## Where the code does not do what it promises

Each of these is stated as an if-and-only-if, and shown on a concrete state or
script that is reached from a new object.

- `basic_streambuf::reserve` moves the queued bytes down before it throws, and
  the pointers stay: a `prepare` that is too large can damage the queue. It is
  harmless if and only if the bytes repeat with period `gptr`, and for every
  content if and only if `gptr` is 0 or the queue is no longer than `gptr`. A
  character that does not fit never does damage.
- `commit` and `consume` cast a count to `int`. They keep their promise if and
  only if the clamped count is at most 2^31 - 1; the default maximum size allows
  more.
- `any_completion_handler_impl::allocate` adds sizes without checking for
  wrap-around. The block is large enough if and only if
  `size + align - 1 + sizeof(ptrdiff_t)` does not wrap; the `bad_alloc` branch is
  reached exactly when `size + align - 1` wraps, and then the block obtained is
  not returned.
- `basic_socket_streambuf::overflow` leaves the put area as it was when a send
  fails, also when part of it has been sent; the next flush sends that part
  again. Wire and pending bytes are exactly what was written if and only if no
  flush finds a put buffer with more in it than the socket takes before it stops,
  and a socket that takes something. In the unbuffered mode this cannot happen.

## Assumptions made explicit

- The steady clock never runs backwards (`ClockFrom`); its readings are parameters.
  A packet carries two of them, one per function that reads the clock.
- The iteration order of the map is arbitrary.
- The underlying allocator returns a non-null block in a 64-bit address space
  that overlaps no outstanding one; which one is a parameter. `ptrdiff_t` has eight
  bytes, low byte first.
- `vector::resize` fills with zeros and picks any sufficient capacity, which is a
  parameter.
- Sockets follow an arbitrary finite script of deadlines, `send`, `recv` and `poll`
  results; a script that has run out is a deadline that has passed.
- `sputc`, `sgetc` and `sbumpc` of the base class are those of section 27.6.3 of
  ISO/IEC 14882:2011, `std::align` that of section 20.6.5.

## Model

| member | source | states |
|---|---|---|
| `Limiter.StaleIff` | src/utils.cpp:81 | for a stamp not in the future the truncating age test means: at least `blockDurationMinutes * 60 + 1` seconds old, in ticks |
| `Limiter.StaleMonotone` | src/utils.cpp:81 | a record that is stale stays stale, for any block duration, negative ones included |
| `Limiter.StepKeepsInv` | src/utils.cpp:75-123 | every packet keeps: counters in 1..max(1, maximum), no excluded key, stamps not in the future; after the check of a non-excluded address every record left is younger than the block duration plus one second |
| `Limiter.RunKeepsInv` | src/utils.cpp:68-124 | the same over every run |
| `Limiter.PurgeSplitsSum` | src/utils.cpp:80-87 | a purge loses no count: the counters kept and the counters erased add up |
| `Limiter.StepConserves` | src/utils.cpp:112-123 | a packet that passes the check is always counted, by exactly one, in the total and in the counters; nothing else is |
| `Limiter.Conservation` | src/utils.cpp:10-123 | from the empty map, the total is the number of admitted non-excluded packets, and is the sum of the live counters and of all counters ever purged |
| `LimiterRuns.NonInterference` | src/utils.cpp:75-123 | in any interleaving the decisions on one address are those of a limiter without a map or a purge that sees only this address's packets |
| `LimiterRuns.RunRecords` | src/utils.cpp:89-123 | after any run the record of a non-excluded address counts its last burst of admissions and has the time of the last one; without a record there was no admission within the last `blockDurationMinutes * 60 + 1` seconds |
| `LimiterRuns.RejectedIff` | src/udp_proxy.cpp:61-66 | after any run, a packet is rejected if and only if its address is not in the list, its last admission is less than `blockDurationMinutes * 60 + 1` seconds old, and the burst this admission ends has reached the maximum |
| `LimiterRuns.ExcludedPasses` | src/utils.cpp:75-78 | a packet from an address in the list is admitted and changes nothing |
| `LimiterRuns.BlocksEnd` | src/udp_proxy.cpp:61-66 | once the block duration plus one second has passed since the last admission, the next packet is admitted, whatever was rejected in between |
| `LimiterRuns.RejectionLeavesRecord` | src/utils.cpp:93-96 | a rejection changes neither the address's record nor the total |
| `LimiterRuns.RateBound` | src/utils.cpp:80-123 | in any window of `w` ticks of any run at most `max(1, maximum) * (w / period + 1)` packets of a non-excluded address are admitted, the period being `blockDurationMinutes * 60 + 1` seconds |
| `LimiterRuns.RateBoundReached` | src/utils.cpp:80-123 | the bound is exact: for every configuration, address and window a run reaches it |
| `UdpProxyServer.UdpProxy.IsIpBlocked` | src/utils.cpp:68-99 | the erasing loop, in any iteration order, leaves exactly the records that are not stale, and the answer is true exactly for a non-excluded address whose remaining record has reached the maximum |
| `UdpProxyServer.UdpProxy.AddIpConnection` | src/utils.cpp:101-124 | a new record counts 1, an existing one below the maximum counts one more and is stamped again, each with the total; everything else is left alone |
| `UdpProxyServer.UdpProxy.HandleIncomingPacket` | src/udp_proxy.cpp:57-66 | one packet is one step of the specified system, and is forwarded if and only if that step admits it |
| `StreambufSpec.Init` | asio-asio-1-28-0/asio/include/asio/basic_streambuf.hpp:131-141 | a new buffer has an empty queue and room for 128 zero bytes, or for the maximum if that is less; the invariant holds for every maximum size |
| `StreambufSpec.CastExactIff` | asio-asio-1-28-0/asio/include/asio/basic_streambuf.hpp:236 | the cast to `int` is exact if and only if the count is at most 2^31 - 1 |
| `StreambufSpec.ReadSize` | asio-asio-1-28-0/asio/include/asio/basic_streambuf.hpp:353-359 | no subtraction goes below zero; the size asked for always fits under the maximum; it is positive exactly when the buffer is not full and the limit is positive; where both allow it, it is the free capacity, and at least 512 |
| `StreambufSpec.ReserveKeeps` | asio-asio-1-28-0/asio/include/asio/basic_streambuf.hpp:308-346 | `reserve(n)` throws if and only if `size() + n > max_size()`; otherwise the queue is unchanged and there is room for `n`; a throw moves no position |
| `StreambufSpec.ReserveResets` | asio-asio-1-28-0/asio/include/asio/basic_streambuf.hpp:343-345 | after a shift or a growth the get area starts the buffer, both areas meet at the end of the queue, the buffer ends where it did or `n` bytes behind the queue, and what is behind the queue is as before, or zero where the buffer has grown |
| `StreambufSpec.Growth` | asio-asio-1-28-0/asio/include/asio/basic_streambuf.hpp:289-297 | the room that `overflow` asks for is 128 bytes, or exactly what is left under the maximum if that is less and not nothing |
| `StreambufSpec.PutCharQueues` | asio-asio-1-28-0/asio/include/asio/basic_streambuf.hpp:300-301 | storing a character appends it to the queue and takes the first byte of the put area |
| `StreambufRuns.FailedReserveKeepsQueueIff` | asio-asio-1-28-0/asio/include/asio/basic_streambuf.hpp:321-345 | a `reserve` that throws keeps the queued bytes if and only if they repeat with period `gptr` as far as they reach over their new place; the put area is always kept |
| `StreambufRuns.FailedReserveHarmlessIff` | asio-asio-1-28-0/asio/include/asio/basic_streambuf.hpp:321-345 | whatever the bytes are, no `reserve` that throws changes the queue, if and only if `gptr` is 0 or the queue is no longer than `gptr` |
| `StreambufRuns.ThreeStoredOneTaken` | asio-asio-1-28-0/asio/include/asio/basic_streambuf.hpp:283-306 | a concrete state that storing three bytes and reading one reaches |
| `StreambufRuns.FailedPrepareDamagesQueue` | asio-asio-1-28-0/asio/include/asio/basic_streambuf.hpp:214-219 | in that state every `prepare` that is too large replaces the first queued byte by the second one |
| `StreambufRuns.CommitAppendsIff` | asio-asio-1-28-0/asio/include/asio/basic_streambuf.hpp:233-238 | `commit(n)` appends min(n, room) bytes of the put area and keeps the invariant if and only if that count is at most 2^31 - 1 |
| `StreambufRuns.ConsumeRemovesIff` | asio-asio-1-28-0/asio/include/asio/basic_streambuf.hpp:247-254 | `consume(n)` drops min(n, size) bytes and keeps the invariant if and only if that count is at most 2^31 - 1 |
| `StreambufRuns.HugeRoomReached` | asio-asio-1-28-0/asio/include/asio/basic_streambuf.hpp:214-219 | in every new buffer with a maximum size of at least 2^31, 2^31 bytes can be prepared |
| `StreambufRuns.HugeCommitMovesBack` | asio-asio-1-28-0/asio/include/asio/basic_streambuf.hpp:233-238 | committing all of these moves the put pointer to offset -2^31 |
| `StreambufRuns.HugeConsumeMovesBack` | asio-asio-1-28-0/asio/include/asio/basic_streambuf.hpp:247-254 | committing them in two parts is exact, and consuming them in one call moves the get pointer to offset -2^31 |
| `StreambufRuns.SmallBuffersAllowed` | asio-asio-1-28-0/asio/include/asio/basic_streambuf.hpp:233-254 | with a maximum size of at most 2^31 - 1 every commit and consume is in range |
| `StreambufRuns.OverflowExact` | asio-asio-1-28-0/asio/include/asio/basic_streambuf.hpp:283-306 | storing a character throws if and only if the queue is full, and then changes nothing; otherwise it appends exactly that character |
| `StreambufRuns.OverflowGrows` | asio-asio-1-28-0/asio/include/asio/basic_streambuf.hpp:287-298 | storing into a full put area moves the queue to the start, appends the character, and leaves a buffer that reaches 128 bytes beyond the old queue, or the maximum if that is nearer |
| `StreambufRuns.GetStep` | asio-asio-1-28-0/asio/include/asio/basic_streambuf.hpp:263-274 | reading returns the first queued byte, or end of file exactly when the queue is empty, and changes nothing but the end of the get area, which is extended to the put pointer when the get area is used up |
| `StreambufRuns.BumpStep` | asio-asio-1-28-0/asio/include/asio/basic_streambuf.hpp:263-274 | stepping over a character removes exactly the first queued byte |
| `StreambufRuns.StepRefinesQueueIff` | asio-asio-1-28-0/asio/include/asio/basic_streambuf.hpp:214-346 | every operation is a step of the bounded byte queue with the same visible event, if and only if it is not a throwing `prepare` over a queue that does not repeat |
| `StreambufRuns.RunKeepsInv` | asio-asio-1-28-0/asio/include/asio/basic_streambuf.hpp:62-68 | the documented `size() <= max_size()`, and the pointer invariant behind it, hold after every run, throwing steps included |
| `StreambufRuns.RunRefinesQueue` | asio-asio-1-28-0/asio/include/asio/basic_streambuf.hpp:214-346 | a run without a damaging throw is a run of the bounded byte queue with the same events |
| `StreambufRuns.QueueRunIsFifo` | asio-asio-1-28-0/asio/include/asio/basic_streambuf.hpp:42-45 | the queue passes bytes through in order |
| `StreambufRuns.Fifo` | asio-asio-1-28-0/asio/include/asio/basic_streambuf.hpp:214-346 | over such a run of a new buffer, the bytes taken and then the bytes left are the bytes appended, in order |
| `StreambufRuns.SmallRunsAllowed` | asio-asio-1-28-0/asio/include/asio/basic_streambuf.hpp:233-254 | with a maximum size of at most 2^31 - 1, no cast in any run is inexact: a run is in range as soon as its writes stay in the prepared area |
| `StreambufRuns.SmallFifo` | asio-asio-1-28-0/asio/include/asio/basic_streambuf.hpp:214-346 | first in, first out for such buffers, without a condition on casts |
| `StreambufRuns.PrepareWriteCommit` | asio-asio-1-28-0/asio/include/asio/basic_streambuf.hpp:88-103 | `prepare`, fill, `commit` queues exactly the bytes filled in, through any shift or reallocation |
| `Streambuf.BasicStreambuf.constructor` | asio-asio-1-28-0/asio/include/asio/basic_streambuf.hpp:131-141 | the array has min(maximum, 128) bytes but at least one, all zero, and the pointers make both areas empty |
| `Streambuf.BasicStreambuf.Reserve` | asio-asio-1-28-0/asio/include/asio/basic_streambuf.hpp:308-346 | moving down, reallocating and resetting the pointers in place gives the state of `StreambufSpec.Reserve`, also where it throws |
| `Streambuf.BasicStreambuf.Prepare` | asio-asio-1-28-0/asio/include/asio/basic_streambuf.hpp:214-219 | succeeds if and only if `size() + n <= max_size()`, with the queue kept and room for `n` |
| `Streambuf.BasicStreambuf.Commit` | asio-asio-1-28-0/asio/include/asio/basic_streambuf.hpp:233-238 | the put pointer moves by the cast of min(n, room) and the get area ends there; the invariant is kept when the cast is exact; the buffer is not touched |
| `Streambuf.BasicStreambuf.Consume` | asio-asio-1-28-0/asio/include/asio/basic_streambuf.hpp:247-254 | the get area is extended to the put pointer and the get pointer moves by the cast of min(n, size); the invariant is kept when the cast is exact; the buffer is not touched |
| `Streambuf.BasicStreambuf.Underflow` | asio-asio-1-28-0/asio/include/asio/basic_streambuf.hpp:263-274 | extends the get area to the put pointer and returns the byte at the get pointer, or end of file with nothing changed if there is none |
| `Streambuf.BasicStreambuf.Overflow` | asio-asio-1-28-0/asio/include/asio/basic_streambuf.hpp:283-306 | end of file stores nothing; otherwise room is made by the specified amount if there is none, the character is stored, and it is also the result; false where `length_error` is thrown |
| `Streambuf.BasicStreambuf.ReadSizeHelper` | asio-asio-1-28-0/asio/include/asio/basic_streambuf.hpp:353-359 | the result is the size whose bounds `StreambufSpec.ReadSize` states, from the current capacity and pointers |
| `AlignedHeap.DecodeEncode` | asio-asio-1-28-0/asio/include/asio/any_completion_handler.hpp:145-167 | a distance written byte by byte reads back as itself |
| `AlignedHeap.AlignUpIsLowest` | asio-asio-1-28-0/asio/include/asio/detail/memory.hpp:76-91 | the aligned address is the lowest multiple of the alignment that is not below the start, less than one alignment away |
| `AlignedHeap.AlignmentHalf` | asio-asio-1-28-0/asio/include/asio/any_completion_handler.hpp:145 | a power of two that `size_t` can hold leaves a distance that `ptrdiff_t` can hold |
| `AlignedHeap.AlignedFitIff` | asio-asio-1-28-0/asio/include/asio/any_completion_handler.hpp:137-152 | the block obtained holds the aligned user bytes and the stored distance if and only if `size + align - 1 + sizeof(ptrdiff_t)` does not wrap; `bad_alloc` is thrown exactly when `size + align - 1` wraps |
| `AlignedHeap.HugeRequests` | asio-asio-1-28-0/asio/include/asio/any_completion_handler.hpp:137-152 | two concrete requests that wrap: one throws `bad_alloc`, the other is satisfied from a block of no bytes |
| `AlignedHeap.WrappedRequestLeaks` | asio-asio-1-28-0/asio/include/asio/any_completion_handler.hpp:137-152 | in that case the underlying block has been obtained and nobody owns it |
| `AlignedHeap.ObjectsFitIff` | asio-asio-1-28-0/asio/include/asio/any_completion_handler.hpp:477-482 | the typed `allocate(n)` has room for `n` objects if and only if the true byte count does not wrap |
| `AlignedHeap.BlocksApart` | asio-asio-1-28-0/asio/include/asio/any_completion_handler.hpp:137-147 | no user's bytes and no stored distance overlap those of another live block |
| `AlignedHeap.OutstandingAreLive` | asio-asio-1-28-0/asio/include/asio/any_completion_handler.hpp:128-173 | the underlying blocks outstanding are exactly those of the live user blocks |
| `AlignedHeap.AllocateKeepsInv` | asio-asio-1-28-0/asio/include/asio/any_completion_handler.hpp:128-153 | `allocate` hands out a new non-null block and disturbs no other |
| `AlignedHeap.UserWriteKeepsInv` | asio-asio-1-28-0/asio/include/asio/any_completion_handler.hpp:145-147 | writes inside a user block disturb no stored distance |
| `AlignedHeap.AllocateWritesDistanceOnly` | asio-asio-1-28-0/asio/include/asio/any_completion_handler.hpp:145-147 | `allocate` writes only the eight bytes behind the user's, inside its own block of `size + align - 1 + 8` bytes |
| `AlignedHeap.UserBytesStay` | asio-asio-1-28-0/asio/include/asio/any_completion_handler.hpp:128-173 | no step changes a byte of a live block but a write of its user, and none ends the block but its own release |
| `AlignedHeap.DeallocateReturnsBlock` | asio-asio-1-28-0/asio/include/asio/any_completion_handler.hpp:155-173 | `deallocate` with the allocating size and alignment hands back exactly the base and length obtained |
| `AlignedHeap.RunBalances` | asio-asio-1-28-0/asio/include/asio/any_completion_handler.hpp:128-173 | over any interleaving of allocations, frees and confined writes, the underlying allocator gets back only what it handed out, with the same length, and everything once no user block is live |
| `AlignedHeap.HeapRoundTrip` | asio-asio-1-28-0/asio/include/asio/any_completion_handler.hpp:128-173 | the same from an empty heap; what the underlying allocator still misses is exactly what live user blocks were cut from |
| `HandlerAllocatorImpl.HandlerAllocator.Allocate` | asio-asio-1-28-0/asio/include/asio/any_completion_handler.hpp:128-153 | for every base that the underlying allocator may return, memory, outstanding blocks and result are those of `AlignedHeap.Allocate`; without wrap-around it succeeds and keeps the invariant |
| `HandlerAllocatorImpl.HandlerAllocator.Deallocate` | asio-asio-1-28-0/asio/include/asio/any_completion_handler.hpp:155-173 | reads the distance back and returns the base and length that belong to the block; a null pointer returns nothing |
| `HandlerOwnership.StepKeepsInv` | asio-asio-1-28-0/asio/include/asio/any_completion_handler.hpp:590-709 | every operation keeps live objects and non-empty wrappers in bijection, each wrapper's function table that of its object's type, and each object at a proper point of its life |
| `HandlerOwnership.UpcallIsSafe` | asio-asio-1-28-0/asio/include/asio/any_completion_handler.hpp:175-188 | at the moment of the upcall the wrapper is empty, its object is destroyed, and the invariant holds, so a handler may use any wrapper |
| `HandlerOwnership.RunKeepsInv` | asio-asio-1-28-0/asio/include/asio/any_completion_handler.hpp:590-709 | the invariant holds after every run |
| `HandlerOwnership.ExactlyOnce` | asio-asio-1-28-0/asio/include/asio/any_completion_handler.hpp:590-709 | in every run each object ever created is alive and held, or was destroyed exactly once and invoked at most once after that, each through its own type; with every wrapper empty or gone, all are destroyed |
| `HandlerOwnership.UpcallAfterDestruction` | asio-asio-1-28-0/asio/include/asio/any_completion_handler.hpp:175-188 | every upcall directly follows the destruction of its object |
| `HandlerOwnership.CallTwiceThrows` | asio-asio-1-28-0/asio/include/asio/any_completion_handler.hpp:698-709 | a second call throws and changes nothing |
| `HandlerOwnership.CallInvokes` | asio-asio-1-28-0/asio/include/asio/any_completion_handler.hpp:698-709 | a call to a wrapper with a target empties it, destroys the object and then invokes its handler, each through the object's own type; a call to an empty wrapper throws and does nothing |
| `HandlerOwnership.OnlyCallThrows` | asio-asio-1-28-0/asio/include/asio/any_completion_handler.hpp:698-709 | an operation throws if and only if it is a call to an empty wrapper |
| `HandlerOwnership.InvokedIffCalled` | asio-asio-1-28-0/asio/include/asio/any_completion_handler.hpp:175-188 | in every run a handler is invoked if and only if some call found a wrapper that holds it |
| `HandlerOwnership.ConstructionCreates` | asio-asio-1-28-0/asio/include/asio/any_completion_handler.hpp:592-618 | a construction from a handler makes one new object, held by the new wrapper through its own table; the others make none |
| `HandlerOwnership.MoveTransfers` | asio-asio-1-28-0/asio/include/asio/any_completion_handler.hpp:620-642 | a move takes the target over and empties the source; an assignment also destroys the old target; a self-assignment changes nothing |
| `HandlerOwnership.SwapExchanges` | asio-asio-1-28-0/asio/include/asio/any_completion_handler.hpp:670-675 | a swap exchanges what two wrappers hold and does nothing else |
| `HandlerOwnership.ReleaseDestroys` | asio-asio-1-28-0/asio/include/asio/any_completion_handler.hpp:644-656 | assigning null and destroying give the target up and destroy it |
| `HandlerOwnership.OthersUntouched` | asio-asio-1-28-0/asio/include/asio/any_completion_handler.hpp:590-709 | no wrapper that an operation does not name is touched |
| `AnyCompletionHandlerImpl.Perform` | asio-asio-1-28-0/asio/include/asio/any_completion_handler.hpp:590-709 | with any number of wrappers over one store, running the code of one operation takes exactly the step of the world, and leaves every other wrapper alone |
| `AnyCompletionHandlerImpl.ImplStore.NewImpl` | asio-asio-1-28-0/asio/include/asio/any_completion_handler.hpp:95-110 | a new object with the given type and an unused name, and an entry for its creation |
| `AnyCompletionHandlerImpl.ImplStore.DestroyImpl` | asio-asio-1-28-0/asio/include/asio/any_completion_handler.hpp:112-119 | the object is gone and its destruction is recorded; only the table of its own type may be used |
| `AnyCompletionHandlerImpl.ImplStore.CallImpl` | asio-asio-1-28-0/asio/include/asio/any_completion_handler.hpp:176-188 | destruction, and only then the upcall |
| `AnyCompletionHandlerImpl.AnyCompletionHandler.FromHandler` | asio-asio-1-28-0/asio/include/asio/any_completion_handler.hpp:606-618 | the new wrapper holds a new object through its own table |
| `AnyCompletionHandlerImpl.AnyCompletionHandler.Move` | asio-asio-1-28-0/asio/include/asio/any_completion_handler.hpp:620-630 | the target takes the source's pointers and the source is empty |
| `AnyCompletionHandlerImpl.AnyCompletionHandler.Swap` | asio-asio-1-28-0/asio/include/asio/any_completion_handler.hpp:671-675 | the two wrappers exchange what they hold, also with themselves |
| `AnyCompletionHandlerImpl.AnyCompletionHandler.MoveAssign` | asio-asio-1-28-0/asio/include/asio/any_completion_handler.hpp:636-642 | through a temporary: the source is emptied, the old target destroyed; self-assignment changes nothing |
| `AnyCompletionHandlerImpl.AnyCompletionHandler.AssignNull` | asio-asio-1-28-0/asio/include/asio/any_completion_handler.hpp:645-649 | the wrapper is empty and its old target destroyed |
| `AnyCompletionHandlerImpl.AnyCompletionHandler.Destroy` | asio-asio-1-28-0/asio/include/asio/any_completion_handler.hpp:652-656 | the target, if any, is destroyed |
| `AnyCompletionHandlerImpl.AnyCompletionHandler.Call` | asio-asio-1-28-0/asio/include/asio/any_completion_handler.hpp:699-709 | an empty wrapper throws; otherwise the wrapper is emptied, the object destroyed, and the handler invoked |
| `SocketStream.FlushSendsPrefix` | asio-asio-1-28-0/asio/include/asio/basic_socket_streambuf.hpp:490-523 | a flush sends a prefix of its bytes, and succeeds exactly when that is all of them |
| `SocketStream.GoesOnIff` | asio-asio-1-28-0/asio/include/asio/basic_socket_streambuf.hpp:492-522 | the send loop goes on exactly when the deadline has not passed and bytes were taken, or the send would block or asks to be tried again and the poll succeeds |
| `SocketStream.FlushSendsWhatIsOffered` | asio-asio-1-28-0/asio/include/asio/basic_socket_streambuf.hpp:490-523 | it sends exactly what the socket offers to take before the first turn that stops the loop, however split and however often it waits |
| `SocketStream.FailedFlushReports` | asio-asio-1-28-0/asio/include/asio/basic_socket_streambuf.hpp:492-522 | a failing flush has used the script up to the turn that stopped it and reports that turn's error |
| `SocketStream.FlushUsesShortest` | asio-asio-1-28-0/asio/include/asio/basic_socket_streambuf.hpp:490-523 | a flush that succeeds uses the shortest part of the script that takes all its bytes, and leaves the error code of the last send |
| `SocketStream.OverflowAnswers` | asio-asio-1-28-0/asio/include/asio/basic_socket_streambuf.hpp:468-540 | `overflow` fails if and only if the socket stops before it has taken everything; the stream then reports the error of the turn that stopped it, and otherwise the answer is the character |
| `SocketStream.OverflowUsesShortest` | asio-asio-1-28-0/asio/include/asio/basic_socket_streambuf.hpp:468-540 | an `overflow` that succeeds uses the shortest sufficient part of the script and leaves its last error code |
| `SocketStream.NothingToFlush` | asio-asio-1-28-0/asio/include/asio/basic_socket_streambuf.hpp:478-481 | without a put buffer a flush sends nothing and succeeds |
| `SocketStream.FailedOverflow` | asio-asio-1-28-0/asio/include/asio/basic_socket_streambuf.hpp:490-523 | an `overflow` that fails has put a proper prefix of the pending bytes on the wire and left the put area as it was; without a put buffer it has sent nothing |
| `SocketStream.OverflowConserves` | asio-asio-1-28-0/asio/include/asio/basic_socket_streambuf.hpp:468-540 | an `overflow` that succeeds passes every pending byte and the new character on, in order |
| `SocketStream.StepOutput` | asio-asio-1-28-0/asio/include/asio/basic_socket_streambuf.hpp:468-558 | every operation keeps the stream well-formed; the character written joins wire and pending bytes in order unless the step is a torn flush, which sends what the socket offers and keeps it pending; `setbuf` is accepted exactly for a null buffer of size 0 with nothing pending |
| `SocketStream.QuietUntilFull` | asio-asio-1-28-0/asio/include/asio/basic_socket_streambuf.hpp:97-107 | a stream with a put buffer stores up to 512 characters in order and sends nothing |
| `SocketStream.FullAreaFlushes` | asio-asio-1-28-0/asio/include/asio/basic_socket_streambuf.hpp:486-487 | the next character, and without a put buffer every character, goes to `overflow` |
| `SocketStream.OutputExactIff` | asio-asio-1-28-0/asio/include/asio/basic_socket_streambuf.hpp:468-558 | over any run, wire and pending bytes are exactly what was written if and only if no flush is torn, that is, meets a socket that stops after taking some but not all of what is pending; the excess is what the torn flushes repeat |
| `SocketStream.UnbufferedNeverTorn` | asio-asio-1-28-0/asio/include/asio/basic_socket_streambuf.hpp:478-483 | without a put buffer no flush can be torn: the wire always holds exactly what was written, whichever sends fail |
| `SocketStream.SyncedWire` | asio-asio-1-28-0/asio/include/asio/basic_socket_streambuf.hpp:542-545 | after a successful sync the wire holds exactly what was written, if no earlier flush was torn |
| `SocketStream.SameWritingsSameWire` | asio-asio-1-28-0/asio/include/asio/basic_socket_streambuf.hpp:547-558 | whichever sends fail, two runs whose writers were told the same, buffered and unbuffered, put the same bytes on the wire |
| `SocketStream.FlushCost` | asio-asio-1-28-0/asio/include/asio/basic_socket_streambuf.hpp:490-523 | a socket that takes something at least once per byte takes everything, and a flush uses at most one such send per byte |
| `SocketStream.RunAccepts` | asio-asio-1-28-0/asio/include/asio/basic_socket_streambuf.hpp:468-558 | on such a socket every write of every run is accepted and no flush is torn |
| `SocketStream.BufferingInvisible` | asio-asio-1-28-0/asio/include/asio/basic_socket_streambuf.hpp:547-558 | on two sockets that each take something at least once per character, in whatever portions and after whatever waits, the same operations put the same bytes on the wire with the put buffer and without it: the characters written |
| `SocketStream.FailedFlushRepeatsBytes` | asio-asio-1-28-0/asio/include/asio/basic_socket_streambuf.hpp:490-523 | two characters, a sync that fails after one, and a good sync: the first is sent twice |
| `SocketStream.Fetch` | asio-asio-1-28-0/asio/include/asio/basic_socket_streambuf.hpp:423-464 | a chunk never exceeds the buffer behind the putback gap |
| `SocketStream.FetchDecides` | asio-asio-1-28-0/asio/include/asio/basic_socket_streambuf.hpp:423-464 | the receive loop waits while it may and takes the first turn that decides: its data, cut to the buffer, or its error |
| `SocketStream.WaitsIff` | asio-asio-1-28-0/asio/include/asio/basic_socket_streambuf.hpp:425-463 | the receive loop waits exactly when the deadline has not passed, nothing has come and the peer has not closed, the receive would block or asks to be tried again, and the poll succeeds |
| `SocketStream.UnderflowAnswers` | asio-asio-1-28-0/asio/include/asio/basic_socket_streambuf.hpp:414-466 | with characters unread `underflow` refuses; otherwise the first turn that is not a wait decides: its data, at most 504 bytes, stands behind the 8-byte gap and is the get area, or its error is reported and the get area is left alone |
| `SocketStream.StepInput` | asio-asio-1-28-0/asio/include/asio/basic_socket_streambuf.hpp:414-466 | no operation loses, reorders or repeats a received byte; a reader gets the first unread byte, and end of file only if there is none |
| `SocketStream.InputExact` | asio-asio-1-28-0/asio/include/asio/basic_socket_streambuf.hpp:414-466 | over any run, what was unread and then all chunks received is what was delivered and then what is unread |
| `SocketStream.ReceivedInOrder` | asio-asio-1-28-0/asio/include/asio/basic_socket_streambuf.hpp:434-445 | over any run, what `recv` has delivered and then what its script still holds is what it was: no chunk is skipped, reordered or taken twice |
| `SocketStream.NewStreamInput` | asio-asio-1-28-0/asio/include/asio/basic_socket_streambuf.hpp:414-466 | from a new stream, what was read, then what is unread, then what is still to come is everything the peer's script holds, in order |
| `SocketStreambuf.BasicSocketStreambuf.constructor` | asio-asio-1-28-0/asio/include/asio/basic_socket_streambuf.hpp:192-198 | a new stream: both areas empty, the get area behind the gap |
| `SocketStreambuf.BasicSocketStreambuf.InitBuffers` | asio-asio-1-28-0/asio/include/asio/basic_socket_streambuf.hpp:566-576 | both areas are emptied |
| `SocketStreambuf.BasicSocketStreambuf.SendAll` | asio-asio-1-28-0/asio/include/asio/basic_socket_streambuf.hpp:490-523 | the send loop ends on every finite script; wire, error and rest of the script are those of `SocketStream.Flush` |
| `SocketStreambuf.BasicSocketStreambuf.Overflow` | asio-asio-1-28-0/asio/include/asio/basic_socket_streambuf.hpp:468-540 | without a put buffer the character itself is sent; with one, everything pending is sent, the put area is emptied, and the character is stored; a failed send leaves the put area as it was |
| `SocketStreambuf.BasicSocketStreambuf.Sync` | asio-asio-1-28-0/asio/include/asio/basic_socket_streambuf.hpp:542-545 | the result and the state are those of an `overflow` of end of file: all pending bytes are sent, or the send error is reported |
| `SocketStreambuf.BasicSocketStreambuf.Setbuf` | asio-asio-1-28-0/asio/include/asio/basic_socket_streambuf.hpp:547-558 | a null buffer of size 0 with nothing pending drops the put buffer; everything else is refused and changes nothing |
| `SocketStreambuf.BasicSocketStreambuf.ReceiveSome` | asio-asio-1-28-0/asio/include/asio/basic_socket_streambuf.hpp:423-464 | the receive loop ends on every finite script; chunk, error and rest of the script are those of `SocketStream.Fetch` |
| `SocketStreambuf.BasicSocketStreambuf.Underflow` | asio-asio-1-28-0/asio/include/asio/basic_socket_streambuf.hpp:414-466 | the chunk stands behind the 8-byte gap, the get area is exactly the chunk, and the result is its first byte; end of file leaves the get area alone |

## Left out

- Sockets, resolver, timers, threads, logging, configuration files and `main`: input and output, or services.
- `UdpProxy::startProxy`: ports share one buffer and one endpoint, and each is re-armed once; packets are an arbitrary input here.
- `blockedConnections`: never updated.
- 32-bit overflow of the counters, of the total and of `blockDurationMinutes * 60`: unbounded integers stand for them.
- The packet builders in `modules_1/src/utils.cpp`: no round trip holds for them, and their bounds are easy.
- Putback (`sungetc`, `sputbackc`) in both stream buffers: the byte before `gptr` need not be the one last taken.
- Failure of the memory allocation inside `vector::resize`, and wrap-around of the pointer sum in `basic_streambuf::consume`: the sum is taken over unbounded integers.
- Moves, `connect` and the destructor of `basic_socket_streambuf`, and `close`, which ignores the result of `sync`.
- AlignedHeap.RunBalances: covers runs whose requests do not wrap; AlignedHeap.AlignedFitIff says exactly what happens to one that does.
- StreambufRuns.RunRefinesQueue: covers runs without a damaging throw; StreambufRuns.StepRefinesQueueIff says exactly which throws those are.
- A handler constructor that throws while an `any_completion_handler` is created, cancellation slots, associated executors, and allocators that outlive their handler.
- `HandlerOwnership` names objects by order of creation, so reuse of an address is not visible in it.
- `awaitable`, `async_result` and the forwarding wrappers: little state of their own.
