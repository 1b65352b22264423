# Verified model of the Caribean Fight server

The repository is a small game server (rooms, games, a protocol that collects player states
and sends them to everybody, a fixed-block memory pool) together with the Boost headers it
ships. This project models the parts of it that carry real algorithms and proves what they
promise. `dafny verify dfyconfig.toml` checks everything.

| files | what they model |
|---|---|
| `Numbers.dfy`, `Rationals.dfy` | `boost::rational`: reduced fractions updated in place, comparison by continued fractions |
| `Words.dfy`, `CrcTheory.dfy`, `Polynomials.dfy`, `Crc.dfy`, `Rfc1952.dfy` | `boost::crc`: the bit-serial computer, the table-driven computer, augmented messages; every CRC as the remainder of a polynomial division; `crc_32_type` against the sample code of RFC 1952 |
| `PoolSpec.dfy`, `FixedMemPool.dfy` | the memory pool: an abstract pool, and the allocator with its free list threaded through the blocks |
| `RingQueues.dfy`, `Frames.dfy`, `Sessions.dfy`, `Games.dfy` | circular queues, frames and their wire format, sessions and rooms, the two kinds of game pass |
| `SyncSpec.dfy`, `Server.dfy` | the state-sync protocol as a state machine, and all sessions and games of a server running it |
| `Lobby.dfy` | creating, joining and starting rooms |
| `Tokenizer.dfy`, `EscapedLists.dfy` | the escaped-list tokenizer driven to the end of its input; what every text means, and lists that are read back as written |
| `Hex.dfy`, `Power.dfy`, `Choice.dfy` | hexadecimal codec, exponentiation by squaring, weighted choice |

Ideas worth knowing before reading:

- **Rationals.** Coprimality is argued through Bezout certificates. Values are compared by
  cross-multiplication; `ReducedFormUnique` says a value has one reduced form, so the
  operators' contracts fix both fields. Every operator also covers an argument that is the
  receiver itself.
- **CRC.** A remainder is a bit sequence as long as the CRC is wide; any width from 1 up is
  covered. The bit-serial division `Feed` is the specification of both computers. Machine
  words may be wider than the CRC (`storage`), and the unused upper bits may hold garbage.
- **Pool.** Addresses are 64-bit and pointer arithmetic wraps. The region is an array of
  block records; the free list is a chain of offsets stored in them.
- **Server.** `SyncSpec` is the protocol on values; `Server.RunEvents` shows that any
  interleaving of events on the objects is a run of it, so its laws hold of the objects.
  Ghost parameters (`ps`, `caches`, `w`, `before`) only name the state before the call.

What turned out not to hold as one might expect, and exactly when it does:

- `IsValidBlock` accepts, besides the carved blocks, addresses whose end wraps past 2^64
  (`ChecksExact`); `NullPassesChecks` is `Free(NULL)` on a pool of 16-byte blocks.
- Re-attaching to an initialised region succeeds if and only if the memory happened to hold
  the node size, because `Init` never writes it (`Pool.Init`).
- An escaped list is read back as it was written if and only if it is not one bare empty
  field and no `n` had to be escaped, since an escaped `n` always means a newline
  (`EscapedLists.RoundTrip`, `EscapedLists.SeparatorNFails`).
- A CRC tells apart all equally long messages that differ only inside a window of its own
  width if its polynomial has a constant term (`BurstDetected`), and otherwise misses some
  such burst (`BurstMissed`). Of the four predefined CRCs, `crc_xmodem_type` has no constant
  term (`XmodemBlindSpot`).
- `FspHandleActionPkg` logs that it drops a repeated action, but queues it all the same.

## Model

| member | source | states |
|---|---|---|
| Rationals.Rational.Less | 3rd/boost_1_60_0/include/boost/rational.hpp:413-495 | for positive denominators and any numerators, the continued-fraction loop ends and returns true exactly when num\*r.den < r.num\*den |
| Rationals.FloorDivMod | 3rd/boost_1_60_0/include/boost/rational.hpp:440-441 | the repair loops turn truncating division into floor division |
| Rationals.Rational.LessInt | 3rd/boost_1_60_0/include/boost/rational.hpp:497-513 | comparing only the floor decides num < i\*den |
| Rationals.Rational.GreaterInt | 3rd/boost_1_60_0/include/boost/rational.hpp:515-519 | > built from == and < is num > i\*den |
| Rationals.Rational.Equals | 3rd/boost_1_60_0/include/boost/rational.hpp:521-526 | comparing the two fields of reduced fractions is comparing values |
| Rationals.Rational.AddAssign | 3rd/boost_1_60_0/include/boost/rational.hpp:278-311 | the exact sum, again reduced, also when r is the receiver |
| Rationals.SumIsReduced | 3rd/boost_1_60_0/include/boost/rational.hpp:284-297 | why dividing only by gcd(numerator, g) leaves lowest terms: the argument of the source comment, complete |
| Rationals.PartCoprime | 3rd/boost_1_60_0/include/boost/rational.hpp:291-293 | a\*d1 + c\*b1 has no factor in common with b1 |
| Rationals.Rational.SubAssign | 3rd/boost_1_60_0/include/boost/rational.hpp:313-330 | the exact difference, again reduced, also when r is the receiver |
| Rationals.Rational.MulAssign | 3rd/boost_1_60_0/include/boost/rational.hpp:332-345 | the exact product, again reduced, by cross-cancelling only |
| Rationals.ProductIsCoprime | 3rd/boost_1_60_0/include/boost/rational.hpp:339-343 | after cross-cancelling nothing is left to cancel |
| Rationals.Rational.DivAssign | 3rd/boost_1_60_0/include/boost/rational.hpp:347-374 | bad_rational exactly for a zero divisor, with the receiver unchanged; otherwise the exact quotient, reduced, positive denominator |
| Rationals.Rational.MulAssignInt | 3rd/boost_1_60_0/include/boost/rational.hpp:377-387 | the same for an integer factor |
| Rationals.Rational.DivAssignInt | 3rd/boost_1_60_0/include/boost/rational.hpp:389-410 | the same for an integer divisor |
| Rationals.Rational.Normalize | 3rd/boost_1_60_0/include/boost/rational.hpp:543-578 | fails exactly on a zero denominator; otherwise keeps the value and establishes the class invariant |
| Rationals.Rational.Assign | 3rd/boost_1_60_0/include/boost/rational.hpp:256-261 | a failing assign leaves the receiver as it was |
| Rationals.InnerGcdIsGcd | 3rd/boost_1_60_0/include/boost/rational.hpp:231-234 | Euclid with truncating remainders gives the gcd up to sign |
| Rationals.IsNormalizedIffReduced | 3rd/boost_1_60_0/include/boost/rational.hpp:247-253 | is_normalized holds exactly when den > 0 and the gcd is 1 |
| Rationals.ReducedFormUnique | 3rd/boost_1_60_0/include/boost/rational.hpp:240-243 | equal values in reduced form have equal fields |
| Rationals.AddThenSubtract | 3rd/boost_1_60_0/include/boost/rational.hpp:278-330 | += then -= of the same number restores both fields |
| Rationals.MultiplyThenDivide | 3rd/boost_1_60_0/include/boost/rational.hpp:332-374 | \*= then /= of the same non-zero number restores both fields |
| Numbers.TruncDivMod | 3rd/boost_1_60_0/include/boost/rational.hpp:435-439 | what C++ promises of / and % together, signs included |
| CrcTheory.FeedByTable | 3rd/boost_1_60_0/include/boost/crc.hpp:954-965 | n bit steps from any remainder are a shift by n plus n steps from zero on the compared bits, for every width |
| CrcTheory.FeedLinear | 3rd/boost_1_60_0/include/boost/crc.hpp:727-751 | the division is linear over XOR in remainder and message |
| CrcTheory.FeedAppend | 3rd/boost_1_60_0/include/boost/crc.hpp:784-797 | blocks may be fed in pieces |
| CrcTheory.AugmentedIsPlain | 3rd/boost_1_60_0/include/boost/crc.hpp:1064-1073 | augmented division of a message and width zero bits is the plain division from the augmented starting remainder, for every starting remainder |
| CrcTheory.AugFeedByTable | 3rd/boost_1_60_0/include/boost/crc.hpp:1066-1072 | one table step of augmented_crc is its bit steps |
| CrcTheory.CheckFieldDetects | 3rd/boost_1_60_0/include/boost/crc.hpp:1045-1076 | message and check field divide to zero if and only if the field is the message's CRC |
| CrcTheory.BurstDetected | 3rd/boost_1_60_0/include/boost/crc.hpp:727-751 | with a constant term, messages differing only inside a window of the CRC's width get different remainders |
| CrcTheory.BurstMissed | 3rd/boost_1_60_0/include/boost/crc.hpp:727-751 | without a constant term some burst of exactly the CRC's width leaves no trace |
| Polynomials.FeedIsRemainder | 3rd/boost_1_60_0/include/boost/crc.hpp:727-751 | for every width, polynomial and starting remainder: the bit-serial result is the one and only f of degree below the width with dividend = quotient\*(x^width + poly) + f |
| Polynomials.ChecksumExact | 3rd/boost_1_60_0/include/boost/crc.hpp:784-823 | the complete checksum of a message is that remainder, its bits taken in the order the input flag asks for, turned round if the output flag asks for it, with the final value added; and nothing else is |
| Polynomials.RemainderUnique | 3rd/boost_1_60_0/include/boost/crc.hpp:727-751 | a polynomial with leading term x^width leaves only one remainder |
| Crc.Reflect | 3rd/boost_1_60_0/include/boost/crc.hpp:307-326 | reverses the low width bits and clears the others |
| Crc.ReflectIf | 3rd/boost_1_60_0/include/boost/crc.hpp:572-574 | the optional reflection, and when garbage survives it |
| Crc.CrcBasic.ProcessBit | 3rd/boost_1_60_0/include/boost/crc.hpp:727-751 | one division step on the significant bits |
| Crc.CrcBasic.ProcessBits | 3rd/boost_1_60_0/include/boost/crc.hpp:753-770 | feeds the low count bits of a byte, upper ones first |
| Crc.CrcBasic.ProcessByte | 3rd/boost_1_60_0/include/boost/crc.hpp:772-782 | feeds a byte in the order reflect_input asks for |
| Crc.CrcBasic.ProcessBlock | 3rd/boost_1_60_0/include/boost/crc.hpp:784-797 | feeds every bit of the block |
| Crc.CrcBasic.GetChecksum | 3rd/boost_1_60_0/include/boost/crc.hpp:814-823 | optionally reflected remainder XOR final value, masked |
| Crc.CrcTable.InitTable | 3rd/boost_1_60_0/include/boost/crc.hpp:488-536 | fills all 256 slots, each with the eight-step division of its byte in the table's own bit order; a second call changes nothing that matters |
| Crc.CrcTable.DivideByte | 3rd/boost_1_60_0/include/boost/crc.hpp:507-528 | the inner loop divides one dividend byte, upper bits first |
| Crc.SlotInvolution | 3rd/boost_1_60_0/include/boost/crc.hpp:530-531 | the reflected slot numbering is its own inverse, so no entry is overwritten |
| Crc.TableStep | 3rd/boost_1_60_0/include/boost/crc.hpp:576-582 | index, shift and XOR feed exactly one byte to the un-reflected remainder, in both conventions and for widths below a byte |
| Crc.CrcOptimal.constructor | 3rd/boost_1_60_0/include/boost/crc.hpp:835-843 | starts from the given remainder, reflected in storage, with the table ready |
| Crc.CrcOptimal.ProcessBlock | 3rd/boost_1_60_0/include/boost/crc.hpp:947-966 | the table-driven block feeds every bit, as the bit-serial one does |
| Crc.CrcOptimal.GetChecksum | 3rd/boost_1_60_0/include/boost/crc.hpp:988-995 | reflecting only where input and output reflection differ gives the same checksum formula |
| Crc.CrcOptimal.GetInterimRemainder | 3rd/boost_1_60_0/include/boost/crc.hpp:909-916 | the un-reflected, masked remainder |
| Crc.CrcOptimal.Reset | 3rd/boost_1_60_0/include/boost/crc.hpp:922-929 | restarts from the given remainder |
| Crc.CompareComputers | 3rd/boost_1_60_0/include/boost/crc.hpp:784-995 | both computers return the same checksum for every message, initial value, final XOR and reflection pair, whatever their storage widths |
| Crc.CrcOf | 3rd/boost_1_60_0/include/boost/crc.hpp:1025-1040 | crc() returns the specified checksum |
| Crc.AugmentedCrc | 3rd/boost_1_60_0/include/boost/crc.hpp:1045-1076 | augmented_crc is the division of the message itself, for any starting remainder |
| Crc.AugTableStep | 3rd/boost_1_60_0/include/boost/crc.hpp:1069-1072 | one turn of its loop feeds one byte |
| Crc.AugmentedMessage | 3rd/boost_1_60_0/include/boost/crc.hpp:1045-1076 | with width/8 zero bytes appended it is the plain unreflected CRC; from remainder 0 that is the one with init 0 |
| Crc.CheckBytesDetect | 3rd/boost_1_60_0/include/boost/crc.hpp:1045-1076 | message and width/8 check bytes give 0 if and only if the bytes are the CRC, high byte first |
| Crc.BurstChangesChecksum | 3rd/boost_1_60_0/include/boost/crc.hpp:814-823 | the burst guarantee for complete checksums with any init, final XOR and reflections |
| Crc.PresetConstantTerms | 3rd/boost_1_60_0/include/boost/crc.hpp:93-98 | which of the predefined polynomials have a constant term |
| Crc.XmodemBlindSpot | 3rd/boost_1_60_0/include/boost/crc.hpp:95 | a 16-bit burst that crc_xmodem_type never notices |
| Rfc1952.Crc32IsRfc1952 | 3rd/boost_1_60_0/include/boost/crc.hpp:97-98 | the parameters of crc_32_type specify, for every message, the checksum of the sample code in section 8 of RFC 1952, which works on reversed remainders |
| Rfc1952.TableEntryIsGood | 3rd/boost_1_60_0/include/boost/crc.hpp:504-533 | an entry made by shifting right under the reversed polynomial, as the RFC makes it, is the entry the table keeps for reflected input |
| PoolSpec.AllocSound | src/util/fixed_mem_pool.cpp:43-72 | allocation fails exactly when capacity blocks are live; otherwise it adds a block that was not live |
| PoolSpec.FreeSound | src/util/fixed_mem_pool.cpp:74-85 | freeing succeeds exactly on live blocks and removes just that one |
| PoolSpec.FreeThenAlloc | src/util/fixed_mem_pool.h:201-224 | the block freed last is handed out next, and the pool is as before |
| PoolSpec.LiveCount | src/util/fixed_mem_pool.cpp:43-85 | live and free blocks together are the carved ones |
| PoolSpec.LiveFromExact | src/util/fixed_mem_pool.h:94-103 | the iteration order is increasing and leaves out no live block |
| PoolSpec.RunAgrees | src/util/fixed_mem_pool.cpp:43-85 | in every run the pool agrees with its user's own record of held blocks, nobody shares a block, capacity holds |
| FixedMemPool.ChecksExact | src/util/fixed_mem_pool.h:172-194 | IsValidBlock holds exactly for carved block addresses and for the addresses that wrap around |
| FixedMemPool.NullPassesChecks | src/util/fixed_mem_pool.h:178-185 | the concrete address that passes the checks without being a block |
| FixedMemPool.BlockSizeFits | src/util/fixed_mem_pool.h:150-153 | a block holds its node and link, rounded up to a multiple of 8 |
| FixedMemPool.BlocksDisjoint | src/util/fixed_mem_pool.cpp:47-51 | blocks do not overlap and end inside the region |
| FixedMemPool.OffsetLinear | src/util/fixed_mem_pool.h:164-165 | block k lies at header + k\*block_size |
| FixedMemPool.ChainPop | src/util/fixed_mem_pool.h:211-224 | unlinking the head keeps the free list a chain through the rest |
| FixedMemPool.ChainPush | src/util/fixed_mem_pool.h:202-206 | linking a live block in front keeps it a chain |
| FixedMemPool.ZeroLinkIsLive | src/util/fixed_mem_pool.h:197-199 | next == 0 exactly on live blocks |
| FixedMemPool.Pool.Init | src/util/fixed_mem_pool.cpp:4-34 | a fresh pool is empty and valid; re-attaching changes nothing and succeeds exactly when node size, block size, node count, region size and used size all match and the used size fits; any one mismatch is refused; node_size is never written |
| FixedMemPool.Pool.GetFreeBlock | src/util/fixed_mem_pool.h:211-224 | pops the free list, or NULL when it is empty |
| FixedMemPool.Pool.LinkFreeBlock | src/util/fixed_mem_pool.h:202-206 | pushes a block and writes only its link |
| FixedMemPool.Pool.TakeBlock | src/util/fixed_mem_pool.cpp:44-58 | recycles, carves or gives up as the abstract pool does; the wrong-format branch is never taken |
| FixedMemPool.Pool.Alloc | src/util/fixed_mem_pool.cpp:43-72 | refines the abstract allocation; the block handed out gets link 0 and, if asked for, a node of zeros, else its old bytes; every other block keeps link and bytes, and on NULL nothing changes |
| FixedMemPool.Pool.Free | src/util/fixed_mem_pool.cpp:74-85 | for any pointer: frees exactly the nodes of live blocks, rejects all others with the pool unchanged, and reads outside the region exactly for wrapping addresses |
| FixedMemPool.Pool.ReleaseBlock | src/util/fixed_mem_pool.cpp:76-82 | the same in terms of block addresses |
| FixedMemPool.Pool.GetNextBlock | src/util/fixed_mem_pool.h:79-92 | the next carved block, or NULL past the last |
| FixedMemPool.Pool.GetNextUsedBlock | src/util/fixed_mem_pool.h:94-103 | the loop stops at the next live block, or NULL |
| FixedMemPool.Pool.GetNextNode | src/util/fixed_mem_pool.h:105-117 | the node of the next live block |
| FixedMemPool.LiveNodes | src/util/fixed_mem_pool.h:105-117 | iterating from NULL ends and lists every live node once, in address order |
| FixedMemPool.WalkFreeList | src/util/fixed_mem_pool.h:37-39 | following next from the header ends at kInvalidPointer and visits exactly the carved blocks with non-zero next, each once |
| FixedMemPool.Run | src/util/fixed_mem_pool.cpp:43-85 | any run of Alloc and Free on the real pool is the abstract run, and a block that is live and never freed in it stays live and keeps its bytes |
| RingQueues.RingQueue.Push | src/ring_queue.h:55-67 | appends, or returns -1 and changes nothing when cap elements are queued |
| RingQueues.RingQueue.Pop | src/ring_queue.h:46-52 | drops the oldest element, nothing on an empty queue |
| RingQueues.RingQueue.Front | src/ring_queue.h:28-31 | the oldest element |
| RingQueues.RingQueue.Back | src/ring_queue.h:19-22 | the newest element |
| RingQueues.RingQueue.Size | src/ring_queue.h:33-43 | the number of queued elements, wrapped or not |
| RingQueues.RingQueue.Full | src/ring_queue.h:76 | full exactly when cap elements are queued |
| RingQueues.RingQueue.Empty | src/ring_queue.h:25 | empty exactly when nothing is queued |
| RingQueues.RingQueue.Clear | src/ring_queue.h:69-73 | leaves nothing queued |
| Frames.Frame.AddAction | src/frame.cpp:4-14 | stores up to 40 actions, then refuses |
| Frames.Frame.ByteSize | src/frame.cpp:17-22 | 3 bytes and 5 for each action: the exact length of the encoding |
| Frames.Frame.SerializeToArray | src/frame.cpp:24-51 | writes id, count, and each action's vkey, arg and role at their byte positions, high byte first, and nothing else; or refuses a buffer that is too short |
| Frames.DecodeExact | src/udp_pkg_def.h:29-41 | a buffer reads as a list of frames if and only if it is their encoding |
| Frames.PackFrames | src/frame.cpp:24-51 | frames serialized back to back read back as those frames: each field of each action modulo 65536 or 256, in order |
| Sessions.Session.SspHandleStatePkg | src/session.cpp:172-177 | a packet is queued, or dropped exactly when 100 are waiting |
| Sessions.Session.PopState | src/session.cpp:179-191 | returns the oldest waiting state, which moves from the waiting to the consumed ones; -1 and no change if none waits |
| Sessions.Session.SendStateCacheToClient | src/session.cpp:193-210 | writes the buffered state unless there is none |
| Sessions.Session.FspHandleActionPkg | src/session.cpp:226-251 | a repeated action is noticed and queued like any other |
| Sessions.Session.PopAction | src/session.cpp:255-275 | takes the oldest action and keeps the high-water mark |
| Sessions.FrameMgr.AddState | src/frame_mgr.cpp:6-15 | appends a non-empty state and its terminator |
| Sessions.Room.AddPlayer | src/room.cpp:4-30 | -1 for a player already inside, -2 for a full room, else adds and returns the new number |
| Games.Game.SspCalculateFrame | src/game.cpp:26-43 | takes the oldest waiting state of every player that has one; the collected text is exactly the states taken, in roster order |
| Games.Game.SendStateNtfToAll | src/game.cpp:45-54 | the same message to every player, then an empty buffer |
| Games.Game.FrameTick | src/game.cpp:10-24 | every player gives up its oldest waiting state, and each is sent one message made of exactly the states given up in this tick, in roster order, and a terminator, or nothing if they are empty; the shared buffer is empty between ticks |
| Games.TickIsBoth | src/game.cpp:19-21 | collecting, buffering and sending compose to the protocol's tick |
| Games.Game.FspCalculateFrame | src/game.cpp:56-97 | each player keeps exactly what is behind its first min(5, pending) actions, despite erasing from the list it walks; every cache is unchanged if the frame is full |
| Games.Game.PickFrom | src/game.cpp:66-87 | the inner loop for one player, and when it asks to erase |
| Games.WalkOn | src/game.cpp:83-92 | erasing and stepping on both lead to the next player |
| SyncSpec.RunConserves | src/game.cpp:10-54 | in every interleaving each player's accepted states are its consumed ones followed by its pending ones, at most 100 |
| SyncSpec.ServiceOrder | src/session.cpp:187-189 | t ticks serve at most t states, and exactly the first t that were waiting if there were that many |
| SyncSpec.NothingDropped | src/ring_queue.h:55-67 | packets that fit beside what is waiting are all accepted, in order |
| SyncSpec.DroppedOnlyWhenFull | src/session.cpp:172-177 | a packet changes nothing exactly when 100 are pending |
| SyncSpec.SameBroadcasts | src/game.cpp:45-54 | players in the same games throughout a run are sent the same messages in the same order |
| SyncSpec.TickSendsWhatItTakes | src/game.cpp:10-54 | a tick takes the oldest state of each of its players and writes to each of them exactly what it took, in roster order; nobody else is touched |
| SyncSpec.SentIsConsumed | src/game.cpp:10-54 | in every run a player is sent exactly what the ticks of its games took from their players, message by message, and nothing else |
| SyncSpec.RosterExact | src/room.cpp:4-30 | in every run a roster only grows, at its end, never past its capacity by joining, and holds exactly the players that were there or asked while there was room |
| Server.RunEvents | src/game_mgr.cpp:37-44 | any interleaving of arrivals, ticks and joins on the objects is a run of the protocol |
| Server.Arrival | src/session.cpp:172-177 | an arrival changes only its own player |
| Server.GameTick | src/game.cpp:10-24 | a tick changes only the players of that game |
| Server.Joining | src/room.cpp:4-30 | a player may join the room of a running game and is served from then on |
| Lobby.GameMgr.GetGame | src/game_mgr.cpp:5-15 | the game under that id, or NULL |
| Lobby.GameMgr.CreateGame | src/game_mgr.cpp:17-35 | NULL for no room or a fighting one, else a new game that marks its room |
| Lobby.RoomMgr.CreateRoom | src/room_mgr.cpp:5-13 | a new room under the next id, creator inside |
| Lobby.RoomMgr.JoinRoom | src/room_mgr.cpp:15-33 | adds the player if the room takes it, touches no other room |
| Lobby.RoomMgr.StartGame | src/room_mgr.cpp:35-64 | starts a game exactly for a known room that is not fighting |
| Lobby.RunRequests | src/room_mgr.cpp:5-64 | in every run: exactly those rooms are open, players inside, games begun and filed that were so before or that a request brought about; ids are keys below the counter, members distinct and between 1 and max(1, capacity), a room fights exactly when one game refers to it, and it never gets a second |
| Lobby.HistoryExact | src/room_mgr.cpp:5-64 | which requests, under which conditions, open a room, let a player in, begin a game and file it; rooms keep their capacity, and their players in order of arrival |
| Tokenizer.EscapedListSeparator.DoEscape | 3rd/boost_1_60_0/include/boost/token_functions.hpp:126-148 | an escaped n appends a newline, any other character of the three classes appends itself, anything else and the end of the text are the two errors |
| Tokenizer.EscapedListSeparator.NextField | 3rd/boost_1_60_0/include/boost/token_functions.hpp:161-198 | reads one field, with the flag for a field still due |
| Tokenizer.TokenIterator.Initialize | 3rd/boost_1_60_0/include/boost/token_iterator.hpp:67-72 | an empty input has no field; otherwise the first one is read |
| Tokenizer.TokenIterator.Increment | 3rd/boost_1_60_0/include/boost/token_iterator.hpp:50-53 | moves to the next field or becomes invalid |
| Tokenizer.Tokenize | 3rd/boost_1_60_0/include/boost/token_iterator.hpp:50-72 | iterating to the end gives exactly the fields, or the first error |
| EscapedLists.ReadsExactly | 3rd/boost_1_60_0/include/boost/token_functions.hpp:161-198 | every non-empty text: it reads as a list of fields if and only if it is those fields, spelled in some way, with separators outside quotes between them |
| EscapedLists.FailsExactly | 3rd/boost_1_60_0/include/boost/token_functions.hpp:126-148 | every text: reading fails with an error if and only if an escape in it is broken in that way |
| EscapedLists.ScanField | 3rd/boost_1_60_0/include/boost/token_functions.hpp:170-195 | the loop reads pieces one by one: quotes toggle and say nothing, an escaped n is a newline, separators count inside quotes |
| EscapedLists.FieldsOfWritten | 3rd/boost_1_60_0/include/boost/token_functions.hpp:161-198 | any written list, fields bare or quoted, newlines bare or written as an escaped n, is read back field by field, trailing empty ones included |
| EscapedLists.RoundTrip | 3rd/boost_1_60_0/include/boost/token_functions.hpp:126-198 | reading back gives the same list if and only if it is not one bare empty field and no n had to be escaped |
| EscapedLists.DefaultRoundTrip | 3rd/boost_1_60_0/include/boost/token_functions.hpp:152-154 | with the default characters, newlines escaped or not, only the single bare empty field is lost |
| EscapedLists.SeparatorNFails | 3rd/boost_1_60_0/include/boost/token_functions.hpp:130-133 | the list that is lost when n is the separator |
| Hex.EncodeOne | 3rd/boost_1_60_0/include/boost/algorithm/hex.hpp:56-64 | the digits of one value, most significant first |
| Hex.DecodeOne | 3rd/boost_1_60_0/include/boost/algorithm/hex.hpp:119-134 | one value, or which error comes first |
| Hex.Hex | 3rd/boost_1_60_0/include/boost/algorithm/hex.hpp:147-153 | encodes value after value |
| Hex.Unhex | 3rd/boost_1_60_0/include/boost/algorithm/hex.hpp:193-198 | decodes to the end or to the first error |
| Hex.RoundTrip | 3rd/boost_1_60_0/include/boost/algorithm/hex.hpp:147-198 | unhex of hex is the identity on values that fit their type |
| Hex.UnhexExact | 3rd/boost_1_60_0/include/boost/algorithm/hex.hpp:193-198 | accepted exactly if all characters are digits and values are whole; short of input exactly if only the length is wrong; hex of unhex is the text in upper case |
| Hex.UnhexFirstBad | 3rd/boost_1_60_0/include/boost/algorithm/hex.hpp:67-75 | of several bad characters the first one is the one reported |
| Hex.DigitValues | 3rd/boost_1_60_0/include/boost/algorithm/hex.hpp:56-75 | each character of the upper- and lower-case alphabets stands for its place in it |
| Hex.PlaceValue | 3rd/boost_1_60_0/include/boost/algorithm/hex.hpp:119-134 | digits in front are worth 16 times more for each digit behind them |
| Power.Power | 3rd/boost_1_60_0/include/boost/algorithm/algorithm.hpp:67-82 | the n-fold product for any associative operation with identity, commutative or not |
| Power.ProductAdds | 3rd/boost_1_60_0/include/boost/algorithm/algorithm.hpp:57-66 | powers of one element add exponents |
| Power.ProductOne | 3rd/boost_1_60_0/include/boost/algorithm/algorithm.hpp:67-71 | the zeroth power is the identity and the first the element itself |
| Power.Halve | 3rd/boost_1_60_0/include/boost/algorithm/algorithm.hpp:72-80 | halving the exponent and squaring the base keeps what is owed |
| Choice.ProbNChooseOne | src/util/util.h:384-408 | the item whose prefix-weight interval contains the random number modulo the total weight |
| Choice.Draw | src/util/util.h:367-370 | the random number reduced modulo the total |
| Choice.OneOwner | src/util/util.h:400-407 | the intervals do not overlap, so the choice is determined |
| Choice.Fair | src/util/util.h:384-408 | exactly weight(i) of the numbers below the total choose item i, none for weight zero |

## Left out

- FixedMemPool.Pool.Init: the memory handed in must have the promised size and end at least one block below 2^64; a null region is refused as in the source.
- FixedMemPool.Pool.GetNextNode: specified for NULL and for nodes of carved blocks; other pointers are not described. Its ghost parameter only names the position.
- FixedMemPool.Pool.Alloc: memory is an array of block records (link word and node bytes), not raw bytes, so a user writing past its own block is not modelled.
- Lobby.RoomMgr.CreateRoom: after 2^32 - 1 rooms the counter wraps to 0 and nothing is promised from then on; the same for games.
- Choice.ProbNChooseOne: only positive totals below 2^31; otherwise the source divides by zero or by a negative number.
- Hex.EncodeOne: values are non-negative; the sign of a signed element type is not modelled. The overloads for zero-terminated text and ranges are left out.
- Power.Power: the overload with the built-in product is the same loop with that operation.
- Tokenizer.TokenIterator.Increment: an exception of the separator is a returned error, after which the iterator is not used again.
- Rationals.Rational.Less: unbounded integers, so no fixed-width overflow; stream input and output are left out.
- Crc.CrcOptimal.constructor: the static table of an instantiation is a parameter; compiler workarounds and the choice of integer types are left out.
- Sessions.Session.FspHandleActionPkg: the action is a parameter, since the source never fills it in.
- Sessions.Session.SendStateCacheToClient: a socket is the list of messages written to it; asynchronous completion and the lifetime of the buffer passed to it are not modelled.
- Server.RunEvents: sessions outlive the run; the order in which one round visits the games is whatever the event list says.
- Text commands, acceptors, sockets, start-game notices and the session map: input and output around the modelled core.
- `FrameMgr::AddFrame` and the segment queries: the branch for a frame that still fits the current segment returns an error, so a fresh manager never stores a frame and there is nothing to state about stored ones.
- `AddActionToCurFrame` and `SendFrameCacheToClient`: unfinished in the source; the first is modelled as the no-op it is.
- Time, random numbers, shared memory, process and network helpers in `src/util`, and all other Boost headers.
