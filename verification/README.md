# Verified models of the Hearthstone game server's algorithms and protocols

Dafny models of the self-contained algorithms and state machines of the Hearthstone server, and proofs of
what they promise. `dafny verify dfyconfig.toml` checks everything. Nothing here runs the server.

Code that the server writes as objects with fields updated in place is modelled as classes whose methods are
proved against specification functions; the properties that span many calls are lemmas about those functions.

| file | what it models |
|---|---|
| `Glob.dfy` | the wildcard matcher of the archive tool, with its single point of backtracking |
| `Rc4.dfy` | the stream cipher of the logon link |
| `CircularBuffer.dfy` | the two-region socket buffer that the link reads from and writes to |
| `LinkProtocol.dfy` | the encrypted, length-prefixed link as a state machine of sending and arriving bytes |
| `LogonSocket.dfy` | one end of that link as the code has it: buffers, ciphers, the framing loop |
| `LogonLink.dfy` | two such ends, and the bytes between them |
| `Mersenne.dfy` | the Mersenne Twister: block regeneration, seeding, the rejection loop |
| `Uniform.dfy` | how often each result of the two interval functions is hit |
| `Crc32.dfy` | the table-driven checksum against the bit-by-bit shift register |
| `HashMap.dfy` | the open-addressing hash map |
| `RealmRegistry.dfy` | realms and sockets of the logon server |
| `Srp6.dfy` | the key agreement of the logon |
| `WoWGuid.dfy` | packed 64-bit identifiers |
| `ByteBuffer.dfy` | the typed packet buffer |
| `BufferPool.dfy` | the packet pool |
| `Terrain.dfy` | height interpolation on the terrain grid |
| `SmartPointer.dfy` | counted references, of objects that may hold handles themselves |
| `StorageContainers.dfy`, `Storage.dfy` | table rows in memory: two containers, format strings, loading and freeing |
| `Bytes.dfy`, `Words.dfy`, `Options.dfy` | bytes and numbers, machine words, and values that may be missing |

## Where the code is not what its comments or its callers' hopes say

* The comment on the rejection limit of `IRandomX` says that the limit is 0 when the interval divides 2^32; the
  code computes 0xFFFFFFFF, which accepts every word and is the value that makes the result uniform
  (`Uniform.LimitMeaning`).
* `hashmap_put` of a key that is present counts it twice or splits it over two slots, so the table keeps its order
  exactly when the key is new (`HashMap.HashMap.Put`). The callers look a key up before they put it.
* A register packet that was read before its socket was disconnected or timed out is still handled. The realm then
  goes online on a socket that is registered no more, and after a timeout nothing but a registration of its name
  ever takes it offline (`RealmRegistry.RunKeepsInvIff`, `RealmRegistry.StrayRealmStaysOnline`).
* A receive buffer can refuse further bytes when it is only just more than half full
  (`CircularBuffer.CircularBuffer.GetSpace`, `CircularBuffer.FullJustPastHalf`). While it waits for a packet body at
  most one byte longer than half the buffer, a receive always takes at least one byte
  (`LogonSocket.LogonCommSocket.ReadCallback`); for every longer body, in any even buffer of at least 24 bytes, there
  is a run after which it takes none (`LogonSocket.StalledSocket`).
* The logon sends 32 bytes of its public value, copies 32 bytes of the shared value, compares 20 bytes of a digest and
  stores 40 bytes of the session key out of arrays that are only as long as the number needs. With a zero in the
  highest byte an honest client may be refused, or have another key than the account (`Srp6.HonestLogon`,
  `Srp6.ShortSecretLogon`, `Srp6.ShortPublicLogon`).
* The logon hashes only the bytes that its numbers need, where RFC 5054, section 2.6, pads the public values: a client
  that pads hashes the same exactly when every number fills its width (`Srp6.ScrambleInputsIff`, `Srp6.ProofInputsIff`).
* Optimizing a packet bucket that had more returns than takings should "reserve some more"; the packets it makes
  lie past the stack of spare ones and are never handed out (`BufferPool.ReserveNeverHandedOut`).
* `FreeBlock` does not know the format letter for booleans, so a string after a boolean is looked for in the wrong
  place (`Storage.OffsetsAgreeIff`, `Storage.FreeingUndoesLoadingIff`).
* The bound of the array container's `SetEntry` is off by one: the entry just past the last is written outside the
  array. The model asks callers not to do that.
* The hash container keeps a null pointer like any other, the array does not: while one is kept their answers differ
  (`StorageContainers.ContainersAgreeIff`).
* Assigning a smart pointer that is not null to itself loses the handle and leaves the count one too high; so does
  assigning from a handle inside the object that the assignment lets go of (`SmartPointer.SharedPointer.Assign`,
  `SmartPointer.HeadBecomesNext`).

## Model

| member | source | states |
|---|---|---|
| Glob.MatchFolded | extras/MPQE/mpqe.cs:208-241 | the two loops end, and return true exactly when the recursive meaning of `?` and `*` holds, for every pattern and string |
| Glob.Match | extras/MPQE/mpqe.cs:202-241 | the call with its case flag: folding both sides first changes nothing else |
| Glob.MatchFromStar | extras/MPQE/mpqe.cs:220-241 | the backtracking loop, from any state that the leading segment can leave it in, decides the whole match |
| Glob.MatchesIffCut | extras/MPQE/mpqe.cs:202-241 | the recursive meaning is the declarative one: a string matches when it can be cut into one run per pattern character |
| Glob.LaterStarSuffices | extras/MPQE/mpqe.cs:222-231 | the exchange argument: when the segment after a star fits and another star follows, the earlier star never has to be revisited |
| Glob.FailedAttemptAdvances | extras/MPQE/mpqe.cs:233-237 | when an attempt fails, moving its start by one loses no match |
| Glob.LastSegmentSettles | extras/MPQE/mpqe.cs:239-241 | when the string runs out inside an attempt, only a rest of stars can match |
| Glob.AttemptAtStar | extras/MPQE/mpqe.cs:222-227 | resetting the backtrack point at a star keeps the loop's meaning |
| Glob.AttemptGoesOn | extras/MPQE/mpqe.cs:228-231 | a character that fits keeps the loop's meaning |
| Glob.AttemptFails | extras/MPQE/mpqe.cs:233-237 | going back to the last star keeps the loop's meaning, and stays in the string |
| Glob.AttemptEnds | extras/MPQE/mpqe.cs:239-241 | after the loop, matching is exactly a rest of stars |
| Glob.LeadingMismatch | extras/MPQE/mpqe.cs:212-219 | a mismatch before any star rules a match out |
| Rc4.RC4Engine.Setup | src/hearthstone-shared/RC4Engine.h:39-60 | leaves the engine in the key schedule's state, for every key |
| Rc4.RC4Engine.Process | src/hearthstone-shared/RC4Engine.h:64-81 | the output is the input masked with the key stream and the rest is untouched, also when input and output are one array |
| Rc4.RC4Engine.Next | src/hearthstone-shared/RC4Engine.h:70-80 | one byte: the swap in place is the specification's step, and the byte is masked with the word it selects |
| Rc4.ChunkingIsInvisible | src/hearthstone-shared/RC4Engine.h:64-81 | processing a message in any chunks gives the bytes and the final state of processing it whole |
| Rc4.CryptSplits | src/hearthstone-shared/RC4Engine.h:64-81 | the cipher of a concatenation continues where the first part ended |
| Rc4.CryptUndoes | src/hearthstone-shared/RC4Engine.h:62-81 | the same function is used for both directions: applying it twice from one state gives the data back |
| Rc4.EnginesUndoEachOther | src/hearthstone-shared/RC4Engine.h:62-81 | two engines in one state undo each other however differently the two sides cut the stream, and end in one state |
| Rc4.UndoesIffKeysAgree | src/hearthstone-shared/RC4Engine.h:62-81 | engines in different states, as after a refused write, undo each other on a message exactly when their key streams agree over its length |
| Rc4.ScheduledIsPermutation | src/hearthstone-shared/RC4Engine.h:45-58 | after every step of the key schedule the table holds each byte once |
| Rc4.PermutationOnEveryRun | src/hearthstone-shared/RC4Engine.h:39-81 | so it does after set-up with any key and any amount of data |
| Rc4.XorAt | src/hearthstone-shared/RC4Engine.h:80 | the masking is the exclusive or: each bit of the result is set when exactly one of the two is |
| Rc4.SecondByteZero | src/hearthstone-shared/RC4Engine.h:70-80 | the known bias of the stream: from a fresh permutation with 0 in place 2 and not 2 in place 1 the second byte is 0 |
| Rc4.TrapClosed | src/hearthstone-shared/RC4Engine.h:70-80 | a state whose second index is one ahead and points to a 1 is left by no turn, and entered by none |
| Rc4.NeverTrapped | src/hearthstone-shared/RC4Engine.h:39-81 | so no key and no amount of data leads into such a short cycle |
| Rc4.IdentityKey | src/hearthstone-shared/RC4Engine.h:45-58 | the key 0, 0, 255, 254 down to 2 swaps every place with itself in the schedule |
| Rc4.OnesSchedule | src/hearthstone-shared/RC4Engine.h:39-60 | what the schedule makes of a key of ones of any length |
| Rc4.OnesStream | src/hearthstone-shared/RC4Engine.h:39-81 | and that the key stream from it begins 6, 8, 14, 14 |
| CircularBuffer.CircularBuffer.Read | src/hearthstone-shared/Network/CircularBuffer.cpp:47-98 | takes exactly the first bytes written, in order, or nothing when there are too few |
| CircularBuffer.CircularBuffer.TakeFront | src/hearthstone-shared/Network/CircularBuffer.cpp:47-98 | what is taken and what is left make up what was there, across both regions |
| CircularBuffer.CircularBuffer.Settle | src/hearthstone-shared/Network/CircularBuffer.cpp:76-98 | moving the second region to the front changes no contents |
| CircularBuffer.CircularBuffer.Remove | src/hearthstone-shared/Network/CircularBuffer.cpp:189-237 | drops the first bytes, or everything when asked for more |
| CircularBuffer.CircularBuffer.Write | src/hearthstone-shared/Network/CircularBuffer.cpp:114-147 | appends all or nothing, and always all while the result fills at most half the block |
| CircularBuffer.CircularBuffer.AllocateB | src/hearthstone-shared/Network/CircularBuffer.cpp:103-107 | opening the second region changes no contents |
| CircularBuffer.CircularBuffer.GetSpace | src/hearthstone-shared/Network/CircularBuffer.cpp:151-167 | the room for the next receive; a buffer without room is more than half full |
| CircularBuffer.CircularBuffer.GetSize | src/hearthstone-shared/Network/CircularBuffer.cpp:171-174 | the size is the number of bytes not yet read |
| CircularBuffer.CircularBuffer.Commit | src/hearthstone-shared/Network/CircularBuffer.cpp:262-268 | bytes put at the write position and counted are appended to the contents |
| CircularBuffer.FullJustPastHalf | src/hearthstone-shared/Network/CircularBuffer.cpp:151-167 | the bound of half is sharp for every even block size |
| LinkProtocol.SwapRoundTrip | src/hearthstone-logonserver/LogonCommServer.cpp:29 | reversing the bytes of a word twice gives the word |
| LinkProtocol.SwapReverses | src/hearthstone-logonserver/LogonCommServer.cpp:29 | in memory, a swapped word has its highest byte first |
| LinkProtocol.FrameBytes | src/hearthstone-logonserver/LogonCommServer.cpp:257-283 | the bytes of every packet before it is enciphered: opcode lowest byte first, the length of the body highest byte first, the body |
| LinkProtocol.HeaderMeaning | src/hearthstone-logonserver/LogonCommServer.cpp:82-100 | what opcode and length a receiver takes from six plain bytes, digit by digit |
| LinkProtocol.DecodeSlice | src/hearthstone-logonserver/LogonCommServer.cpp:91-118 | a cipher turned as far as a slice's start deciphers the slice, whatever the pieces were that were enciphered |
| LinkProtocol.HeaderKeepsStep | src/hearthstone-logonserver/LogonCommServer.cpp:82-100 | a header read in pieces of two and four bytes is the next packet's, and the ciphers stay in step |
| LinkProtocol.BodyKeepsStep | src/hearthstone-logonserver/LogonCommServer.cpp:102-122 | a body read whole is the next packet's and hands that packet over |
| LinkProtocol.DrainKeepsStep | src/hearthstone-logonserver/LogonCommServer.cpp:74-123 | the framing loop keeps both ends in step and stops only when it must wait for bytes |
| LinkProtocol.DrainWaits | src/hearthstone-logonserver/LogonCommServer.cpp:74-123 | the framing loop always ends waiting for bytes |
| LinkProtocol.StepKeepsInv | src/hearthstone-realmserver/LogonCommClient.cpp:42-87 | sending a packet, or any number of bytes arriving, keeps the link's invariant |
| LinkProtocol.RunKeepsInv | src/hearthstone-logonserver/LogonCommServer.cpp:74-123 | so does every run, for every key and every way the stream is cut |
| LinkProtocol.RunSends | src/hearthstone-logonserver/LogonCommServer.cpp:255-286 | a run's sent packets are the ones its events ask for, in order |
| LinkProtocol.HandsOverPrefix | src/hearthstone-realmserver/LogonCommClient.cpp:42-87 | on every run the receiver has handed over a prefix of the packets sent, and each cipher is exactly as far as the bytes produced or consumed |
| LinkProtocol.HandsOverAll | src/hearthstone-realmserver/LogonCommClient.cpp:42-87 | once all bytes have arrived the whole list has been handed over, nothing is left, and the two ciphers are equal |
| LinkProtocol.NextHandedOverIff | src/hearthstone-logonserver/LogonCommServer.cpp:271-282 | after a refused header, when the sender's cipher is ahead, the next packet is handed over unharmed exactly when the two key streams agree over its frame |
| LinkProtocol.LongBodyWaits | src/hearthstone-logonserver/LogonCommServer.cpp:74-123 | where the start of a short packet and a long one leaves the receiver, cipher on or off |
| LogonSocket.LogonCommSocket.OnRead | src/hearthstone-logonserver/LogonCommServer.cpp:74-123 | the loop over buffer, cipher and fields does what the protocol's receiver does |
| LogonSocket.LogonCommSocket.ReadPacket | src/hearthstone-logonserver/LogonCommServer.cpp:78-121 | one turn of the loop either waits with the protocol's final state or leaves fewer bytes and the same final state to reach |
| LogonSocket.LogonCommSocket.ReadHeader | src/hearthstone-logonserver/LogonCommServer.cpp:82-100 | opcode and size are read, deciphered one after the other, and put into host order, which `LinkProtocol.HeaderMeaning` spells out |
| LogonSocket.LogonCommSocket.ReadBody | src/hearthstone-logonserver/LogonCommServer.cpp:102-122 | the body is deciphered and handled, and the next header is due |
| LogonSocket.LogonCommSocket.ReadDeciphered | src/hearthstone-logonserver/LogonCommServer.cpp:91-97 | bytes leave the buffer and pass the cipher in order |
| LogonSocket.LogonCommSocket.ReadCallback | src/hearthstone-shared/Network/SocketLinux.cpp:26-48 | a receive takes as many bytes as there is room for and frames them; it takes something whenever the body awaited is at most one byte longer than half the buffer |
| LogonSocket.LogonCommSocket.NoRoomMeansLongBody | src/hearthstone-shared/Network/CircularBuffer.cpp:151-167 | a waiting socket without room waits for a body more than one byte longer than half its buffer |
| LogonSocket.StalledSocket | src/hearthstone-shared/Network/SocketLinux.cpp:26-48 | and for every such body in every even buffer of at least 24 bytes the framing loop's own reads lead to a socket that waits for it and takes nothing more |
| LogonSocket.HalfUsed | src/hearthstone-logonserver/LogonCommServer.cpp:74-123 | how it gets there: one packet handed over, the next header read, one byte left in the middle of the buffer |
| LogonSocket.LogonCommSocket.SendPacket | src/hearthstone-logonserver/LogonCommServer.cpp:255-286 | header and body together are one ciphered frame; after a refused write, what was queued and how far the cipher has moved on all the same |
| LogonSocket.LogonCommSocket.Burst | src/hearthstone-logonserver/LogonCommServer.cpp:266-283 | enciphers in place and appends the result |
| LogonSocket.LogonCommSocket.WireInTwo | src/hearthstone-realmserver/LogonCommClient.cpp:178-203 | enciphering header and body one after the other is enciphering the frame |
| LogonSocket.LogonCommSocket.NewHeader | src/hearthstone-logonserver/LogonCommServer.cpp:257-265 | the header's six bytes as sent, which `LinkProtocol.FrameBytes` spells out |
| LogonLink.Exchange | src/hearthstone-realmserver/LogonCommClient.cpp:42-87 | two sockets driven by any list of sends and arrivals, until a write is refused or there is no room: the receiver has handed over a prefix of the packets accepted, and all once no byte is left on the way |
| LogonLink.Drive | src/hearthstone-logonserver/LogonCommServer.cpp:255-286 | one such event keeps both sockets and the bytes between them in the protocol's invariant |
| LogonLink.SendOne | src/hearthstone-logonserver/LogonCommServer.cpp:255-286 | an accepted packet is the protocol's send event |
| LogonLink.Transmit | src/hearthstone-shared/Network/SocketLinux.cpp:50-63 | bytes that leave the write buffer stay in order in front of those still queued |
| LogonLink.Deliver | src/hearthstone-shared/Network/SocketLinux.cpp:26-48 | what a receive takes is the protocol's arrival event, and the socket waits again |
| LogonLink.Open | src/hearthstone-logonserver/LogonCommServer.cpp:318-323 | two engines set up with one key start the link in step |
| Mersenne.OutputIsRecurrence | src/hearthstone-shared/MersenneTwister.cpp:182-217 | for every n, the n-th word drawn is the tempered term of the unbounded recurrence x[k+624] = x[k+397] xor twist(x[k], x[k+1]) |
| Mersenne.DrawFollows | src/hearthstone-shared/MersenneTwister.cpp:182-217 | one draw moves one term on, across the end of a block too |
| Mersenne.TermOfWindow | src/hearthstone-shared/MersenneTwister.cpp:186-204 | a block of the sequence starts the same sequence further on |
| Mersenne.CRandomMersenne.Regenerate | src/hearthstone-shared/MersenneTwister.cpp:186-204 | the three loops that overwrite the block in place, the last word reading the new first one, give the next 624 terms |
| Mersenne.CRandomMersenne.BRandom | src/hearthstone-shared/MersenneTwister.cpp:182-217 | the index stays in bounds and the word returned is the tempered next term |
| Mersenne.UntemperTemper | src/hearthstone-shared/MersenneTwister.cpp:208-216 | tempering loses nothing: a word comes back by shifts and masks of its own |
| Mersenne.OutputsDetermine | src/hearthstone-shared/MersenneTwister.cpp:182-217 | 624 successive outputs, untempered, are the state, and determine every later one |
| Mersenne.UnmixMix | src/hearthstone-shared/MersenneTwister.cpp:190-204 | one step of the recurrence gives back the word that it joined, the constant 0x9908b0df told by the top bit |
| Mersenne.TermFromLater | src/hearthstone-shared/MersenneTwister.cpp:190-204 | the recurrence backwards: each term from the 624 after it |
| Mersenne.BlocksGoBack | src/hearthstone-shared/MersenneTwister.cpp:182-217 | so sequences that agree over one block have agreed ever since their first words |
| Mersenne.MixRevealsZero | src/hearthstone-shared/MersenneTwister.cpp:190-206 | one step of the recurrence cannot turn a living state into the all-zero one |
| Mersenne.NeverDies | src/hearthstone-shared/MersenneTwister.cpp:182-217 | a state that is not degenerate never becomes so |
| Mersenne.SeedAlive | src/hearthstone-shared/MersenneTwister.cpp:130-143 | no seed gives the degenerate state, zero included |
| Mersenne.SeededForEver | src/hearthstone-shared/MersenneTwister.cpp:145-151 | so a generator seeded with any word follows the recurrence and lives for ever |
| Mersenne.ArraySeededForEver | src/hearthstone-shared/MersenneTwister.cpp:154-179 | the same for a seed of any number of words |
| Mersenne.CRandomMersenne.Init0 | src/hearthstone-shared/MersenneTwister.cpp:130-143 | fills the block with the seeding recurrence |
| Mersenne.CRandomMersenne.RandomInit | src/hearthstone-shared/MersenneTwister.cpp:145-151 | seeds and then discards 37 words |
| Mersenne.CRandomMersenne.RandomInitByArray | src/hearthstone-shared/MersenneTwister.cpp:154-179 | both mixing passes, also for an empty seed, and the words discarded |
| Mersenne.CRandomMersenne.Stir | src/hearthstone-shared/MersenneTwister.cpp:163-170 | the first pass, with the wrap of the block and of the seed |
| Mersenne.CRandomMersenne.Blend | src/hearthstone-shared/MersenneTwister.cpp:171-173 | the second pass |
| Mersenne.DefaultSeed | src/hearthstone-shared/MersenneTwister.cpp:138-142 | the first words of the block for the customary seed 5489 |
| Mersenne.KnownMixing | src/hearthstone-shared/MersenneTwister.cpp:163-173 | one word of each mixing pass from known words |
| Mersenne.FirstAfterArray | src/hearthstone-shared/MersenneTwister.cpp:154-179 | after the two passes the first word drawn is 0x88102204, whatever the seed array |
| Mersenne.CRandomMersenne.TryOnce | src/hearthstone-shared/MersenneTwister.cpp:279-283 | one turn of the rejection loop draws one word and accepts by the cached limit |
| Mersenne.CRandomMersenne.IRandomX | src/hearthstone-shared/MersenneTwister.cpp:256-286 | the result comes from the first accepted word of the stream, all before it are rejected, it lies in the interval, and the cached limit always fits the last interval |
| Uniform.LimitMeaning | src/hearthstone-shared/MersenneTwister.cpp:271-278 | the cached limit, wrap-around included, is one less than the greatest multiple of the interval that fits 2^32 |
| Uniform.HitsAreRun | src/hearthstone-shared/MersenneTwister.cpp:279-285 | the accepted words that give one result are consecutive, and where they start |
| Uniform.ExactlyUniform | src/hearthstone-shared/MersenneTwister.cpp:256-286 | every result is hit by exactly floor(2^32 / interval) accepted words |
| Uniform.MajorityAccepted | src/hearthstone-shared/MersenneTwister.cpp:279-283 | more than half of all words are accepted, for every interval |
| Uniform.AlmostUniform | src/hearthstone-shared/MersenneTwister.cpp:243-253 | without rejection the counts of any two results differ by at most one |
| Uniform.UniformIffDivides | src/hearthstone-shared/MersenneTwister.cpp:243-253 | and they are all equal exactly when the interval divides 2^32 |
| Crc32.crc32 | src/hearthstone-shared/crc32.cpp:116-129 | the loop computes the table-driven checksum of the first bytes |
| Crc32.TableIsShifts | src/hearthstone-shared/crc32.cpp:59-112 | each of the 256 table entries is its index shifted through the register eight times |
| Crc32.TableStepIsRegister | src/hearthstone-shared/crc32.cpp:121-126 | one table step is the bit-by-bit register with polynomial 0xedb88320 fed one byte |
| Crc32.FeedAtOnce | src/hearthstone-shared/crc32.cpp:121-126 | feeding up to 32 bits one by one is feeding them all at once |
| Crc32.ShiftInjective | src/hearthstone-shared/crc32.cpp:121-126 | a shift of the register loses nothing |
| Crc32.RegisterInjective | src/hearthstone-shared/crc32.cpp:121-126 | so two registers that differ stay different whatever follows |
| Crc32.CrcLinear | src/hearthstone-shared/crc32.cpp:116-129 | the checksum of the xor of two buffers of one length is the xor of their checksums |
| Crc32.BurstDetected | src/hearthstone-shared/crc32.cpp:116-129 | a change inside any 32 consecutive bits changes the register, from any start |
| Crc32.CrcDetectsBurst | src/hearthstone-shared/crc32.cpp:116-129 | the same for whole buffers and any window of bits |
| Crc32.CrcDetectsFourBytes | src/hearthstone-shared/crc32.cpp:116-129 | buffers that differ only inside four consecutive bytes have different checksums |
| Crc32.ThirtyThreeBitsMissed | src/hearthstone-shared/crc32.cpp:116-129 | 32 is the limit: in every window of 33 bits one change leaves the register as it was, from any start |
| Crc32.FiveBytesMissed | src/hearthstone-shared/crc32.cpp:116-129 | and in every buffer, in every five bytes, one change leaves the checksum as it was |
| HashMap.HashMap.Put | src/hearthstone-shared/hashmap.cpp:136-159 | a full table without memory stays as it is; otherwise, after at most one doubling, the table is left in order exactly when the key was new, and then the map gains that entry only |
| HashMap.HashMap.Rehash | src/hearthstone-shared/hashmap.cpp:101-131 | a full table is copied into one of twice the size with the same map |
| HashMap.HashMap.FindSlot | src/hearthstone-shared/hashmap.cpp:71-96 | the first slot of the cyclic probe that is free or holds the key; none exactly when the table is full |
| HashMap.HashMap.Locate | src/hearthstone-shared/hashmap.cpp:164-188 | the full cyclic scan finds a key exactly when the map has it |
| HashMap.HashMap.Get | src/hearthstone-shared/hashmap.cpp:164-194 | answers as the map does |
| HashMap.HashMap.Remove | src/hearthstone-shared/hashmap.cpp:227-255 | takes the key out and reports whether it was there |
| HashMap.HashMap.GetIndex | src/hearthstone-shared/hashmap.cpp:199-222 | the element with exactly so many used slots before it |
| HashMap.HashMap.Fill | src/hearthstone-shared/hashmap.cpp:151-158 | filling a slot that is free or holds the key leaves the table in order exactly when the key is new |
| HashMap.HashMap.Length | src/hearthstone-shared/hashmap.cpp:265-269 | the size counter is the number of keys |
| HashMap.HashMap.constructor | src/hearthstone-shared/hashmap.cpp:30-45 | a new table is the empty map |
| HashMap.JenkinsInjective | src/hearthstone-shared/hashmap.cpp:52-60 | the mixing steps before the shift lose nothing of a key |
| HashMap.MixesMeetIff | src/hearthstone-shared/hashmap.cpp:50-63 | two keys share their word exactly when their mixes agree but for the three lowest bits, so no more than eight do |
| HashMap.KnownMixes | src/hearthstone-shared/hashmap.cpp:50-63 | the words of four keys |
| HashMap.HashOfWord | src/hearthstone-shared/hashmap.cpp:50-66 | a key, negative or not, is hashed as its two's complement |
| HashMap.KnownHashes | src/hearthstone-shared/hashmap.cpp:50-66 | where two keys go in a new table, and one in a table grown once |
| HashMap.Replay | extras/pktdec/Main.cpp:188-204 | any run of put-if-absent, get and remove answers as a finite map and ends in its state and capacity, over any number of doublings and of refusals for want of memory |
| HashMap.FillKeepsOrderIff | src/hearthstone-shared/hashmap.cpp:151-158 | for the write of one slot: keys stay unique and the counter right exactly when the key is new |
| HashMap.EachSlotOnce | src/hearthstone-shared/hashmap.cpp:199-222 | indexes below the size reach every used slot, each once |
| HashMap.ScanMisses | src/hearthstone-shared/hashmap.cpp:175-188 | a key that a whole cyclic scan misses is not in the table, holes or not |
| HashMap.ScanFull | src/hearthstone-shared/hashmap.cpp:83-95 | a scan that meets no free slot has seen a full table |
| HashMap.CountIsSize | src/hearthstone-shared/hashmap.cpp:265-269 | with unique keys the used slots are as many as the map's keys |
| HashMap.UseSlot | src/hearthstone-shared/hashmap.cpp:151-158 | a new key in a free slot keeps keys unique and adds one entry |
| HashMap.FreeSlot | src/hearthstone-shared/hashmap.cpp:239-249 | freeing a slot removes that key's entry only |
| RealmRegistry.RunStaysCoherent | src/hearthstone-logonserver/AccountCache.h:200-236 | every run whatever of connects, registrations, pings, timeouts and disconnects keeps: ids at most `realmhigh`, distinct names, an online realm's socket exists and lists it, offline exactly when without socket, registered sockets not removed |
| RealmRegistry.RunKeepsInvIff | src/hearthstone-logonserver/LogonCommServer.cpp:166-210 | that, moreover, every online realm's socket is registered holds throughout a run exactly when no registration in it comes from a socket already disconnected, timed out or turned away |
| RealmRegistry.StrayRegistrationBreaksInv | src/hearthstone-logonserver/LogonCommServer.cpp:166-210 | such runs exist: connect, then a disconnect or a timeout, then a register packet already read |
| RealmRegistry.StrayRealmStaysOnline | src/hearthstone-logonserver/AccountCache.cpp:549-569 | a realm registered from a removed socket stays online over any run that does not register its name again |
| RealmRegistry.StepKeepsInvIff | src/hearthstone-logonserver/AccountCache.h:200-236 | each event keeps a coherent registry coherent, and keeps its online realms' sockets registered exactly when it is no stray registration |
| RealmRegistry.RegisterKeepsInvIff | src/hearthstone-logonserver/LogonCommServer.cpp:166-210 | the same for a registration, from any socket that exists, taking over a name in use |
| RealmRegistry.TimeoutKeepsInv | src/hearthstone-logonserver/AccountCache.cpp:514-547 | dropping any set of sockets keeps it |
| RealmRegistry.DisconnectKeepsInv | src/hearthstone-logonserver/LogonCommServer.cpp:61-72 | a disconnect keeps it, before or after a timeout of the same socket |
| RealmRegistry.OnlineUntilTouched | src/hearthstone-logonserver/AccountCache.cpp:549-569 | in any coherent registry an online realm changes exactly when its own socket leaves or any socket registers its name, and how |
| RealmRegistry.StaysOnline | src/hearthstone-logonserver/AccountCache.cpp:549-569 | over any run without such an event it stays as it is: a late timeout or disconnect of an old socket never takes a re-registered realm offline |
| RealmRegistry.GoneSocketOwnsNothing | src/hearthstone-logonserver/AccountCache.cpp:514-547 | a socket that leaves is registered no more and takes exactly its own realms offline |
| RealmRegistry.TimeOutOne | src/hearthstone-logonserver/AccountCache.cpp:528-543 | dropping stale sockets one by one while iterating is dropping them together |
| RealmRegistry.OneRealmPerName | src/hearthstone-logonserver/AccountCache.cpp:433-442 | a name finds one realm, and the next id is unused |
| RealmRegistry.SeenWhen | src/hearthstone-logonserver/LogonCommServer.cpp:248-253 | over every run, the time noted for a socket is that of its first connect or its last ping after it |
| RealmRegistry.TimeoutDropsIff | src/hearthstone-logonserver/AccountCache.cpp:514-547 | over every run, a timeout drops a registered socket exactly when its last connect or ping lies more than 60 seconds back, modulo 2^32 |
| RealmRegistry.PingKeepsOnline | src/hearthstone-logonserver/LogonCommServer.cpp:248-253 | a ping keeps a registered socket, and its realms as they are, through any timeout in the next 60 seconds |
| RealmRegistry.EnteredIff | src/hearthstone-logonserver/LogonCommServer.cpp:48-59 | a new socket is registered exactly when its address is allowed |
| RealmRegistry.RealmsAsRegistered | src/hearthstone-logonserver/LogonCommServer.cpp:166-210 | over every run, a name has one realm if it ever registered and none otherwise; it is as the last registration had it, online through that socket or offline |
| RealmRegistry.InformationCore.OnConnect | src/hearthstone-logonserver/LogonCommServer.cpp:48-59 | an allowed socket is registered with its first ping time, another is not |
| RealmRegistry.InformationCore.HandleRegister | src/hearthstone-logonserver/LogonCommServer.cpp:166-210 | the handler's steps have the effect of the registration event on a fresh id, for any socket, and keep online realms' sockets registered exactly when this one is |
| RealmRegistry.InformationCore.HandlePing | src/hearthstone-logonserver/LogonCommServer.cpp:248-253 | notes the time for this socket only |
| RealmRegistry.InformationCore.OnDisconnect | src/hearthstone-logonserver/LogonCommServer.cpp:61-72 | the effect of the disconnect event; nothing more for a socket removed before |
| RealmRegistry.InformationCore.TimeoutSockets | src/hearthstone-logonserver/AccountCache.cpp:514-547 | the loop that erases while it iterates has the effect of the timeout event, or none with pings off |
| RealmRegistry.InformationCore.CheckSocket | src/hearthstone-logonserver/AccountCache.cpp:528-543 | one turn of the loop: the socket is dropped exactly when it is stale |
| RealmRegistry.InformationCore.DropSocket | src/hearthstone-logonserver/AccountCache.cpp:533-542 | marks one socket removed, erases it and takes its realms offline |
| RealmRegistry.InformationCore.SetRealmsOffline | src/hearthstone-logonserver/AccountCache.cpp:537-539 | all realms that the socket lists and still owns go offline |
| RealmRegistry.InformationCore.SetRealmOffline | src/hearthstone-logonserver/AccountCache.cpp:549-569 | only a realm that the socket still owns goes offline |
| RealmRegistry.InformationCore.GetRealmIdByName | src/hearthstone-logonserver/AccountCache.cpp:433-442 | finds a realm of that name, or reports that there is none |
| RealmRegistry.InformationCore.AddRealm | src/hearthstone-logonserver/AccountCache.cpp:410-417 | never replaces a realm |
| RealmRegistry.InformationCore.RemoveRealm | src/hearthstone-logonserver/AccountCache.cpp:444-454 | removes that realm only |
| RealmRegistry.InformationCore.GenerateRealmID | src/hearthstone-logonserver/AccountCache.h:226-229 | the next id, one above all before |
| Srp6.Agreement | src/hearthstone-logonserver/AuthSocket.cpp:276-286 | for every modulus, base and secrets, the server's value equals the client's, computed from what each sends |
| Srp6.ServerMeaning | src/hearthstone-logonserver/AuthSocket.cpp:276-286 | the server's value is the base to the power (a + xu)b |
| Srp6.ClientMeaning | src/hearthstone-logonserver/AuthSocket.cpp:222-228 | the client recovers the same power from the server's public value, with multiplier 3 |
| Srp6.InterleaveUndoesSplit | src/hearthstone-logonserver/AuthSocket.cpp:288-313 | splitting the shared value into its even and odd bytes and interleaving undo each other, both ways |
| Srp6.AuthSocket.HandleChallenge | src/hearthstone-logonserver/AuthSocket.cpp:222-239 | sets the verifier, the secret and the public value of the server, and sends 32 bytes copied of that value, whatever lies in memory behind it |
| Srp6.AuthSocket.HandleProof | src/hearthstone-logonserver/AuthSocket.cpp:276-356 | sets the session key made from the 32 bytes copied, accepts exactly a proof equal to the 20 bytes copied of the digest, and then stores 40 bytes copied of the key, whatever lies in memory behind the numbers |
| Srp6.InterleavedKey | src/hearthstone-logonserver/AuthSocket.cpp:287-312 | the loops that split the secret, hash its halves and put the digests together make the session key |
| Srp6.SessionKeyAt | src/hearthstone-logonserver/AuthSocket.cpp:287-312 | at the even places of the key stands the digest of the secret's even bytes, at the odd ones that of its odd bytes |
| Srp6.AuthSocket.constructor | src/hearthstone-logonserver/AuthSocket.cpp:39-40 | the modulus and the base |
| Srp6.HonestLogon | src/hearthstone-logonserver/AuthSocket.cpp:222-356 | for a client that knows the password, and pads what it hashes as RFC 5054, section 2.6, has it or does not: when it sees the right public value, when both sides hash the same for the scrambler and then hold the same session key, when it is then accepted, and when the key stored is its own; in every case, short of a collision, the keys are the same exactly when both sides hash the same 32 bytes of secret |
| Srp6.ShortSecretLogon | src/hearthstone-logonserver/AuthSocket.cpp:286-290 | a logon with a secret of one byte, where the two keys agree exactly when 31 zeros lie behind it |
| Srp6.ShortPublicLogon | src/hearthstone-logonserver/AuthSocket.cpp:228-239 | a logon with a public value of one byte, where with a clean secret the two keys agree exactly when 31 zeros lie behind the public value |
| Srp6.SeenIff | src/hearthstone-logonserver/AuthSocket.cpp:239 | the client reads the public value back exactly when it fills 32 bytes or zeros lie behind it |
| Srp6.ScrambleInputsIff | src/hearthstone-logonserver/AuthSocket.cpp:279-284 | both sides hash the same for the scrambler exactly when the client sees the right public value or, if it pads, when both public values fill 32 bytes |
| Srp6.ProofInputsIff | src/hearthstone-logonserver/AuthSocket.cpp:317-343 | a client that pads hashes the same for the proof exactly when every number in it fills its width |
| Srp6.ScrambleReads | src/hearthstone-logonserver/AuthSocket.cpp:279-284 | which numbers are hashed for the scrambler: the client's public value first, the server's behind it |
| Srp6.ProofReads | src/hearthstone-logonserver/AuthSocket.cpp:317-343 | the six numbers hashed for the proof, in order, from the number that their bytes make together |
| Srp6.PaddedProofReads | src/hearthstone-logonserver/AuthSocket.cpp:338-340 | for a client that pads, the place of each of the six |
| Srp6.CopiedIff | src/hearthstone-shared/Auth/BigNumber.cpp:164-176 | copying a fixed number of bytes of a big number gives its fixed-width form exactly when the number fills them or memory holds zeros |
| Srp6.SignificantReads | src/hearthstone-shared/Auth/BigNumber.cpp:164-176 | the bytes that a big number hands out give it back, with no leading zero |
| Srp6.CopiedReads | src/hearthstone-shared/Auth/BigNumber.cpp:164-176 | the number that a copy amounts to, with what memory held above it |
| Srp6.KeysAgreeIff | src/hearthstone-logonserver/AuthSocket.cpp:290-313 | so the two session keys agree exactly then, short of a collision |
| Srp6.DigestComparesIff | src/hearthstone-logonserver/AuthSocket.cpp:342-346 | a digest that passes through a big number still equals itself exactly then |
| Srp6.MultipleFixesSecret | src/hearthstone-logonserver/AuthSocket.cpp:276-286 | a public value that is a multiple of the modulus, which the handler accepts, gives a secret that does not depend on the verifier |
| WoWGuid.PackedCanonical | src/hearthstone-shared/WoWGuid.h:134-149 | packed forms have no zero field and as many fields as mask bits |
| WoWGuid.UnpackPacked | src/hearthstone-shared/WoWGuid.h:134-198 | unpacking a packed identifier gives it back |
| WoWGuid.RepackIff | src/hearthstone-shared/WoWGuid.h:113-198 | packing a decoded form gives the form back exactly when all its fields are nonzero |
| WoWGuid.MaskRoundTrip | src/hearthstone-shared/WoWGuid.h:134-149 | a mask is recovered from its number |
| WoWGuid.MaskBitIff | src/hearthstone-shared/WoWGuid.h:134-149 | bit k of the mask byte is set exactly when byte k of the identifier is not zero |
| WoWGuid.FieldAt | src/hearthstone-shared/WoWGuid.h:134-149 | a byte that is not zero is the field behind those of the lower ones |
| WoWGuid.WoWGuid.InitGuid | src/hearthstone-shared/WoWGuid.h:72-79 | packs the identifier |
| WoWGuid.WoWGuid.CompileByOld | src/hearthstone-shared/WoWGuid.h:134-149 | the loop over eight bytes gives mask, fields and their count |
| WoWGuid.WoWGuid.InitMask | src/hearthstone-shared/WoWGuid.h:81-89 | starts decoding; an empty mask is complete at once |
| WoWGuid.WoWGuid.AppendField | src/hearthstone-shared/WoWGuid.h:113-122 | takes one field, and compiles exactly at the last |
| WoWGuid.WoWGuid.CompileByNew | src/hearthstone-shared/WoWGuid.h:151-198 | spreads the fields over the bytes the mask names |
| ByteBuffer.WriteThenRead | src/hearthstone-shared/ByteBuffer.h:51-206 | any list of typed values written to a new buffer is read back the same, ending at the end of the buffer |
| ByteBuffer.FreshBufferRoundTrip | src/hearthstone-shared/ByteBuffer.h:51-206 | the same for the formats as functions |
| ByteBuffer.RoundTrip | src/hearthstone-shared/ByteBuffer.h:58-206 | one value of any type, at any place in any buffer |
| ByteBuffer.RoundTripMany | src/hearthstone-shared/ByteBuffer.h:372-413 | a counted list of values of one type, nested to any depth |
| ByteBuffer.RoundTripPairs | src/hearthstone-shared/ByteBuffer.h:416-437 | a counted map: inserting the pairs read restores it |
| ByteBuffer.TextRoundTripIff | src/hearthstone-shared/ByteBuffer.h:105-114 | a string comes back exactly when it holds no zero byte |
| ByteBuffer.TextEnds | src/hearthstone-shared/ByteBuffer.h:168-177 | reading a string ends on every buffer, cut short or not, at most one past its end |
| ByteBuffer.GuidBack | src/hearthstone-shared/ByteBuffer.h:115-119 | a packed identifier is read back, and takes just its own bytes |
| Bytes.LeRoundTrip | src/hearthstone-shared/ByteBuffer.h:229-242 | a number is recovered from its bytes |
| Bytes.BytesAreLe | src/hearthstone-shared/ByteBuffer.h:229-242 | and bytes from their number |
| Bytes.LeBytesAt | src/hearthstone-shared/ByteBuffer.h:229-242 | byte k is the k-th digit to the base 256 |
| Bytes.FromLeConcat | src/hearthstone-shared/ByteBuffer.h:229-242 | the number of a concatenation: the first part below, the second above it |
| ByteBuffer.SignBack | src/hearthstone-shared/ByteBuffer.h:81-96 | a signed number in range survives the unsigned bytes |
| ByteBuffer.NumberBytes | src/hearthstone-shared/ByteBuffer.h:58-96 | every byte of a number of any width, signed or not |
| ByteBuffer.OtherBytes | src/hearthstone-shared/ByteBuffer.h:51-114 | the bytes of a flag, a string, and the count before a list or map |
| ByteBuffer.IdentifierBytes | src/hearthstone-shared/ByteBuffer.h:115-119 | mask and fields of a packed identifier, bit by bit and byte by byte |
| ByteBuffer.ElementAt | src/hearthstone-shared/ByteBuffer.h:372-401 | the elements of a list stand one behind the other |
| ByteBuffer.KnownList | src/hearthstone-shared/ByteBuffer.h:372-401 | a list of two short numbers in bytes |
| ByteBuffer.ByteBuffer.Append | src/hearthstone-shared/ByteBuffer.h:274-288 | bytes go to the write position, over what is there and past it |
| ByteBuffer.ByteBuffer.ReadNumber | src/hearthstone-shared/ByteBuffer.h:229-242 | a read past the end gives zero and still moves on |
| ByteBuffer.ByteBuffer.ReadText | src/hearthstone-shared/ByteBuffer.h:168-177 | the loop ends and reads up to the first zero |
| ByteBuffer.ByteBuffer.WriteGuid | src/hearthstone-shared/ByteBuffer.h:115-119 | mask and fields are appended |
| ByteBuffer.ByteBuffer.ReadGuid | src/hearthstone-shared/ByteBuffer.h:196-205 | reads as many fields as the mask has bits |
| ByteBuffer.ByteBuffer.Write | src/hearthstone-shared/ByteBuffer.h:58-119 | appends the value's format |
| ByteBuffer.ByteBuffer.Read | src/hearthstone-shared/ByteBuffer.h:121-206 | takes a value of the type asked for from the read position |
| ByteBuffer.ByteBuffer.WriteMany | src/hearthstone-shared/ByteBuffer.h:372-401 | the loop appends every element |
| ByteBuffer.ByteBuffer.ReadMany | src/hearthstone-shared/ByteBuffer.h:381-413 | the loop reads as many elements as counted |
| ByteBuffer.ByteBuffer.WritePairs | src/hearthstone-shared/ByteBuffer.h:416-423 | the loop appends every pair |
| ByteBuffer.ByteBuffer.ReadPairs | src/hearthstone-shared/ByteBuffer.h:425-437 | the loop inserts every pair read |
| BufferPool.NeverHandedOutTwice | src/hearthstone-shared/BufferPool.h:203-228 | between two times that a packet is handed out it has been returned, on every run |
| BufferPool.RunKeepsInv | src/hearthstone-shared/BufferPool.h:77-169 | on every run spare packets are distinct, in nobody's hands, not deleted, and in the bucket that their tag names |
| BufferPool.CountersCount | src/hearthstone-shared/BufferPool.h:77-114 | a bucket's counter is the number of its packets that callers hold, none of them deleted |
| BufferPool.StaysOut | src/hearthstone-shared/BufferPool.h:203-228 | a packet stays its holder's until it is returned, whatever else happens |
| BufferPool.AllocateKeepsInv | src/hearthstone-shared/BufferPool.h:203-214 | the packet handed out was in nobody's hands, was not deleted, and has the tag of the right bucket |
| BufferPool.DeallocateKeepsInv | src/hearthstone-shared/BufferPool.h:216-228 | a returned packet is spare again in its own bucket, or deleted if it has none |
| BufferPool.OptimizeOneKeepsInv | src/hearthstone-shared/BufferPool.h:138-169 | optimizing deletes only spare packets of the bucket and never adds spare ones |
| BufferPool.OptimizeKeepsInv | src/hearthstone-shared/BufferPool.h:263-272 | nor do all buckets in turn take a packet from a caller |
| BufferPool.ReserveNeverHandedOut | src/hearthstone-shared/BufferPool.h:145-158 | packets made for reserve carry no bucket's tag and are never handed out |
| BufferPool.SmallestIsLeast | src/hearthstone-shared/BufferPool.h:189-199 | the bucket chosen is the smallest that holds the size; none only when none does |
| BufferPool.BucketFor | src/hearthstone-shared/BufferPool.h:189-199 | the sizes at which one bucket ends and the next begins |
| BufferPool.MadeOnlyIfNone | src/hearthstone-shared/BufferPool.h:99-114 | a new packet is made only when the bucket has none to spare |
| BufferPool.LastBackFirstOut | src/hearthstone-shared/BufferPool.h:77-114 | the packet returned last goes out first, and leaves the pool as it was but for the vector's growth |
| BufferPool.OptimizeLeaves | src/hearthstone-shared/BufferPool.h:138-169 | how many spare packets each bucket keeps, which, and how far its vector grows |
| BufferPool.OptimizeMakes | src/hearthstone-shared/BufferPool.h:138-169 | how many packets are made for reserve, and which are deleted |
| BufferPool.FreshInv | src/hearthstone-shared/BufferPool.h:49-74 | the pool starts in order |
| BufferPool.BufferBucket.constructor | src/hearthstone-shared/BufferPool.h:49-74 | fills the bucket with its first packets |
| BufferPool.BufferBucket.Queue | src/hearthstone-shared/BufferPool.h:77-96 | pushes on the stack, growing the vector when it is full |
| BufferPool.BufferBucket.Dequeue | src/hearthstone-shared/BufferPool.h:99-114 | pops the last queued, or makes one |
| BufferPool.BufferBucket.Optimize | src/hearthstone-shared/BufferPool.h:138-169 | both branches, with what is made and what is deleted |
| BufferPool.PacketPool.GetBufferPool | src/hearthstone-shared/BufferPool.h:189-199 | the loop finds the first bucket that is large enough |
| BufferPool.PacketPool.Allocate | src/hearthstone-shared/BufferPool.h:203-214 | has the effect of the allocation event |
| BufferPool.PacketPool.Deallocate | src/hearthstone-shared/BufferPool.h:216-228 | has the effect of the return event |
| BufferPool.PacketPool.Optimize | src/hearthstone-shared/BufferPool.h:263-272 | has the effect of the optimize event |
| BufferPool.PacketPool.constructor | src/hearthstone-shared/BufferPool.h:232-237 | eight buckets with their own packets |
| BufferPool.BorrowTwice | src/hearthstone-shared/BufferPool.h:203-228 | two packets borrowed from the real pool differ unless the first was returned |
| Terrain.NoDivisionByZero | extras/map_extractor/adt.cpp:416-426 | the denominator of every triangle chosen is nonzero |
| Terrain.PlaneIsBlend | extras/map_extractor/adt.cpp:416-426 | the plane equation is the mixture of the three heights by the point's weights |
| Terrain.TriangleContainsPoint | extras/map_extractor/adt.cpp:457-481 | the triangle chosen contains the point |
| Terrain.HeightIsBlend | extras/map_extractor/adt.cpp:452-483 | the height is the same mixture of that triangle's heights |
| Terrain.HeightBetweenVertices | extras/map_extractor/adt.cpp:452-483 | it lies between the least and the greatest of the three |
| Terrain.PassesThroughPoints | extras/map_extractor/adt.cpp:452-483 | a cell's surface passes through its centre and corners |
| Terrain.TrianglesAgree | extras/map_extractor/adt.cpp:457-481 | where two triangles meet, either gives the same height |
| Terrain.StraightSides | extras/map_extractor/adt.cpp:452-483 | along a cell's side the height runs straight between the corners |
| Terrain.CellsAgree | extras/map_extractor/adt.cpp:441-483 | every cell that holds a point, borders included, gives the height that the code returns |
| Terrain.MeetsEveryPoint | extras/map_extractor/adt.cpp:429-485 | the surface meets all 129 by 129 corners and all 128 by 128 centres |
| Terrain.SurfaceStaysInRange | extras/map_extractor/adt.cpp:429-485 | nowhere on the tile does it leave the range of the stored heights |
| Terrain.CellOf | extras/map_extractor/adt.cpp:441-444 | the cell chosen holds the coordinate, the far edge included |
| Terrain.TransformData | extras/map_extractor/adt.cpp:500-525 | fills every centre and corner, and from which chunk |
| Terrain.CornersKeptIff | extras/map_extractor/adt.cpp:500-525 | the grid keeps every chunk's corners exactly when neighbours agree on their borders |
| Terrain.PlacesOf | extras/map_extractor/adt.cpp:500-525 | which stored height every centre and corner of the grid takes, far edges included |
| Terrain.SurfaceMeetsChunks | extras/map_extractor/adt.cpp:429-525 | so the surface over the assembled grid meets the heights of each chunk in place |
| SmartPointer.Replay | src/hearthstone-shared/SmartPointer.h:27-125 | after any run of creations, copies, assignments and releases that a caller may make every count is right, and once the handles that are no members go too, all that still exists is held by members of what exists: nothing, if no object has members |
| SmartPointer.FindDoomed | src/hearthstone-shared/SmartPointer.h:118-123 | a caller can find out beforehand what a release brings down |
| SmartPointer.HeadBecomesNext | src/hearthstone-shared/SmartPointer.h:93-100 | taking the head off a list by assigning it its own successor: the head is lost and the rest counted once too often |
| SmartPointer.Step | src/hearthstone-shared/SmartPointer.h:45-115 | each event keeps every count equal to the number of live handles, and objects destroyed exactly when they have none |
| SmartPointer.SharedPointer.Assign | src/hearthstone-shared/SmartPointer.h:93-100 | assignment keeps the counts right exactly when the other handle is null, or another one and no member of an object that goes down when this one lets go; what happens otherwise; and which objects and handles are gone |
| SmartPointer.SharedPointer.UnBind | src/hearthstone-shared/SmartPointer.h:118-123 | a handle lets go; objects go down with their last handle, members and what they alone kept with them, and nothing outside a closed set of objects does |
| SmartPointer.SharedPointer.LetGo | src/hearthstone-shared/SmartPointer.h:118-123 | exactly the doomed objects are deleted: those whose handles all lie inside doomed objects |
| SmartPointer.PointerReference.DestroyMembers | src/hearthstone-shared/SmartPointer.h:32 | the destructor of an object destroys each of its members once |
| SmartPointer.ExactlyDoomed | src/hearthstone-shared/SmartPointer.h:118-123 | what counting deletes is the least closed set of objects |
| SmartPointer.SharedPointer.FromObject | src/hearthstone-shared/SmartPointer.h:50-57 | a first handle of an object with members, or a null one |
| SmartPointer.SharedPointer.Copy | src/hearthstone-shared/SmartPointer.h:59-64 | one more handle of the same reference |
| SmartPointer.SharedPointer.SetNull | src/hearthstone-shared/SmartPointer.h:115 | the handle is null, the counts are right, and exactly the doomed objects are gone |
| SmartPointer.SharedPointer.Destroy | src/hearthstone-shared/SmartPointer.h:66-69 | the handle is live no more, the counts are right, and exactly the doomed objects are gone |
| StorageContainers.ContainersAgreeIff | src/hearthstone-shared/Storage.h:166-200 | after any run, null pointers put in or not, the two containers answer every next question about entries below the maximum alike exactly when the hash map holds no null pointer there |
| StorageContainers.RunKeepsAlike | src/hearthstone-shared/Storage.h:292-346 | on any run the hash map holds, entry by entry below the maximum, a null pointer or what the array holds |
| StorageContainers.NullPartsThem | src/hearthstone-shared/Storage.h:332-346 | the shortest run that parts them |
| StorageContainers.LiveOnce | src/hearthstone-shared/Storage.h:403-417 | the list that the iterator visits holds each entry in use once, in order |
| StorageContainers.ArrayStorageIterator.constructor | src/hearthstone-shared/Storage.h:396-399 | starts with all entries in use still to visit |
| StorageContainers.ArrayStorageIterator.Inc | src/hearthstone-shared/Storage.h:378-385 | leaves exactly the rest to visit, and says whether there is any |
| StorageContainers.ArrayStorageIterator.GetNextElement | src/hearthstone-shared/Storage.h:403-417 | skips unused entries only |
| StorageContainers.HashMapStorageIterator.Inc | src/hearthstone-shared/Storage.h:440-458 | moves one entry on in the library's order; a null pointer looks like the end |
| StorageContainers.Walk | src/hearthstone-shared/Storage.h:530-536 | the users' loop over the hash map visits the entries before the first null pointer |
| StorageContainers.WalkVisitsAllIff | src/hearthstone-shared/Storage.h:440-458 | it visits every row exactly when no null pointer comes before a row |
| StorageContainers.ArrayStorageContainer.Resetup | src/hearthstone-shared/Storage.h:136-148 | a larger array with the same entries; never a smaller one |
| StorageContainers.ArrayStorageContainer.AllocateEntry | src/hearthstone-shared/Storage.h:166-177 | a row for an unused entry below the maximum only |
| StorageContainers.ArrayStorageContainer.DeallocateEntry | src/hearthstone-shared/Storage.h:181-191 | empties one entry and says whether it was used |
| StorageContainers.ArrayStorageContainer.LookupEntry | src/hearthstone-shared/Storage.h:195-201 | the entry's row, null above the maximum |
| StorageContainers.ArrayStorageContainer.SetEntry | src/hearthstone-shared/Storage.h:206-218 | replaces one entry |
| StorageContainers.ArrayStorageContainer.LookupEntryAllocate | src/hearthstone-shared/Storage.h:222-228 | the row there is, or a new one |
| StorageContainers.ArrayStorageContainer.Clear | src/hearthstone-shared/Storage.h:232-244 | empties every entry |
| StorageContainers.HashMapStorageContainer.AllocateEntry | src/hearthstone-shared/Storage.h:292-303 | a row for an unused entry only |
| StorageContainers.HashMapStorageContainer.DeallocateEntry | src/hearthstone-shared/Storage.h:307-318 | removes one entry and says whether it was there |
| StorageContainers.HashMapStorageContainer.LookupEntry | src/hearthstone-shared/Storage.h:321-327 | the entry's row or null |
| StorageContainers.HashMapStorageContainer.SetEntry | src/hearthstone-shared/Storage.h:332-346 | replaces one entry, a null pointer like any other |
| StorageContainers.HashMapStorageContainer.LookupEntryAllocate | src/hearthstone-shared/Storage.h:350-356 | the row there is, or a new one |
| Storage.OffsetsAgreeIff | src/hearthstone-shared/Storage.h:546-574 | strings are freed where they were loaded exactly when no string follows a boolean; otherwise the last is missed |
| Storage.FreeingUndoesLoadingIff | src/hearthstone-shared/Storage.h:546-640 | freeing a loaded block frees each of its strings, in order, under exactly that condition |
| Storage.StringsInOrder | src/hearthstone-shared/Storage.h:586-640 | string fields do not overlap |
| Storage.EndCounts | src/hearthstone-shared/Storage.h:586-640 | how long a block is, by the letters of its format, with booleans and without |
| Storage.StringAt | src/hearthstone-shared/Storage.h:586-640 | the k-th copy and the k-th offset belong to the k-th letter s |
| Storage.LoadBlock | src/hearthstone-shared/Storage.h:586-640 | the loop over the format keeps one copy of each string field, each at its own offset |
| Storage.FreeBlock | src/hearthstone-shared/Storage.h:546-574 | the loop over the format frees what lies at its own idea of the offsets |
| Storage.SQLStorage.Load | src/hearthstone-shared/Storage.h:644-706 | the entries in use are those of the rows that fit, and every copy made is held once |
| Storage.SQLStorage.LoadRow | src/hearthstone-shared/Storage.h:694-702 | a row is loaded into an unused entry, another is skipped |
| Storage.SQLStorage.Cleanup | src/hearthstone-shared/Storage.h:527-542 | frees every string ever copied exactly once if and only if the format has no string after a boolean or no row is loaded, and empties the container |
| Storage.FreeingReadsElsewhere | src/hearthstone-shared/Storage.h:546-574 | with a string after a boolean, freeing a loaded block reads a place where no pointer is |
| Storage.NewRowAdds | src/hearthstone-shared/Storage.h:694-702 | a row in an unused entry adds its strings to all those held, wherever the entry lies |

## Left out

- Sockets, threads, locks, the database, logging, console, configuration, compression and the archive library: handlers are single steps, rows and clocks are parameters.
- The link's handshake: both ends start with the key set and agreeing on whether they encipher; a packet that makes the server set its key anew, and what the handlers do with the packets, are not modelled.
- The link's hang-up on a packet from a peer that has not authenticated, and big-endian builds.
- LinkProtocol.RunKeepsInv: takes sending as succeeding; what a refused write does is in LogonSocket.LogonCommSocket.SendPacket and Rc4.UndoesIffKeysAgree, and LogonLink.Exchange ends there, as it does when a receive finds no room and the code hangs up.
- Mersenne.CRandomMersenne.IRandomX: gives up after a number of tries that the caller names, where the code could loop for ever on a stream that is never accepted; the interval is below 2^31 - 1, as the class's own header demands.
- Uniform.AlmostUniform: `Random` and `IRandom` as exact fractions; floating-point rounding and the architecture probe of the generator are left out.
- Uniform.UniformIffDivides: exact fractions likewise.
- Rc4: the exclusive or of bytes is defined bit by bit on numbers.
- The 64-bit copies of the hash map, which differ in the key type only, and the overflow of the table size beyond 2^31.
- RealmRegistry: realms and sockets are values in maps rather than objects; the character map, ids beyond 2^32, and realm fields other than name, address and online state are left out.
- Srp6: the hash is a parameter, and so are the numbers made from modulus, base and user name, the salt, and what lies in memory behind each number. The modulus has at most 32 bytes.
- ByteBuffer: floating-point numbers and location vectors; the order of a map's keys; writes stay below the ten million bytes that the class asserts.
- WoWGuid: an identifier is its eight bytes, so adding a shifted byte is placing it; the initialisation from a mask and all fields at once, which nothing here needs.
- BufferPool: packets are numbers, so contents and the pool's locks are left out; the order of the buckets' statistics output too.
- Terrain: heights and coordinates are exact reals.
- Terrain.CellOf: a coordinate below zero, which the callers never pass, is not modelled; the code would truncate it towards zero.
- SmartPointer: an object is given to one first handle only; two references made from one raw pointer would each own it. Live handles and references made are known to the proof only. A destroyed handle reads as null, as its destructor left it.
- SmartPointer.SharedPointer.Assign: asks that the handle not be a member of an object that its own release deletes; there the code frees the reference a second time and its assertion fails (SmartPointer.h:35). So do SmartPointer.SharedPointer.SetNull and SmartPointer.SharedPointer.LetGo.
- Storage.SQLStorage.Load: with the array container only; the hash container takes the same calls, in an order of rows that the library leaves open.
- Storage.SQLStorage.Cleanup: with the array container only, likewise.
- Storage: a block is the string pointers it holds by offset; number fields and the bytes between are left out, as is `Reload`.
- StorageContainers.ArrayStorageContainer.SetEntry: asks that the entry not be the one just past the last, where the code would write outside the array.
- StorageContainers: freeing the row itself when its entry is replaced or dropped; the order in which the library walks over the hash map is a parameter; the allocation pools, which the build switches off.
- `RPlayerInfo`, `CircularQueue`, the patch jobs, the voice-chat list, `StackBuffer` and the worker selection: as written they do not meet the specification one would expect, and nothing depends on them here.
- Small finite helpers (address masks, time periods, string splitting, fast queues): they would only add easy members.
