# Proved model of the tflib and tfnac cores

Dafny 4.11 models of the algorithmic and stateful cores of a C base library (`tflib`) and of the server built on it
(`tfnac`), with proofs of what they promise. Code that updates objects or buffers in place is modelled by classes and
methods over arrays, fields and linked nodes; each such method is tied to a function on values, and the theorems are
about those functions and about whole runs.

| Part | Files |
|---|---|
| bytes, words and host byte order | `Machine.dfy` |
| Murmur hashes, and their agreement with natural-number arithmetic | `Murmur.dfy`, `MurmurLoops.dfy`; `Numbers.dfy`, `MurmurSpec.dfy`, `MurmurNumbers.dfy` |
| DES: the cipher, its key schedule, the double- and triple-length modes, and the C code on 64-bit words | `DesCipher.dfy`, `DesKeys.dfy`, `DesModes.dfy`, `DesLayers.dfy`, `Des.dfy`, `DesMachine.dfy`; agreement with FIPS 46-3 in `DesBits.dfy`, `DesStandard.dfy` |
| MD5: RFC 1321, the unrolled transform, the streaming context | `Md5Spec.dfy`, `Md5.dfy`, `Md5Context.dfy`; one digest worked out in `Md5Known.dfy` |
| timers of the event loop | `AeTime.dfy`, `AeTimerList.dfy`, `AeTimerPass.dfy`, `AeTimers.dfy` |
| file events of the event loop over its four backends | `AeRegistry.dfy`, `AeEpoll.dfy`, `AeSelect.dfy`, `AeKqueue.dfy`, `AeEvport.dfy`, `AeFiles.dfy` |
| the list and its serialized form | `TfVarint.dfy`, `TfListFormat.dfy`, `TfList.dfy` |
| splitting and joining, hexadecimal and packed decimal | `TfSplit.dfy`, `TfHex.dfy` |
| base64 | `Base64.dfy` |
| allocator accounting | `Malloc.dfy` |
| the peer pool of the server | `PeerPool.dfy`, `Peers.dfy` |

## How to read it

`dafny verify dfyconfig.toml` checks everything. Some proofs use `hide` to keep definitions they do not need out of the
solver's way.

What the code gets from outside is a parameter or a field fixed at construction: clock readings (`clock`, by reading
number), what callbacks and handlers do when called (`callbacks`, `handlers`), what the kernel returns to a poll
(constrained by a `CanReturn` predicate of the backend), which registrations it refuses (`refused`, `refusal`), the addresses an
allocator returns, the outcome of a socket operation, and the host byte order.

Where the code departs from its documentation or from what one would expect, the model follows the code, a lemma shows
the departure, and the contract says exactly when the expectation holds:

- A timer that is overdue still lets the poll sleep, for the distance modulo one second
  (`AeTime.TimeoutInMilliseconds`, `AeTime.OverdueBlocksUnlessWholeSeconds`).
- A negative delay can leave a timer's milliseconds negative (`AeTime.AfterIsExact`, `AeTime.NegativeDelayUnderflows`).
- A pass over the timers need not end. On a clock standing still, with callbacks that make no timer calls and always
  return the same value for a timer, it ends exactly if every due timer's callback returns AE_NOMORE or a positive delay
  (`AeTimerPass.EndsExactly`); one that returns 0 each time fires for ever (`AeTimerPass.ZeroDelayForever`), one that
  returns 0 once does not (`AeTimerPass.ZeroOnceEnds`). A clock that keeps moving on can outrun even positive delays
  (`AeTimerPass.RunningClockForever`). Whatever else the callbacks do, a pass ends if they re-time and re-arm by positive
  delays only and the clock, not going back, stays below some time (`AeTimerPass.PassEnds`).
- One fired entry can call the same handler for reading and for writing, although the code compares the two, because it
  compares what is registered after the read call (`AeRegistry.TwiceAfterReregistering`). `AeRegistry.TwiceExactly` says
  exactly when, and `AeRegistry.OnceEach` that it does not happen if read handlers register no other read handler for
  their descriptor.
- When kqueue accepts the filter for reading and refuses the one for writing, the registration fails but the first filter
  stays; if it is new, the kernel then watches a descriptor the loop does not (`AeKqueue.KqueueState.AddEvent`,
  `AeFiles.EventLoop.CreateFileEvent`).
- Registering an empty mask for an unregistered descriptor can put `maxfd` above every registered descriptor, and leaves
  the epoll set and the event port with an entry the loop does not know of (`AeRegistry.MaxFdKept`,
  `AeFiles.EventLoop.CreateFileEvent`).
- A list dump can overrun its buffer by a byte, with two elements of 2^28 bytes (`TfListFormat.DumpFitsExactly`,
  `TfListFormat.TwoLargeElementsOverrun`).
- Inserting at an index equal to the number of elements appends, although the header says it has no effect
  (`TfList.List.Insert`).
- Encoding three bytes or fewer as base64 writes nothing, and the count returned is four too many when the length is a
  multiple of three (`Base64.EncodeBase64`). A line break between two padding characters can change what is decoded
  (`Base64.BreakBetweenPadding`), exactly when the first of them would have ended the data two letters into a quad and
  letters follow the second (`Base64.InsertionMatters`); the usual wrapped ending is safe (`Base64.WrappedEnding`).
- Splitting stops at a zero byte: a list with a zero in an element, or of several elements joined at a zero, does not come back
  (`TfSplit.SplitJoin`).
- The last `memset` of the MD5 code clears as many bytes as a pointer has, not the whole context
  (`Md5Context.Context.Final`).
- No id reaches the first peer slot (`PeerPool.IdFindsSlot`), and a session timeout of zero lasts 65536 ticks
  (`PeerPool.Life`).

## Model

| member | source | states |
|---|---|---|
| `Murmur.MulInjective` | tflib/expert/tf_hash.c:67-69 | multiplying by the hash constant loses nothing: equal products come from equal words |
| `Murmur.MixInjective` | tflib/expert/tf_hash.c:67-69 | the scrambling of an input word is a bijection on 32-bit words |
| `Murmur.StepInjective` | tflib/expert/tf_hash.c:67-72 | one loop step maps different states (same word) and different words (same state) to different states |
| `Murmur.TailInjective` | tflib/expert/tf_hash.c:78-86 | the fall-through over one to three tail bytes separates both states and tails of equal length |
| `Murmur.Finish32Injective` | tflib/expert/tf_hash.c:88-90 | the 32-bit finalizer never merges two states |
| `Murmur.Murmur32NoCollision` | tflib/expert/tf_hash.c:55-93 | inputs of equal length that differ in exactly one aligned word, or only in the tail, never hash alike |
| `MurmurNumbers.Hash32Agrees` | tflib/expert/tf_hash.c:55-93 | for every input, the 32-bit hash is the number that products modulo 2 to the 32, quotients by powers of two and digit-wise exclusive or give |
| `MurmurLoops.TfMurmur32Hash` | tflib/expert/tf_hash.c:55-93 | the loop over the buffer computes the hash function of the separation theorem, and as a number the hash of the arithmetic reference |
| `MurmurNumbers.HashOfNothing` | tflib/expert/tf_hash.c:55-93 | the hash of no byte |
| `MurmurNumbers.HashOfThreeBytes` | tflib/expert/tf_hash.c:78-90 | the hash of the three bytes abc, all of them tail |
| `MurmurNumbers.HashOfHello` | tflib/expert/tf_hash.c:55-93 | the hash of hello is 0xe56129cb |
| `Murmur.Finish64Injective` | tflib/expert/tf_hash.c:43-46 | the four crossed finishing steps are a bijection on the pair of lanes |
| `Murmur.Murmur64NoCollision` | tflib/expert/tf_hash.c:4-53 | the same separation for the 64-bit hash, for every seed and either byte order |
| `MurmurNumbers.Hash64Agrees` | tflib/expert/tf_hash.c:4-53 | for every input, seed and byte order, the 64-bit hash is that of the arithmetic reference, with its two lanes and four crossings |
| `MurmurLoops.TfMurmur64Hash` | tflib/expert/tf_hash.c:4-53 | the two-lane loop with its odd word and tail computes the 64-bit hash function, and as a number the hash of the arithmetic reference |
| `MurmurNumbers.LongHash` | tflib/expert/tf_hash.c:4-53 | the seeded hash of thirteen bytes: both lanes, an odd word and a tail |
| `MurmurNumbers.BigEndianHash` | tflib/expert/tf_hash.c:4-53 | the hash of one word on a host of the other byte order |
| `DesCipher.IpUndoesFp` | tflib/expert/d3des.c:337-355 | the opening swaps and rotation undo the closing ones |
| `DesCipher.FpUndoesIp` | tflib/expert/d3des.c:384-402 | the closing swaps and rotation undo the opening ones |
| `DesCipher.RoundsUndone` | tflib/expert/d3des.c:357-382 | running the rounds again with the keys reversed and the halves exchanged gives the start back, for any number of rounds and any tables |
| `DesCipher.CryptUndone` | tflib/expert/d3des.c:331-404 | enciphering under any keys is undone by enciphering under the same keys in reverse order |
| `DesCipher.IpOfNot` | tflib/expert/d3des.c:337-355 | the initial permutation commutes with complementing the block |
| `DesCipher.FOfNot` | tflib/expert/d3des.c:358-368 | the round function ignores complementing the half together with the six used bits of each key field |
| `DesCipher.CryptOfNot` | tflib/expert/d3des.c:331-404 | complementing the block and the round keys complements the result |
| `DesKeys.ScheduleReverses` | tflib/expert/d3des.c:76-77 | the deciphering schedule is the enciphering one in reverse order |
| `DesKeys.RotationsAreIterated` | tflib/expert/d3des.c:52-53 | the accumulated rotation counts equal the one- and two-step shifts of the standard, round by round |
| `DesKeys.CookedOfNot` | tflib/expert/d3des.c:99-121 | complementing the key flips exactly the bits 0x3f3f3f3f of each cooked word |
| `DesKeys.ScheduleOfNot` | tflib/expert/d3des.c:70-94 | the schedule of a complemented key is the complemented schedule, in either mode |
| `DesBits.IpIsStandard` | tflib/expert/d3des.c:337-355 | every bit of the initial permutation comes from where the table IP of FIPS 46-3 says, each half being kept turned left by one bit |
| `DesBits.TracedFour` | tflib/expert/d3des.c:339-350 | the four masked exchanges together trade the word of a bit for digits of its place |
| `DesStandard.RawBit` | tflib/expert/d3des.c:70-94 | each bit of a raw key word is the bit PC2 selects from C and D, shifted round by round from PC1 of the key |
| `DesStandard.Choice1IsStandard` | tflib/expert/d3des.c:46-50 | the table counted from 0 is permuted choice 1 of FIPS 46-3, counted from 1 |
| `DesStandard.Choice2IsStandard` | tflib/expert/d3des.c:55-59 | the table counted from 0 is permuted choice 2 of FIPS 46-3, counted from 1 |
| `DesStandard.KeyBitIsStandard` | tflib/expert/d3des.c:70-74 | the bits of the key are taken in the standard's order, bit 1 the highest of the first byte |
| `DesStandard.BlockIsStandard` | tflib/expert/d3des.c:157-170 | bit n of the block the standard speaks of is bit n of the bytes, counted from the highest of the first |
| `DesStandard.IndexIsStandard` | tflib/expert/d3des.c:357-380 | each table is looked up at the six bits FIPS 46-3 gives its S-box: that group of E(R) xor the round key |
| `DesStandard.FIsStandard` | tflib/expert/d3des.c:357-381 | the half-round value is f(R, K) of FIPS 46-3 over the given tables, turned left by one bit |
| `DesStandard.RoundsAreStandard` | tflib/expert/d3des.c:357-382 | after any number of rounds the halves are the standard's L and R, turned |
| `DesStandard.EncipheringIsStandard` | tflib/expert/d3des.c:331-404 | enciphering is IP, the 16 rounds of FIPS 46-3 with its key schedule, the final exchange of halves and the inverse of IP, for whatever S-box tables |
| `DesModes.OppositeLoadsInverse2` | tflib/expert/d3des.c:408-421 | des2key in the other mode loads the inverse of what it loads in this one |
| `DesModes.OppositeLoadsInverse3` | tflib/expert/d3des.c:553-577 | des3key in the other mode loads the inverse of what it loads in this one |
| `DesModes.DesUndone` | tflib/expert/d3des.c:145-155 | des under the other mode's schedule gives the block back, for every key and block |
| `DesModes.DdesUndone` | tflib/expert/d3des.c:423-435 | Ddes under the inverse registers undoes Ddes, for arbitrary registers |
| `DesModes.D2desUndone` | tflib/expert/d3des.c:437-464 | D2des with its two word swaps is undone under the inverse registers, for arbitrary registers |
| `DesModes.D3desUndone` | tflib/expert/d3des.c:609-644 | D3des with its four word swaps is undone under the inverse registers, for arbitrary registers |
| `DesModes.DoubleKeyUndone` | tflib/expert/d3des.c:408-464 | with a double-length key loaded in opposite modes, Ddes, D2des and D3des give every input back |
| `DesModes.TripleKeyUndone` | tflib/expert/d3des.c:553-644 | with a triple-length key loaded in opposite modes, Ddes, D2des and D3des give every input back |
| `DesLayers.TripleKeyOrder` | tflib/expert/d3des.c:423-435 | after des3key of k1, k2, k3, Ddes enciphers under k1, deciphers under k2 and enciphers under k3; loaded to decipher, it does the reverse in the reverse order |
| `DesLayers.DoubleKeyOrder` | tflib/expert/d3des.c:408-435 | after des2key of k1, k2, Ddes works as after des3key of k1, k2, k1, in either mode |
| `DesLayers.EqualParts` | tflib/expert/d3des.c:408-435 | with all parts of the key equal, either is single DES |
| `DesLayers.D2desInLayers` | tflib/expert/d3des.c:437-464 | D2des is single DES on both blocks, three times over, with the inner words of the blocks traded in between |
| `DesLayers.D3desInLayers` | tflib/expert/d3des.c:609-644 | D3des is single DES on all three blocks, three times over, with the two pairs of neighbouring words traded in between |
| `DesModes.DesComplementation` | tflib/expert/d3des.c:61-155 | complementing all key bytes and all block bytes complements the output of des, in both modes and for any tables |
| `Des.InitialPermutation` | tflib/expert/d3des.c:337-355 | on 64-bit words with arbitrary high bits, the low words come out as the 32-bit permutation |
| `Des.RoundValue` | tflib/expert/d3des.c:358-368 | the value looked up in a half round depends on the low words only and equals the 32-bit round function |
| `Des.FinalPermutation` | tflib/expert/d3des.c:384-402 | the closing permutation of clean words has the low words of the 32-bit one, whatever it leaves above them |
| `Des.Desfunc` | tflib/expert/d3des.c:331-404 | whatever junk its words carry above bit 31, the low words it leaves are those of a pure 32-bit evaluation |
| `DesMachine.Deskey` | tflib/expert/d3des.c:61-97 | the key register holds the schedule of the key in the requested mode |
| `DesMachine.Cookey` | tflib/expert/d3des.c:99-121 | the raw words of the schedule, in whatever slots the mode put them, end as the cooked schedule in the register |
| `DesMachine.Cp3key` | tflib/expert/d3des.c:579-592 | all three registers are copied out, in order |
| `DesMachine.Use3key` | tflib/expert/d3des.c:594-607 | all three registers are loaded from what cp3key lays out |
| `DesMachine.Des2key` | tflib/expert/d3des.c:408-421 | the registers after loading a double-length key, in the order DesLayers.DoubleKeyOrder speaks of |
| `DesMachine.Des3key` | tflib/expert/d3des.c:553-577 | the registers after loading a triple-length key, in the order DesLayers.TripleKeyOrder speaks of |
| `DesMachine.Scrunch` | tflib/expert/d3des.c:157-170 | eight bytes become two words, most significant byte first, with nothing above bit 31 |
| `DesMachine.Unscrun` | tflib/expert/d3des.c:172-186 | the low words become eight bytes, whatever is above them; other bytes stay |
| `DesMachine.DesBlock` | tflib/expert/d3des.c:145-155 | des on bytes is the 32-bit cipher |
| `DesMachine.DdesBlock` | tflib/expert/d3des.c:423-435 | three chained calls on words with leftover high bits agree with the 32-bit cipher, also in place |
| `DesMachine.D2desBlocks` | tflib/expert/d3des.c:437-464 | the two-block mode agrees with its 32-bit definition, also in place |
| `DesMachine.D3desBlocks` | tflib/expert/d3des.c:609-644 | the three-block mode agrees with its 32-bit definition, also in place |
| `DesMachine.ShortPassword` | tflib/expert/d3des.c:466-486 | a password of up to eight characters gives its low seven bits, added to the fixed key, enciphered, deciphered and enciphered under that key's two halves |
| `DesMachine.HashedInChunks` | tflib/expert/d3des.c:476-484 | what follows whole chunks of a password is hashed into what they gave |
| `DesMachine.MakeKey` | tflib/expert/d3des.c:466-516 | hashing a password yields the chained encipherment of its chunks, wipes the password, and leaves all three key registers as they were (also make3key) |
| `Md5Spec.FoldAppend` | tflib/expert/md5.c:79-85 | a block appended to whole blocks is one more compression of the registers |
| `Md5.CoreIsAux` | tflib/expert/md5.c:140-150 | the optimized core functions equal the auxiliary functions of section 3.4 of RFC 1321 |
| `Md5.Transform` | tflib/expert/md5.c:156-239 | the 64 unrolled steps compute the operations of section 3.4 of RFC 1321 and add the registers |
| `Md5Context.CounterAdvances` | tflib/expert/md5.c:54-57 | two words with a carry count bits modulo 2 to the 64 |
| `Md5Context.ByteReverse` | tflib/expert/md5.c:15-24 | after it a native read of each word is the little-endian value of the bytes, on either byte order |
| `Md5Context.Context.Init` | tflib/expert/md5.c:33-42 | a fresh context stands for the empty message |
| `Md5Context.Context.CountBits` | tflib/expert/md5.c:54-57 | the counter moves from the old message length to the new one, carry included |
| `Md5Context.Context.FillPending` | tflib/expert/md5.c:63-76 | a pending partial block is completed and compressed, or just grows |
| `Md5Context.Context.AbsorbBlocks` | tflib/expert/md5.c:79-85 | all full blocks go through the registers and fewer than 64 bytes are left |
| `Md5Context.Context.Update` | tflib/expert/md5.c:48-90 | any further bytes, none included, extend the message the context stands for |
| `Md5Context.Context.PadAndTransform` | tflib/expert/md5.c:101-131 | in both padding cases the registers become the fold over the padded message |
| `Md5Context.Context.Final` | tflib/expert/md5.c:96-135 | the result is the digest of RFC 1321 of the whole message; of the context only a pointer's width is wiped |
| `Md5Context.HashChunks` | tflib/expert/md5.c:48-135 | however a message is cut, and on either byte order, the digest is the RFC's |
| `Md5Context.ChunkingIrrelevant` | tflib/expert/md5.c:48-135 | two ways of cutting one message, even on different hosts, give one digest |
| `Md5Known.DigestOfMessage` | tflib/expert/md5.c:48-239 | the digest of one message that fills its block to the last byte, all 64 operations worked out |
| `AeTime.AfterIsExact` | tflib/ae/ae.c:128-140 | the delay is added exactly; the milliseconds stay below a thousand always, and are not negative exactly when the delay is not or its remainder does not underflow them |
| `AeTime.NegativeDelayUnderflows` | tflib/ae/ae.c:132-133 | a delay of -10 ms at 5.003 s leaves -7 ms |
| `AeTime.ComparisonsAreNumeric` | tflib/ae/ae.c:215-218 | on normalized times the two-field comparisons are comparisons of milliseconds |
| `AeTime.RearmedDueAtOnce` | tflib/ae/ae.c:258-281 | with the clock standing still a re-armed timer is due again at once exactly when its delay is not positive |
| `AeTime.TimeoutInMilliseconds` | tflib/ae/ae.c:332-340 | the poll timeout is the distance to the timer if it lies ahead, otherwise the distance modulo one second |
| `AeTime.OverdueBlocksUnlessWholeSeconds` | tflib/ae/ae.c:339-340 | for an overdue timer the timeout is zero exactly when it is overdue by whole seconds |
| `AeTimerList.ApplyKeepsOrder` | tflib/ae/ae.c:142-196 | creating, deleting and re-timing keep ids strictly decreasing from the head and below the next id |
| `AeTimerList.RemoveKeepsOthers` | tflib/ae/ae.c:161-181 | deleting an id removes that timer and no other |
| `AeTimerList.CreatedExactly` | tflib/ae/ae.c:128-159 | a created timer stands at the head under the next id, due exactly its delay after the reading taken, before an unchanged tail |
| `AeTimerList.ModifiedExactly` | tflib/ae/ae.c:183-196 | re-timing makes the timer of that id due exactly the delay after the reading taken, and changes nothing else |
| `AeTimerList.DeletedExactly` | tflib/ae/ae.c:161-181 | deleting leaves exactly the timers of other ids, in their order |
| `AeTimerList.ApplyAllEffect` | tflib/ae/ae.c:142-196 | any sequence of creations, deletions and re-timings keeps the order and touches an old timer only by deleting or re-timing its id |
| `AeTimerList.ApplyAllLowersDue` | tflib/ae/ae.c:128-196 | operations that re-time only to the future make no old timer due at a reading already taken |
| `AeTimerList.ApplyAllNormalized` | tflib/ae/ae.c:128-196 | without negative delays, operations keep every timer's milliseconds below a thousand and not negative |
| `AeTimerPass.StepKeeps` | tflib/ae/ae.c:250-289 | every step of a pass, whatever its callback does and returns, keeps the accounts: who has been called, who was deleted or re-timed by a callback, who is still there, and that what the scan has passed was not due when the pass began |
| `AeTimerPass.StepRuns` | tflib/ae/ae.c:250-289 | a step calls a timer only if it is due at the reading just taken, changes only what the callback's calls and its verdict name, and then starts again from the head; any other step changes no timer |
| `AeTimerPass.FiredExactly` | tflib/ae/ae.c:262-284 | after a firing the timer is gone if its callback asked for no more, and otherwise due exactly what the callback returned after the reading then taken; every other timer is as the callback's calls left it |
| `AeTimerPass.FiringConcludes` | tflib/ae/ae.c:262-284 | so every firing is concluded, unless the callback deletes the timer it asks to run again |
| `AeTimerPass.PassLeaves` | tflib/ae/ae.c:225-291 | after any pass that ends, whatever callbacks do: no timer a callback created has fired, no old timer is lost, no old survivor was due when the pass began, and after a backwards step of the clock every old timer was called, or deleted or re-timed by a callback |
| `AeTimerPass.StepLowers` | tflib/ae/ae.c:250-289 | each step lowers, in this order, the time left on the clock, the set of old timers due at the last reading, and the rest of the list |
| `AeTimerPass.PassEnds` | tflib/ae/ae.c:225-291 | a pass ends if the callbacks it calls re-time and re-arm only by positive delays and the clock neither goes back nor passes some time, whatever timers they create, delete and re-time |
| `AeTimerPass.WellBehavedPassEnds` | tflib/ae/ae.c:225-291 | so it does, from any list and after a clock skew as well, if all callbacks are like that |
| `AeTimerPass.EndsExactly` | tflib/ae/ae.c:258-285 | on a clock standing still, for constant callbacks without timer calls, a pass ends if and only if every due old timer returns AE_NOMORE or a positive delay |
| `AeTimerPass.FiresForever` | tflib/ae/ae.c:258-285 | if a returned delay never outlasts the time to the next reading, then after every number of firings the timer is still listed and due |
| `AeTimerPass.ZeroDelayForever` | tflib/ae/ae.c:258-285 | one due timer whose callback returns 0 fires for ever on a clock standing still |
| `AeTimerPass.RunningClockForever` | tflib/ae/ae.c:258-285 | one whose callback returns a second fires for ever on a clock that moves on by a second between readings |
| `AeTimerPass.ZeroOnceEnds` | tflib/ae/ae.c:258-285 | a callback that returns 0 once and then AE_NOMORE lets the pass end |
| `AeTimerPass.RunNormalized` | tflib/ae/ae.c:128-291 | over every run of calls, clock readings and passes without negative delays, all timers stay normalized and in order |
| `AeTimers.RunSleeps` | tflib/ae/ae.c:320-340 | in every such run the poll sleeps for the shortest distance to any timer, or, if that is negative, for its remainder modulo a second |
| `AeTimers.EventLoop.CreateTimeEvent` | tflib/ae/ae.c:142-159 | a fresh node at the head with the next id, due exactly the delay after the reading taken; the other timers and nodes stay |
| `AeTimers.EventLoop.DeleteTimeEvent` | tflib/ae/ae.c:161-181 | the node with that id leaves the linked list and no other, so exactly the other timers remain; an unknown id is reported |
| `AeTimers.EventLoop.ModifyTimeEvent` | tflib/ae/ae.c:183-196 | the timer with that id is re-timed in place, to exactly the delay after the reading taken, and no other; an unknown id is reported |
| `AeTimers.EventLoop.SearchNearestTimer` | tflib/ae/ae.c:209-222 | no timer is earlier than the one found, and it is the first such from the head; none is found only in an empty list |
| `AeTimers.EventLoop.PollTimeout` | tflib/ae/ae.c:320-352 | the wait comes from the true nearest timer and, while timers are normalized, is the shortest distance to any of them in milliseconds, or its remainder modulo a second if negative; it is zero when asked not to wait, and otherwise unbounded |
| `AeTimers.EventLoop.RunCallback` | tflib/ae/ae.c:264-265 | a re-entrant callback changes the list exactly as its calls say and only nodes it deletes by id leave it |
| `AeTimers.EventLoop.Fire` | tflib/ae/ae.c:262-284 | on the linked list, a firing is the callback's re-entrant calls followed by deleting its id or by re-arming its node, wherever that now is, to exactly what the callback returned after the reading taken |
| `AeTimers.EventLoop.ForgetSeconds` | tflib/ae/ae.c:239-245 | after a clock skew every timer has second zero and its old milliseconds |
| `AeTimers.EventLoop.ScanOne` | tflib/ae/ae.c:250-289 | one turn of the loop on the linked list is the step of the pass |
| `AeTimers.EventLoop.Scan` | tflib/ae/ae.c:248-290 | the scan that restarts from the head after each firing makes the steps of the pass until none is left |
| `AeTimers.EventLoop.ProcessTimeEvents` | tflib/ae/ae.c:225-291 | for every pass that ends: the list, the calls and the clock are where the steps lead; no timer a callback created fires; no old timer is lost; no old survivor was due when the pass began; after a backwards clock step every timer is called, or deleted or re-timed by a callback; without negative delays timers stay normalized |
| `AeRegistry.Highest` | tflib/ae/ae.c:105-107 | the descriptor found is registered and everything above it is not |
| `AeRegistry.MaxFdKept` | tflib/ae/ae.c:77-110 | deleting keeps maxfd exact; creating does so exactly unless it records an empty mask above maxfd |
| `AeRegistry.CreateRecords` | tflib/ae/ae.c:77-92 | registering records the handler for exactly the kinds of the mask, the data and the enlarged mask, and leaves every other descriptor |
| `AeRegistry.LastRegistered` | tflib/ae/ae.c:77-110 | after every history of registrations, a descriptor is registered for a kind by a handler exactly if that was the last registered for it and not unregistered since, and its data is the last registered |
| `AeRegistry.BatchSound` | tflib/ae/ae.c:356-375 | over a batch, whatever handlers register or delete: a handler runs only while its descriptor is registered for that kind, with its current client data, entries in order, and an entry makes a second call only to serve writing after reading, by a handler other than the read handler registered at that moment |
| `AeRegistry.BatchComplete` | tflib/ae/ae.c:356-375 | over a batch, whatever handlers do, an entry is served for reading if and only if it fired for it and is registered when its turn comes, and for writing if and only if it fired for it, is still registered after the read handler, and the handlers then registered do not coincide after a read |
| `AeRegistry.BatchRunsLast` | tflib/ae/ae.c:356-375 | every call of a batch runs the handler last registered for its kind of its descriptor, with the data last registered, handlers' own registrations during the batch included |
| `AeRegistry.RunLeads` | tflib/ae/ae.c:77-375 | through every run of registrations and batches the registrations are what the history says, and every batch runs the handlers last registered |
| `AeRegistry.CallsOfEntry` | tflib/ae/ae.c:356-375 | the calls that serve an entry are exactly those made during its turn |
| `AeRegistry.TwiceExactly` | tflib/ae/ae.c:365-373 | for all handlers, an entry calls one handler twice if and only if it is called for reading and leaves the descriptor registered and fired for writing, itself as the write handler, and another read handler |
| `AeRegistry.TwiceAfterReregistering` | tflib/ae/ae.c:365-373 | a handler of both kinds that registers another read handler when called for reading is called again for writing |
| `AeRegistry.OnceEach` | tflib/ae/ae.c:365-373 | if read handlers register no other read handler for their descriptor, no entry of any batch calls a handler twice |
| `AeRegistry.BatchKeepsMaxFd` | tflib/ae/ae.c:356-375 | handlers that register no empty mask leave maxfd exact after every batch |
| `AeEpoll.HoldsAfterSet` | tflib/ae/ae_epoll.c:66-101 | an update or removal stands for the new mask exactly when the mask is non-empty or empty respectively |
| `AeEpoll.EpollState.AddEvent` | tflib/ae/ae_epoll.c:66-82 | the choice between ADD and MOD always fits the kernel's membership: it fails only if refused, changing nothing |
| `AeEpoll.EpollState.DelEvent` | tflib/ae/ae_epoll.c:84-101 | MOD or DEL always fits, and the kernel's interest set stands for the reduced mask |
| `AeEpoll.EpollState.Poll` | tflib/ae/ae_epoll.c:103-126 | each returned event becomes one fired entry of a registered descriptor; errors and hang-ups count as writable |
| `AeSelect.SelectState.AddEvent` | tflib/ae/ae_select.c:29-35 | the descriptor sets stand for the enlarged mask |
| `AeSelect.SelectState.DelEvent` | tflib/ae/ae_select.c:37-42 | the descriptor sets stand for the reduced mask |
| `AeSelect.SelectState.Poll` | tflib/ae/ae_select.c:44-69 | if anything is ready, the scan up to maxfd reports every registered descriptor once, in order, with exactly its ready kinds |
| `AeKqueue.KqueueState.AddEvent` | tflib/ae/ae_kqueue.c:43-56 | the filters stand for the enlarged mask unless a kernel call is refused; then they stand for the old mask exactly if no new read filter was added before the refusal, and otherwise for the mask enlarged by reading |
| `AeKqueue.KqueueState.DelEvent` | tflib/ae/ae_kqueue.c:58-70 | the filters stand for the reduced mask |
| `AeKqueue.KqueueState.Poll` | tflib/ae/ae_kqueue.c:72-102 | each fired entry reports one kind, one the descriptor is registered for, and none twice |
| `AeEvport.ExactlyOne` | tflib/ae/ae_evport.c:35-40 | a registered descriptor is in exactly one of kernel association and pending slot, with its mask; an unregistered one in neither |
| `AeEvport.BatchFits` | tflib/ae/ae_evport.c:265-283 | different descriptors below the table size never overflow the fired table |
| `AeEvport.EvportState.LookupPending` | tflib/ae/ae_evport.c:79-88 | a slot holding the descriptor, or the knowledge that there is none |
| `AeEvport.EvportState.AddEvent` | tflib/ae/ae_evport.c:122-151 | the either-or protocol is kept with the enlarged mask, exactly if that is non-empty; a refusal changes nothing |
| `AeEvport.EvportState.DelEvent` | tflib/ae/ae_evport.c:153-211 | the either-or protocol is kept with the reduced mask; it aborts exactly when the kernel refuses what is left of an associated descriptor, and never over a dissociation |
| `AeEvport.EvportState.Reassociate` | tflib/ae/ae_evport.c:225-240 | every live pending slot goes back to the kernel with its mask, or the program aborts, exactly when the kernel refuses one |
| `AeEvport.EvportState.Poll` | tflib/ae/ae_evport.c:213-286 | a poll loses no registration: what it returns becomes pending with its full mask, all else is associated; it aborts exactly when the kernel refuses a pending descriptor |
| `AeFiles.AddEvent` | tflib/ae/ae.c:83-84 | over any backend, an accepted registration is represented, except an empty one by epoll and the event port; a refused one leaves the state as it was exactly unless it left kqueue's new read filter behind |
| `AeFiles.DelEvent` | tflib/ae/ae.c:100-109 | over any backend, the state stands for the loop's masks after a deletion |
| `AeFiles.Poll` | tflib/ae/ae.c:354 | over any backend, a poll keeps the registrations and fills the fired table, within bounds, with exactly what the kernel reported of registered descriptors |
| `AeFiles.EventLoop.CreateFileEvent` | tflib/ae/ae.c:77-92 | a failure changes no registration, and leaves everything right exactly unless kqueue kept a new read filter; a success records the handler for the kinds of the mask only, the data and the enlarged mask, leaves other descriptors, and keeps maxfd and backend right exactly unless the mask recorded is empty (and, for select and kqueue, above maxfd) |
| `AeFiles.EventLoop.DeleteFileEvent` | tflib/ae/ae.c:94-110 | the mask is reduced and nothing else of any descriptor changes; maxfd is again the largest registered descriptor, and the backend follows |
| `AeFiles.EventLoop.ServeEntry` | tflib/ae/ae.c:357-374 | one fired entry is served as the dispatch function says, re-entrant changes included |
| `AeFiles.EventLoop.ProcessFileEvents` | tflib/ae/ae.c:354-376 | what the kernel reported is dispatched in full: every handler call was for a kind registered at that moment, by the handler and with the data last registered in whatever history led here, and every fired kind was served exactly if it was registered when its turn came (writing unless the handlers coincide after a read); every invariant is kept |
| `TfVarint.EncodeDecode` | tflib/tf_util.h:7-45 | every number reads back as itself, whatever bytes follow |
| `TfVarint.EncodedLength` | tflib/tf_util.h:7-26 | a number takes at most k bytes exactly when it is below 128 to the k |
| `TfVarint.EncodedDigits` | tflib/tf_util.h:7-26 | byte i of an encoding holds digit i to the base 128, lowest first, complemented unless it is the last |
| `TfVarint.CalcSizeIsLength` | tflib/tf_util.h:48-50 | the size macro predicts the length exactly for numbers below 2 to the 35, every int included |
| `TfVarint.SetVnumBuf` | tflib/tf_util.h:7-26 | the encoding is written where asked and nowhere else; a negative number writes nothing |
| `TfVarint.EncodedFits` | tflib/tf_util.h:30-45 | every encoded int takes at most five bytes and so can be read without overflow |
| `TfVarint.ReadVnumBuf` | tflib/tf_util.h:30-45 | in 32-bit arithmetic that never overflows, the number and its length are read |
| `TfListFormat.LoadDump` | tflib/tf_list.c:292-346 | what is dumped parses as the list it was, for elements of every int size |
| `TfListFormat.DumpExample` | tflib/tf_list.c:292-311 | three elements, one of them empty: size, bytes, size, size, bytes |
| `TfListFormat.DumpFitsExactly` | tflib/tf_list.c:296-300 | the dump stays inside its buffer exactly when five-byte sizes outnumber unused prefix bytes by at most one |
| `TfListFormat.SmallElementsFit` | tflib/tf_list.c:296-300 | elements below 2 to the 28 bytes always fit |
| `TfListFormat.TwoLargeElementsOverrun` | tflib/tf_list.c:296-308 | two elements of 2 to the 28 bytes overrun by one byte |
| `TfList.List.constructor` | tflib/tf_list.c:10-18 | an empty list with 64 slots |
| `TfList.List.Sized` | tflib/tf_list.c:21-30 | an empty list with the slots asked for, one at least |
| `TfList.List.Reserve` | tflib/tf_list.c:110-113 | growth by one more than the number of elements leaves room for the next and keeps all of them |
| `TfList.List.Push` | tflib/tf_list.c:107-120 | the element is appended in a region of its own, terminated by a zero, and the other elements stay |
| `TfList.List.Insert` | tflib/tf_list.c:158-175 | the element appears at the index, those from there on one later; past the end nothing happens |
| `TfList.List.Remove` | tflib/tf_list.c:198-208 | the element is gone, those after it one earlier, and the caller owns its terminated region; past the end null |
| `TfList.List.Pop` | tflib/tf_list.c:139-146 | the last element goes to the caller with its terminated region; null from an empty list |
| `TfList.List.Val` | tflib/tf_list.c:90-96 | the element's bytes with a zero after them, or null past the end |
| `TfList.List.Over` | tflib/tf_list.c:224-233 | the element is replaced, in place or in a larger region, and all others stay |
| `TfList.List.Search` | tflib/tf_list.c:255-263 | the first element equal to the key, or -1 exactly if there is none |
| `TfList.List.Clear` | tflib/tf_list.c:280-289 | each region is freed once and the list owns none |
| `TfList.Dup` | tflib/tf_list.c:49-69 | an equal list that shares no memory with the first |
| `TfList.DumpList` | tflib/tf_list.c:292-311 | the buffer holds the serialized list and was never exceeded |
| `TfList.LoadList` | tflib/tf_list.c:314-346 | the list of a well-formed byte array, its slot array grown before each element that would not fit |
| `TfList.ElemCmp` | tflib/tf_list.c:353-364 | negative, zero or positive exactly as the first comes before, equals or comes after the second in lexical order |
| `TfList.Transitive` | tflib/tf_list.c:353-364 | lexical order is transitive |
| `TfList.Asymmetric` | tflib/tf_list.c:353-364 | lexical order is asymmetric |
| `TfSplit.JoinSplit` | tflib/tf_util.c:151-185 | joining what was split at a character gives the string back, for every string |
| `TfSplit.SplitJoin` | tflib/tf_util.c:151-185 | splitting the string a joined list reads as gives the list back exactly when it is not empty, no element holds the delimiter or a zero, and a zero delimiter joins a single element |
| `TfSplit.StrSplit` | tflib/tf_util.c:151-164 | for any two terminated buffers, the list of the pieces between delimiters, empty ones included, both read up to their first zero |
| `TfSplit.StrJoin` | tflib/tf_util.c:167-185 | the joined, terminated text, inside the buffer computed for it, which reads as a string up to the first zero in it |
| `TfHex.HexRoundTrip` | tflib/tf_util.c:436-471 | hexadecimal digits in either case, even mixed, give every byte string back |
| `TfHex.HexChars` | tflib/tf_util.c:459-471 | the sixteen digits, upper-case |
| `TfHex.HexExample` | tflib/tf_util.c:459-471 | two bytes, high half first |
| `TfHex.BinToAscInto` | tflib/tf_util.c:459-471 | two upper-case digits a byte are written and nothing beyond them |
| `TfHex.AscToBinInto` | tflib/tf_util.c:436-457 | the loop with its carried letter offset computes the decoding function |
| `TfHex.BcdRoundTrip` | tflib/tf_util.c:473-519 | packed decimal gives every byte string back, digits or not |
| `TfHex.BcdExample` | tflib/tf_util.c:473-519 | bytes unpacked and characters packed, an odd one included |
| `TfHex.BcdToAscInto` | tflib/tf_util.c:473-490 | two characters a byte, high half first |
| `TfHex.AscToBcdInto` | tflib/tf_util.c:492-519 | the loop computes the packing function, an odd last character filled with zero |
| `Base64.QuadBits` | tflib/expert/base64.c:28-31 | the shifts and masks are the 6-bit groups of section 4 of RFC 4648 |
| `Base64.Alphabet` | tflib/expert/base64.c:4 | all 64 letters are those of table 1 of RFC 4648, in order |
| `Base64.TestVectors` | tflib/expert/base64.c:25-40 | foo, foob, fooba and foobar encode as section 10 of RFC 4648 says |
| `Base64.OutputBase64` | tflib/expert/base64.c:25-40 | four letters for three bytes, and the text before them kept |
| `Base64.EncodeBase64` | tflib/expert/base64.c:42-94 | above three bytes exactly the encoding of section 4 of RFC 4648 is written, otherwise nothing; the count equals what was written exactly when the length is not a multiple of three |
| `Base64.DecodeEncoding` | tflib/expert/base64.c:96-149 | from the start of a quad, decoding an encoding appends the original bytes |
| `Base64.RoundTrip` | tflib/expert/base64.c:42-149 | decoding what was written and terminated gives the original |
| `Base64.InsertionMatters` | tflib/expert/base64.c:112-125 | inserting a line break or an illegal character changes the decoded bytes if and only if it comes between two padding characters of which the decoder reaches the first two letters into a quad, and behind the second a letter comes before the padding that ends the data |
| `Base64.MoreDecoded` | tflib/expert/base64.c:109-142 | two letters into a quad, more is decoded exactly if a letter comes before the padding that ends the data |
| `Base64.IgnoredAnywhere` | tflib/expert/base64.c:120-125 | anywhere except between two padding characters it leaves the whole result as it is |
| `Base64.WrappedEnding` | tflib/expert/base64.c:112-119 | a line break between the last two padding characters changes nothing |
| `Base64.BreakBetweenPadding` | tflib/expert/base64.c:112-119 | with letters behind them it can |
| `Base64.DecodeBase64` | tflib/expert/base64.c:96-149 | the state machine computes the decoding function and touches three bytes a quad and one for each further letter |
| `Malloc.PrefixPasses` | tflib/tf_malloc.c:41-43 | rounding commutes with adding the prefix, for every size, exactly when the prefix is a multiple of the unit |
| `Malloc.UpIsLeast` | tflib/tf_malloc.c:41-43 | rounding gives the least multiple of the unit not below the size |
| `Malloc.SmallBlockSize` | tflib/tf_malloc.c:102-109 | away from the end of the range, a block counts that multiple for its size and prefix |
| `Malloc.CountedIsBlockSize` | tflib/tf_malloc.c:82-108 | what an allocation counts is what tf_malloc_size reports, for every size and with wrap-around |
| `Malloc.UnprefixedDifference` | tflib/tf_malloc.c:134-136 | a reallocation that omits the prefix on both sides changes the count as tf_malloc_size changes |
| `Malloc.TotalWithout` | tflib/tf_malloc.c:102-109 | the total over live blocks splits at any one of them |
| `Malloc.Allocator.constructor` | tflib/tf_malloc.c:61-62 | nothing is live and nothing counted |
| `Malloc.Allocator.Alloc` | tflib/tf_malloc.c:73-99 | used_memory stays the sum of tf_malloc_size over the live blocks, modulo the range of size_t |
| `Malloc.Allocator.Realloc` | tflib/tf_malloc.c:112-139 | the same, for a block that moves, stays or is new |
| `Malloc.Allocator.Free` | tflib/tf_malloc.c:141-157 | the same, null included |
| `Malloc.Allocator.NothingLive` | tflib/tf_malloc.c:159-175 | the count is zero once everything is freed |
| `PeerPool.StepKeeps` | tfnac/main.c:90-259 | every handler keeps the connection counter equal to the active slots and each active slot tied to its own open, registered socket |
| `PeerPool.RunKeeps` | tfnac/main.c:90-259 | so does every run of handlers |
| `PeerPool.InitialIsValid` | tfnac/config.c:5-18 | the pool starts right exactly if it reloads or the shared memory holds the right ids and no active slot |
| `PeerPool.StepKeepsTimed` | tfnac/main.c:127-181 | with a timeout of at least one, every active session has a tick left between handlers |
| `PeerPool.TickCountsDown` | tfnac/main.c:127-142 | a tick closes exactly the sessions with one tick to live and takes one from the others |
| `PeerPool.QuietRun` | tfnac/main.c:127-259 | whatever other peers do, a silent peer keeps its socket and has lost exactly the ticks that passed |
| `PeerPool.SilentPeerClosed` | tfnac/main.c:127-259 | a silent peer is closed at exactly the tick that ends its session, whatever else happens |
| `PeerPool.TrafficRestarts` | tfnac/main.c:144-259 | a new connection, a request passed on and a response written set the session timer of their slot to the timeout, and touch no other slot |
| `PeerPool.FailureCloses` | tfnac/main.c:183-259 | a failed request or response closes the session and its socket, and touches no other slot |
| `PeerPool.SessionLasts` | tfnac/main.c:127-259 | from the last traffic on, over every run that brings no more of it, the peer is open until its timeout less one ticks have passed, and closed by the next |
| `PeerPool.LifeOfTimeout` | tfnac/main.c:127-142 | a timeout of n is n ticks long, except that zero is 65536 |
| `PeerPool.IdFindsSlot` | tfnac/main.c:99-111 | an id finds its slot exactly if the peer is active and the slot is not the first, which no id reaches |
| `PeerPool.ActiveIdIsExact` | tfnac/main.c:99-111 | for every 32-bit id, a slot found is the slot of that very id |
| `Peers.ProcessMgr.constructor` | tfnac/config.c:5-18 | the initial slots, and when they are valid |
| `Peers.ProcessMgr.GetIdlePeer` | tfnac/main.c:90-97 | the first slot not in use, or none |
| `Peers.ProcessMgr.AcceptTcpHandler` | tfnac/main.c:144-181 | a new session in the first idle slot with its socket, address and a full timeout, closed again if it cannot be watched; without an idle slot the socket stays open |
| `Peers.ProcessMgr.PeerRequestHandler` | tfnac/main.c:183-228 | traffic sets the session of the slot behind the socket to the full timeout, any failure closes it and its socket |
| `Peers.ProcessMgr.MessageResponseHandler` | tfnac/main.c:230-259 | a response written sets the session its id names to the full timeout, one that fails closes it, and one for nobody changes nothing |
| `Peers.ProcessMgr.LifeCycleHandler` | tfnac/main.c:127-142 | one tick over all slots in order |

## Left out

- Sockets, files, queues, shared memory, threads, signals, daemonizing, logging, configuration parsing, string objects,
  dates, floating point and `tflib/tf_smqueue.h`: system-call wrappers, formatting or code without a clear intent.
- The contents of the DES tables SP1 to SP8, that is the S-boxes and the permutation P they combine: every theorem holds for
  any tables of 64 words, which are a parameter.
- `cp2key` and `use2key` of DES, which only a build without the triple-length mode compiles.
- `tf_num2strbin` and the string variants of the list operations (`tf_list_push2` and the like), which measure their
  argument and then do what the modelled ones do.
- `tf_list_sort` and `tf_list_bsearch`: they are libc's algorithms; the order they use is `TfList.ElemCmp`.
- Memory that cannot be allocated, and the release of memory itself: a freed region is one no list owns.
- `aeProcessEvents` as one method: its poll timeout, its file half and its timer half are modelled, on two classes, since
  neither half reads the other's state; handlers do not run the loop again, and finalizers of timers do nothing to it.
- AeTimers.EventLoop.ProcessTimeEvents: requires that the pass ends, and that no callback deletes its own timer and then
  asks to run again: there the code writes to a freed node (`tflib/ae/ae.c:280-281`). What a pass leaves is stated for a
  clock that does not go back while the pass runs.
- AeTimers.EventLoop.CreateTimeEvent: ids and times are unbounded integers, so 64-bit wrap-around is not modelled.
- AeFiles.EventLoop.CreateFileEvent: negative descriptors, which `tflib/ae/ae.c:80` does not reject, are excluded by the type
  of `fd`; masks have the two documented bits only, and for the select backend descriptors are not limited to FD_SETSIZE.
- AeFiles.EventLoop.DeleteFileEvent: negative descriptors likewise, and the event port's abort on a refused association,
  which is stated by the backend (`AeEvport.EvportState.DelEvent`, `AeEvport.EvportState.Poll`) only.
- AeFiles.EventLoop.ProcessFileEvents: handlers register no empty mask, which can break `maxfd`, and the kernel refuses no
  registration a handler asks for; what either does to the loop is stated for a single call.
- AeKqueue.KqueueState.DelEvent: a failing removal of a filter, whose result the code ignores, is not modelled.
- TfList.List.Push: sizes and slot counts are unbounded, so an int that overflows as a list grows is not modelled.
- TfList.DumpList: requires the sizes to add up below the largest int, as the variable that holds them demands.
- Base64.DecodeBase64: the decoding table is given by its ranges rather than as 256 entries; the flag for a suspect
  decode, which nothing reads, is omitted.
- TfHex.AscToBinInto: requires ASCII characters, as the classification functions of libc do.
- Malloc.Allocator.Alloc: the build with an allocator that reports block sizes is not part of this model, nor is the lock
  around the counter.
- Peers.ProcessMgr.PeerRequestHandler: the bytes read and written are one outcome, traffic delivered or not; quitting,
  the response thread and the console are not part of this model.
