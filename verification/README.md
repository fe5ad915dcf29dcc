# Verified core of the emulator

Dafny models of seven state machines and algorithms of a PlayStation 5 emulator, and of two algorithmic
kernels of the stb headers that it carries. Each model keeps the branches, constants and error conditions
of its source file; what it promises is stated against a definition that does not mention the code.

- **DEFLATE decoding** (`Canonical`, `BitReversal`, `ZHuffman`, `ZBuf`, `Deflate`, `Supply`, `BlockLoop`,
  `ShortInput`, `EndlessInput`). `Deflate` says what a stream means, in the terms of RFC 1951: which bits encode which items,
  which bytes a block stands for, and that a stream has one reading. `ZHuffman` and `ZBuf` are the decoder of
  stb_image: tables filled in place, an LSB-first bit buffer, a growing output buffer. `Supply` counts the
  bytes that the bit buffer has taken in, and so says which symbols are refused for want of bits. The decoder
  succeeds exactly on the streams that have their bits and fit the buffer, and then has written what the
  stream means; each cause of a refusal is a fact about the stream. `BlockLoop` says exactly when the loop
  over the symbols of a block does not end.
- **Adam7** (`Adam7`). The seven scatter passes write every pixel once, from its pass.
- **Event flag** (`EventFlag`, `EventFlagProtocol`). One method for each stretch of code that runs under
  the lock, and the runs of any number of threads over those stretches.
- **Slot vector** (`SlotVector`, `SlotVectorProtocol`). The owner's operations on chunks of slots, and the
  same operations as single atomic loads and stores that readers interleave with.
- **Calendar** (`DateTime`). Day numbers and dates are in bijection, in both directions of time.
- **Bit array** (`BitArray`) and **page protection table** (`PageProtectionTable`). Word masks and region
  counters agree with a plain set of bits and a plain map from pages to protections.
- **Directory records** (`Dirents`, `Errno`). A printer, a parser, and a reader that hands out whole blocks.
- **Event queue** (`EventQueue`, `EventQueueProtocol`). Triggering, pending triggers, one-shot timers,
  waiting and closing, and all runs of such calls.
- **LRU cache** (`LruCache`). A doubly linked list over items that never move, with recycled ids.
- **Edge sort** (`SortEdges`). A quicksort that stops early, finished by an insertion sort.

`Words` defines machine words as natural numbers, with one lemma per C operator that says what it does to
one bit. `dafny verify dfyconfig.toml` checks the whole project.

## Findings

Where the code does not do what one might expect, the model keeps the code and a lemma says exactly when.

- `stbi__zhuffman_decode` refuses a codeword that is there when fewer than 16 bits are buffered and the
  input is used up, so a complete raw stream can be refused: `CompleteButRefused` shows one of four bytes.
  `ParseZlib` says exactly which streams are accepted, and 15 bits of input behind the stream are enough
  (`CompleteStreamDecodes`).
- The decoding loop of a block need not end. Past the input all bits are zero; the loop goes on for ever
  exactly when they are a copy of no bytes and every turn finds the bits it asks for after the refill of the
  turn before (`EndlessIffStuck`). `InputNeverEnds` is an input of thirty bytes on which no bound on the turns
  is enough. Which codes allow it is a condition on the two lengths and the extra bits of that copy
  (`StuckSomewhereIff`).
- A thread that starts to wait while Cancel drains is not signalled; Cancel can then wait for it for ever
  (`DrainEndsIffNobodyStranded`, `StrandingHappens`).
- A dead handle is accepted again after 2^32 - 1 erases of its slot: `StaleHandleAccepted` is a run that gets
  there, and `ReaderIsWrongIff` says when the three loads of a reader give a wrong answer.
- A date can be stored and not be read back: years beyond about 1.47 million overflow on the way back, four
  times as near as on the way in (`ReadableRange`, `StoredButNotReadable`).
- The wait for a timer is cut to a microsecond when rounding up wraps around 64 bits, which takes a clock
  below 998 ns (`WaitReachesDeadlineIff`); `WaitCutShort` is a clock and a deadline for which it is.
- An LRU list loses its order when ticks go back: on an insert below the newest tick, or a touch that is not
  ignored and not above every other tick (`StepKeepsOrderIff`, `BackwardClockUnsorts`).
- The quicksort leaves an element out of both parts whenever its scans cross, which without ties is always
  (`LeftOut`); the insertion sort after it puts that element in its place.

## Model

| member | source | states |
|---|---|---|
| `Canonical.EndCodeIsKraftSum` | 3rdparty/stb/stb_image.h:4079-4095 | the running code of the table builder is the partial Kraft sum of the lengths seen so far |
| `Canonical.KraftFits` | 3rdparty/stb/stb_image.h:4089-4090 | lengths that satisfy Kraft's inequality leave room for every code of every length |
| `Canonical.PrefixFree` | 3rdparty/stb/stb_image.h:4067-4115 | at most one codeword is a prefix of a bit stream |
| `Canonical.CompleteIff` | 3rdparty/stb/stb_image.h:4079-4095 | a code leaves no bit pattern without a codeword exactly when its Kraft sum is one |
| `Canonical.MatchesIffInterval` | 3rdparty/stb/stb_image.h:4171-4179 | a codeword is a prefix of the stream exactly when the reversed next 16 bits fall in its interval |
| `Canonical.SomeMatch` | 3rdparty/stb/stb_image.h:4172-4182 | every window between two aligned limits belongs to a symbol of that length, at the position the slow path computes |
| `Canonical.MatchesIffReversed` | 3rdparty/stb/stb_image.h:4101-4106 | matching depends on the low bits of the stream only: they equal the reversed code |
| `Canonical.PositionInjective` | 3rdparty/stb/stb_image.h:4096-4100 | two used symbols never share a position in `size` and `value`, and positions stay inside the arrays |
| `BitReversal.BitReverse16Reverses` | 3rdparty/stb/stb_image.h:4050-4057 | the four mask-and-shift rounds reverse 16 bits, for every word |
| `BitReversal.BitReverseNReverses` | 3rdparty/stb/stb_image.h:4059-4065 | shifting the 16-bit reversal down reverses the low `bits` bits |
| `ZHuffman.Table.Build` | 3rdparty/stb/stb_image.h:4067-4115 | succeeds exactly when the lengths satisfy Kraft's inequality, and then all six tables represent the canonical code |
| `ZHuffman.Table.CountSizes` | 3rdparty/stb/stb_image.h:4072-4077 | the size counts are those of RFC 1951 section 3.2.2, with length 0 ignored |
| `ZHuffman.Table.AssignIntervals` | 3rdparty/stb/stb_image.h:4078-4095 | the interval tables describe the code intervals of every length; fails exactly on over-subscribed lengths |
| `ZHuffman.Table.StoreSymbols` | 3rdparty/stb/stb_image.h:4096-4114 | `size`, `value` and `fast` hold every symbol at its place |
| `ZHuffman.Table.StoreFast` | 3rdparty/stb/stb_image.h:4101-4107 | every 9-bit index whose low bits are the reversed code gets the entry, and no other index changes |
| `ZHuffman.FastEntryHit` | 3rdparty/stb/stb_image.h:4101-4107 | by prefix-freeness no later symbol overwrites a fast entry |
| `ZHuffman.FastEntryMiss` | 3rdparty/stb/stb_image.h:4070-4071 | an index no short codeword starts keeps the entry 0 |
| `ZBuf.BitOfBytes` | 3rdparty/stb/stb_image.h:4139-4154 | bit k of the stream is bit k%8 of byte k/8, and zero past the end (RFC 1951 section 3.1.1) |
| `ZBuf.Decoder.constructor` | 3rdparty/stb/stb_image.h:4432-4440 | a new decoder is at bit 0 with no output and separate tables |
| `ZBuf.Decoder.Zget8` | 3rdparty/stb/stb_image.h:4139-4142 | the next byte, or 0 for ever past the end |
| `ZBuf.Decoder.FillBits` | 3rdparty/stb/stb_image.h:4144-4154 | a refill leaves the stream ahead unchanged, keeps the buffer below 2^num_bits, and buffers at least 25 bits; an overfull buffer ends the input |
| `ZBuf.Decoder.Zreceive` | 3rdparty/stb/stb_image.h:4156-4164 | returns the next n bits of the stream and advances it by exactly n; how many bytes the bit buffer has then taken in |
| `ZBuf.Decoder.HuffmanDecode` | 3rdparty/stb/stb_image.h:4185-4202 | returns the unique symbol whose codeword starts the stream and consumes exactly its length; fails exactly when there is none, or when fewer than 16 bits are buffered and every input byte has been taken in |
| `ZBuf.Decoder.HuffmanDecodeSlow` | 3rdparty/stb/stb_image.h:4166-4183 | the same for codes over 9 bits; with 16 buffered bits it fails only when no codeword matches, so its two corruption tests never fire |
| `ZBuf.Decoder.CanGrowIff` | 3rdparty/stb/stb_image.h:4204-4224 | growing works exactly when some doubling of the size is large enough, below 2^32 and on the heap |
| `ZBuf.Decoder.Zexpand` | 3rdparty/stb/stb_image.h:4204-4224 | succeeds exactly when the doubled size fits `unsigned` and the heap; never alters bytes already written and makes room for all n |
| `ZBuf.Decoder.GrownStep` | 3rdparty/stb/stb_image.h:4204-4224 | doubling on the way to a size changes neither whether that size can be reached nor the size of the buffer that holds it |
| `ZBuf.Decoder.CopyBytes` | 3rdparty/stb/stb_image.h:4272-4277 | a copy appends the bytes of RFC 1951 section 3.2.3, overlap and the distance-1 shortcut included; with distance 0 it leaves the memory it passes over as it was |
| `ZBuf.Decoder.ReadItem` | 3rdparty/stb/stb_image.h:4244-4265 | one literal, length/distance pair or end of block, read exactly as encoded; refused only where the stream has no item or one of its symbols lacks its bits |
| `ZBuf.Decoder.Round` | 3rdparty/stb/stb_image.h:4243-4279 | one turn appends exactly the item at this place of the stream, growing the buffer by the doublings it takes, or is refused for a cause that holds of the stream at this place |
| `ZBuf.Decoder.ParseHuffmanBlock` | 3rdparty/stb/stb_image.h:4240-4280 | succeeds exactly when a block body of fewer than `rounds` items is there, with the bits, the room and the output behind it that it takes, and then appends exactly its bytes; uses up all turns exactly when `rounds` items can be decoded and more is to come; else it names a cause that holds at the place where it stops |
| `ZBuf.Decoder.OneOutcome` | 3rdparty/stb/stb_image.h:4240-4280 | the three endings of the loop exclude each other, so each occurs exactly when the stream says so |
| `ZBuf.Decoder.RefusedBody` | 3rdparty/stb/stb_image.h:4240-4280 | each cause of a refusal rules out every block body at that place, each in its own way |
| `ZBuf.TurnAdvances` | 3rdparty/stb/stb_image.h:4243-4279 | each turn consumes a bit, and past the end of the input also appends a byte, unless the zero codeword is a reserved symbol: a bound on the turns, sufficient for an end |
| `ZBuf.Decoder.StoredHeaderBytes` | 3rdparty/stb/stb_image.h:4336-4348 | skips to a byte boundary and takes the four header bytes from the buffer first; no payload byte stays in the buffer |
| `ZBuf.Decoder.ReadStoredLength` | 3rdparty/stb/stb_image.h:4349-4352 | accepts exactly a length with its complement and enough input |
| `ZBuf.Decoder.ParseUncompressedBlock` | 3rdparty/stb/stb_image.h:4332-4359 | appends exactly the payload of RFC 1951 section 3.2.4; refused exactly for a bad header, short input or no room |
| `ZBuf.Decoder.ReadCodeLengthSizes` | 3rdparty/stb/stb_image.h:4295-4299 | the code length code is read in the transmitted order, the rest is zero |
| `ZBuf.Decoder.ReadRun` | 3rdparty/stb/stb_image.h:4303-4321 | one run of code lengths, with its extra bits; refused only where no symbol starts, where it lacks its bits, or for a repeat of nothing |
| `ZBuf.Decoder.ReadLengths` | 3rdparty/stb/stb_image.h:4302-4326 | reads runs up to exactly `ntot` code lengths; refused only when no run of the stream fits or the next one lacks its bits |
| `ZBuf.Decoder.ComputeHuffmanCodes` | 3rdparty/stb/stb_image.h:4282-4330 | succeeds exactly when valid code lengths start here and have their bits, and then both tables represent them |
| `ZBuf.Decoder.ParseStored` | 3rdparty/stb/stb_image.h:4414-4415 | a stored block: decoded exactly when its lengths agree, the input holds it and the output has room |
| `ZBuf.Decoder.ParseBlock` | 3rdparty/stb/stb_image.h:4412-4427 | succeeds exactly when a block is there with the input, room and turns it takes; else it is refused for a cause that holds, or still going on after `rounds` items |
| `ZBuf.Decoder.BlockRefusalMeans` | 3rdparty/stb/stb_image.h:4412-4427 | for all blocks that could be meant: lack of input means none there has its bits, lack of room that none there fits, and the other causes that none there can be read |
| `ZBuf.Decoder.LongIsNotRefused` | 3rdparty/stb/stb_image.h:4412-4427 | a block that is still going on after all its turns is not refused within them |
| `ZBuf.Decoder.ParseZlibHeader` | 3rdparty/stb/stb_image.h:4361-4373 | accepts exactly method 8, a good check sum, no dictionary, and at least one byte to follow |
| `ZBuf.Decoder.ParseBlocks` | 3rdparty/stb/stb_image.h:4411-4429 | succeeds exactly when a complete stream starts here with the input, room and turns it takes, and the output is then what it stands for; runs out of turns exactly when readable blocks lead to one that takes too many; otherwise they lead to one that is refused |
| `ZBuf.Decoder.ParseZlib` | 3rdparty/stb/stb_image.h:4404-4430 | the same behind an optional zlib header, from the first bit after it |
| `ZBuf.Decoder.OneStreamOutcome` | 3rdparty/stb/stb_image.h:4404-4430 | whatever stops the decoder keeps every stream from the same start from decoding, and each answer is given exactly when the input says so |
| `ZBuf.Decoder.OneAnswer` | 3rdparty/stb/stb_image.h:4404-4430 | from one start, with one bound on the turns, the input allows one of the three answers only |
| `ZBuf.Decoder.CompleteStreamDecodes` | 3rdparty/stb/stb_image.h:4404-4430 | every complete stream with 15 bits of input behind it decodes, given room and turns: so does every zlib stream, which has its check sum there |
| `ZBuf.Decoder.RefusalIsRight` | 3rdparty/stb/stb_image.h:4404-4430 | a refusal for a bad code or a far distance is right: no complete stream starts there |
| `ZBuf.Decoder.InputRefusalIsRight` | 3rdparty/stb/stb_image.h:4404-4430 | a refusal for lack of input means that a stream there, if any, ends less than 15 bits before the input does, or after it |
| `ZBuf.Decoder.RoomRefusalIsRight` | 3rdparty/stb/stb_image.h:4404-4430 | a refusal for lack of room means that the output of a stream there, if any, does not fit the heap or `unsigned` |
| `Supply.StarvedBody` | 3rdparty/stb/stb_image.h:4185-4192 | a body whose next symbol lacks its bits is not the beginning of any body that has them |
| `Supply.StarvedHeader` | 3rdparty/stb/stb_image.h:4302-4304 | nor are code lengths whose next run lacks its bits the beginning of any that have them |
| `Supply.BodyContinues` | 3rdparty/stb/stb_image.h:4240-4280 | items that can be read are the beginning of every block body that can be read from the same place |
| `Supply.PaddedStream` | 3rdparty/stb/stb_image.h:4185-4192 | 15 bits of input behind the last block, whatever they are, keep every symbol of a stream from being refused for want of bits |
| `ShortInput.CompleteButRefused` | 3rdparty/stb/stb_image.h:4188-4190 | four bytes that are a complete raw stream, and that no decoder accepts, whatever its buffer and its turns |
| `BlockLoop.EndlessIffStuck` | 3rdparty/stb/stb_image.h:4240-4280 | the loop over the symbols of a block never ends exactly when decoding gets to where it is stuck: past the input, zero bits are an empty copy from inside the output, and the buffered bits circle |
| `BlockLoop.NeverEndsIsTheAnswer` | 3rdparty/stb/stb_image.h:4404-4430 | when readable blocks lead to one that goes on for ever, running out of turns is the only answer the decoder has |
| `BlockLoop.OneTurn` | 3rdparty/stb/stb_image.h:4185-4190 | what one turn with an empty copy does to the number of buffered bits, refill included, and when it is refused |
| `BlockLoop.CirclesInEight` | 3rdparty/stb/stb_image.h:4144-4164 | whether the buffered bits circle is settled by the first eight turns |
| `BlockLoop.StuckSomewhereIff` | 3rdparty/stb/stb_image.h:4240-4280 | the condition on the codes alone: some state of the buffers, whether or not an input leads to it, makes the loop endless exactly when the codes read zero bits as such a copy; with other codes it ends on every input |
| `BlockLoop.AdvancingCannotHang` | 3rdparty/stb/stb_image.h:4226-4232 | codes that read zero bits as anything but the symbols 286 and 287 always come to an end |
| `BlockLoop.FixedCannotHang` | 3rdparty/stb/stb_image.h:4375-4390 | so do the default codes |
| `EndlessInput.InputNeverEnds` | 3rdparty/stb/stb_image.h:4404-4430 | thirty bytes of input on which the answer is, from the first bit on and for every bound on the turns, that the turns ran out: a stored block, and a dynamic block of which each turn leaves 23 bits and appends nothing |
| `EndlessInput.HeaderHere` | 3rdparty/stb/stb_image.h:4282-4330 | the header of that dynamic block is valid and stands for codes with the length symbol 286 and the distance symbol 6 only |
| `EndlessInput.SecondBlock` | 3rdparty/stb/stb_image.h:4240-4280 | with the nine bytes of the stored block behind it, its body goes on after any number of items |
| `Deflate.RepeatEquation` | 3rdparty/stb/stb_image.h:4271-4277 | a copy is determined by: each new byte equals the one `dist` before it |
| `Deflate.LengthTable` | 3rdparty/stb/stb_image.h:4226-4232 | the length table is that of RFC 1951 section 3.2.5 in closed form: four symbols for each number of extra bits, and one for 258; the reserved ones stand for nothing |
| `Deflate.DistanceTable` | 3rdparty/stb/stb_image.h:4234-4238 | likewise the distance table, two symbols for each number of extra bits |
| `Deflate.OrderInverse` | 3rdparty/stb/stb_image.h:4284 | the transmitted order of the code length code in closed form: 16, 17, 18, 0, then outwards from 8 |
| `Deflate.OneDistanceSymbol` | 3rdparty/stb/stb_image.h:4234-4238 | every distance from 1 to 32768 has exactly one symbol with suitable extra bits, and no other distance has any |
| `Deflate.LengthsCovered` | 3rdparty/stb/stb_image.h:4226-4232 | the lengths that have a symbol are exactly those from 3 to 258 |
| `Deflate.FixedZerosEnd` | 3rdparty/stb/stb_image.h:4375-4390 | with the default codes zero bits are the end of the block |
| `ZBuf.Decoder.ParseFixed` | 3rdparty/stb/stb_image.h:4419-4427 | a block with the default codes: decoded, refused for a cause that holds of the stream, or longer than `rounds` items, which a bound given here excludes |
| `ZBuf.Decoder.ParseDynamic` | 3rdparty/stb/stb_image.h:4423-4426 | a block with its own codes: decoded, refused for a cause that holds of its header or body, or longer than `rounds` items |
| `Deflate.ItemUnique` | 3rdparty/stb/stb_image.h:4240-4280 | the stream encodes one item at a place |
| `Deflate.BodyUnique` | 3rdparty/stb/stb_image.h:4240-4280 | two readings of a block body from one place are the same reading |
| `Deflate.OutputUnique` | 3rdparty/stb/stb_image.h:4240-4280 | without reserved distances the items determine the output |
| `Deflate.HeaderUnique` | 3rdparty/stb/stb_image.h:4282-4330 | the stream determines the dynamic code lengths |
| `Deflate.StreamUnique` | 3rdparty/stb/stb_image.h:4404-4430 | a complete stream has one reading, and without reserved distances one output |
| `Deflate.FixedCodesValid` | 3rdparty/stb/stb_image.h:4375-4390 | the default lengths are two prefix codes, so building their tables cannot fail |
| `Deflate.FixedCodesComplete` | 3rdparty/stb/stb_image.h:4375-4390 | every bit pattern starts with a codeword of each default code |
| `Adam7.PassOfIsPattern` | 3rdparty/stb/stb_image.h:4819-4822 | the pass of a pixel is that of the 8 by 8 pattern of RFC 2083 section 2.6 |
| `Adam7.PixelInPass` | 3rdparty/stb/stb_image.h:4825-4836 | every pixel is an element of the image of its pass |
| `Adam7.PassInImage` | 3rdparty/stb/stb_image.h:4825-4836 | every element of a pass image is a different pixel inside the image |
| `Adam7.Deinterlace` | 3rdparty/stb/stb_image.h:4812-4849 | fails exactly when a pass that has pixels cannot be decoded; otherwise pixel (x, y), at y * w + x of the result, is the element of its pass at its row and column there, row after row and left to right |
| `Adam7.ScatterPass` | 3rdparty/stb/stb_image.h:4833-4840 | a pass writes its own pixels and spoils none written before |
| `EventFlag.KernelEventFlagPrivate.Wait` | src/kernel/eventFlag.cpp:101-178 | one stretch of Wait under the lock, bit by bit: an And wait returns Ok exactly when every bit asked for is on, an Or wait when one of them is; it turns off none, all or the asked bits and reports the pattern before that; otherwise it times out or blocks and leaves the pattern alone |
| `EventFlag.KernelEventFlagPrivate.Poll` | src/kernel/eventFlag.cpp:36-39 | a wait of zero time, which never blocks |
| `EventFlag.KernelEventFlagPrivate.Woken` | src/kernel/eventFlag.cpp:145-164 | the stretch after the condition variable returns: answered by the mark with the pattern and the time left, or the loop again |
| `EventFlag.KernelEventFlagPrivate.SetBits` | src/kernel/eventFlag.cpp:180-194 | turns on exactly the given bits, only while the flag is not marked |
| `EventFlag.KernelEventFlagPrivate.Clear` | src/kernel/eventFlag.cpp:196-208 | keeps on exactly the given ones of the bits that are on, only while the flag is not marked |
| `EventFlag.KernelEventFlagPrivate.Cancel` | src/kernel/eventFlag.cpp:210-237 | marks the flag, reports the waiting threads, replaces the bits |
| `EventFlag.KernelEventFlagPrivate.CancelDrain` | src/kernel/eventFlag.cpp:230-236 | restores the flag only when nobody waits |
| `EventFlag.KernelEventFlagPrivate.Delete` | src/kernel/eventFlag.cpp:81-99 | marks the flag deleted; gone only when nobody waits |
| `EventFlag.SatisfiedIffMet` | src/kernel/eventFlag.cpp:127-128 | the test of the wait loop, by the bits: all of those asked for, or one |
| `EventFlag.LoopStepMeans` | src/kernel/eventFlag.cpp:127-178 | what one pass through the wait loop does to each bit, to the count of waiting threads and to what is reported |
| `EventFlagProtocol.Perform` | src/kernel/eventFlag.cpp:81-237 | the methods of the flag do what the steps of the protocol say, step by step: the new flag, the answer, and who is blocked or signalled afterwards |
| `EventFlagProtocol.PerformAll` | src/kernel/eventFlag.cpp:81-237 | and run by run, on a new flag, with every answer |
| `EventFlagProtocol.StepInv` | src/kernel/eventFlag.cpp:81-237 | every step keeps: the counter is the number of blocked threads, a mark means a drain is under way, one waiter at most in single-thread mode, no wake-up is lost |
| `EventFlagProtocol.RunInv` | src/kernel/eventFlag.cpp:81-237 | so does every run of any threads |
| `EventFlagProtocol.BlockedThreadIsAnswered` | src/kernel/eventFlag.cpp:149-161 | in every interleaving a thread blocked when Cancel (delete) marks the flag returns Canceled (Deleted), never Ok or TimedOut |
| `EventFlagProtocol.AnsweredOnlyWhenMarked` | src/kernel/eventFlag.cpp:149-161 | and such an answer is given only while the flag is so marked |
| `EventFlagProtocol.DrainedWhenEmpty` | src/kernel/eventFlag.cpp:230-236 | Cancel restores the flag, and delete ends, only when no thread is blocked |
| `EventFlagProtocol.SingleWaiter` | src/kernel/eventFlag.cpp:123-125 | in single-thread mode at most one thread is ever blocked |
| `EventFlagProtocol.SatisfiedIsSignalled` | src/kernel/eventFlag.cpp:191-193 | whoever could return has been signalled |
| `EventFlagProtocol.TakenAtMostGiven` | src/kernel/eventFlag.cpp:171-175 | in any run the And-waits that clear a bit are at most its initial value plus the calls that give it |
| `EventFlagProtocol.DrainEndsIffNobodyStranded` | src/kernel/eventFlag.cpp:228-236 | a drain can end without a spurious wake-up exactly when nobody waits forever unsignalled |
| `EventFlagProtocol.StrandingHappens` | src/kernel/eventFlag.cpp:228-236 | a thread that enters Wait while Cancel drains does get into that state: Cancel need not finish |
| `SlotVector.SlotVector.IsAllocated` | src/common/slotVector.h:61-65 | true exactly for the handles of the contents |
| `SlotVector.SlotVector.TryGet` | src/common/slotVector.h:57-59 | the object of a handle in use, or nothing |
| `SlotVector.SlotVector.Insert` | src/common/slotVector.h:68-86 | adds exactly one handle that was not in use, reusing the slot freed last |
| `SlotVector.SlotVector.Erase` | src/common/slotVector.h:88-97 | removes exactly that handle and moves its slot to the next generation, past zero |
| `SlotVector.SlotVector.ForEach` | src/common/slotVector.h:102-108 | visits ascending indices |
| `SlotVector.SlotVector.Size` | src/common/slotVector.h:99 | the number of reachable objects |
| `SlotVector.VisitsAreContents` | src/common/slotVector.h:102-108 | all visits together are exactly the contents |
| `SlotVector.EraseById` | src/common/slotVector.h:88-97 | erasing removes one handle from the contents and one index joins the free list |
| `SlotVectorProtocol.NextGeneration` | src/common/slotVector.h:92-93 | 32-bit increment with zero skipped counts through 2^32 - 1 generations |
| `SlotVectorProtocol.SameGeneration` | src/common/slotVector.h:92-93 | two erase counts show one generation exactly when a multiple of 2^32 - 1 apart |
| `SlotVectorProtocol.StepInv` | src/common/slotVector.h:61-97 | every single load or store of the owner keeps the slots, the free list and the handles consistent |
| `SlotVectorProtocol.RunInv` | src/common/slotVector.h:61-97 | so does every run |
| `SlotVectorProtocol.ReaderFindsChunk` | src/common/slotVector.h:61-64 | a reader never follows a chunk pointer that is not published |
| `SlotVectorProtocol.ReaderIsLinearizable` | src/common/slotVector.h:61-65 | under any interleaving true means live at the `alive` load, false means erased by the end, below 2^32 - 1 erases |
| `SlotVectorProtocol.ReaderIsWrongIff` | src/common/slotVector.h:61-65 | without that bound false is still right, and true is wrong exactly when the slot was alive under a later handle and the erases seen by the last load are a multiple of 2^32 - 1 |
| `SlotVectorProtocol.StaleHandleAccepted` | src/common/slotVector.h:64-65 | a run of the owner, 2^32 - 1 erases long, at whose end a dead handle is accepted |
| `SlotVectorProtocol.ReuseRun` | src/common/slotVector.h:68-97 | for every n a run in which one slot is erased and inserted again n times |
| `SlotVectorProtocol.FreeListIsExact` | src/common/slotVector.h:68-97 | between operations the free list holds each dead index below the capacity once, and no other |
| `SlotVectorProtocol.InsertComposes` | src/common/slotVector.h:68-86 | the single steps of an insert together add exactly one live handle, on the slot freed last or the next new one |
| `SlotVectorProtocol.EraseComposes` | src/common/slotVector.h:88-97 | the single steps of an erase together end exactly that handle and free its slot |
| `SlotVectorProtocol.ContentsMirror` | src/common/slotVector.h:61-65 | undisturbed, the test of a reader is that of the owner: the handle is among the contents |
| `SlotVectorProtocol.InsertMirrors` | src/common/slotVector.h:68-86 | the steps of an insert together do to slots and free list what the owner's operation does |
| `SlotVectorProtocol.EraseMirrors` | src/common/slotVector.h:88-97 | and so do the steps of an erase |
| `SlotVectorProtocol.InsertIsFresh` | src/common/slotVector.h:79-85 | a handle given out is live and was never given out before |
| `DateTime.FloorDivEuclid` | src/common/dateTime.cpp:11-22 | the quotient is rounded down, for negative dividends too |
| `DateTime.FloorDivNegative` | src/common/dateTime.cpp:11-22 | and for negative divisors |
| `DateTime.LeapYearMeaning` | src/common/dateTime.cpp:160-166 | the leap rule holds through the missing year zero |
| `DateTime.JdRoundTrip` | src/common/dateTime.cpp:24-65 | every day number, positive or negative, is that of a valid date and comes back |
| `DateTime.YmdRoundTrip` | src/common/dateTime.cpp:24-65 | over unbounded integers every valid date comes back from its day number |
| `DateTime.OrderPreserved` | src/common/dateTime.cpp:24-38 | day numbers order valid dates as the calendar does |
| `DateTime.NextDayCounts` | src/common/dateTime.cpp:24-38 | the next day of the calendar has the next number: across months, leap days and the missing year zero |
| `DateTime.JdRange` | src/common/dateTime.cpp:40-65 | no intermediate of the conversion leaves 32 bits exactly for -536866432 <= jd <= 536838867 |
| `DateTime.YmdRange` | src/common/dateTime.cpp:24-38 | no intermediate of the conversion of a valid date leaves 32 bits exactly from 14 May -5884291 to 15 December 5874689; none of these dates gets the number of the invalid mark |
| `DateTime.ReadableRange` | src/common/dateTime.cpp:40-65 | a valid date comes back without leaving 32 bits exactly from 13 July -1474604 to 18 October 1465102 |
| `DateTime.StoredButNotReadable` | src/common/dateTime.cpp:40-65 | 1 January 3000000 is stored under its day number, which cannot be converted back |
| `DateTime.WeekRunsOn` | src/common/dateTime.cpp:209-219 | the days of the week follow one another through day number zero |
| `DateTime.DayOfYearCounts` | src/common/dateTime.cpp:221-230 | the day of the year is the days of the months before plus the day |
| `DateTime.FirstOfMonth` | src/common/dateTime.cpp:24-38 | months add up: the first of a month is the first of January plus the lengths of the months between |
| `DateTime.Anchor` | src/common/dateTime.cpp:24-38 | the count is anchored: 1 January 2000 is day 2451545, a Saturday |
| `DateTime.Date.Set` | src/common/dateTime.cpp:136-142 | an impossible date makes the object invalid, any other is stored as its day number; which dates are stored, and which can be read back, without leaving 32 bits |
| `DateTime.Date.Get` | src/common/dateTime.cpp:144-158 | the valid date of the stored number, within the limits of the conversion, or zeros |
| `BitArray.BitArray.FromRange` | src/common/bitArray.h:58-81 | the copy holds exactly the set bits of a valid range |
| `BitArray.BitArray.Get` | src/common/bitArray.h:83-85 | tests one bit |
| `BitArray.BitArray.Set` | src/common/bitArray.h:87-89 | adds one bit and changes no other |
| `BitArray.BitArray.Unset` | src/common/bitArray.h:91-93 | removes one bit and changes no other |
| `BitArray.BitArray.SetRange` | src/common/bitArray.h:95-118 | union with a valid half-open range, across words; other bits unchanged |
| `BitArray.BitArray.UnsetRange` | src/common/bitArray.h:120-143 | difference with a valid half-open range; other bits unchanged |
| `BitArray.BitArray.AnyInRange` | src/common/bitArray.h:165-177 | true exactly when some bit of a valid range is set |
| `BitArray.BitArray.AllInRange` | src/common/bitArray.h:179-195 | true exactly when a nonempty valid range is all set |
| `BitArray.BitArray.FirstRangeFrom` | src/common/bitArray.h:197-227 | the first set bit at or after `start` with the end of its run, or (N, N) |
| `BitArray.BitArray.LastRangeFrom` | src/common/bitArray.h:231-265 | the last set bit below `end` with the start of its run, or (0, 0) |
| `BitArray.BitArray.Ranges` | src/common/bitArray.h:32-50 | walking the iterator ends and yields exactly the maximal runs, ascending, with clear bits between |
| `BitArray.MaskedIsInRange` | src/common/bitArray.h:63-80 | what the two masks leave of the words between is exactly the range |
| `BitArray.RangeWord` | src/common/bitArray.h:165-177 | a word masked to part of a range is nonzero exactly when that part has a set bit |
| `BitArray.AllRangeWord` | src/common/bitArray.h:179-195 | a mask is covered by its word exactly when all bits it stands for are set |
| `BitArray.NextRun` | src/common/bitArray.h:35-38 | one step of the iterator adds exactly the next maximal run |
| `PageProtectionTable.PageProtectionTable.Get` | src/common/pageProtectionTable.h:20-25 | the protection of a page, or -1 |
| `PageProtectionTable.PageProtectionTable.Set` | src/common/pageProtectionTable.h:27-40 | exactly the pages of the inclusive range get the protection, up to the largest address without wrap-around |
| `PageProtectionTable.PageProtectionTable.Erase` | src/common/pageProtectionTable.h:42-64 | exactly the pages of the range are forgotten; emptied regions go |
| `PageProtectionTable.PageProtectionTable.EraseInRegion` | src/common/pageProtectionTable.h:47-62 | one region: whole, emptied or partly kept |
| `PageProtectionTable.PageProtectionTable.RegionCount` | src/common/pageProtectionTable.h:66 | the number of distinct regions that hold a known page |
| `PageProtectionTable.FillCounts` | src/common/pageProtectionTable.h:35-36 | what Set adds to `live` and Erase takes from it is exactly the change of known pages |
| `PageProtectionTable.SetIsGood` | src/common/pageProtectionTable.h:30-36 | after a fill the live count of a region, fresh or not, is its number of known pages |
| `PageProtectionTable.PageProtectionTable.KeysHoldKnownPages` | src/common/pageProtectionTable.h:66 | a region is in the map exactly when it holds a known page |
| `Dirents.AlignDownIsGreatestMultiple` | src/kernel/fileSystem.cpp:117-119 | for a power of two: the greatest multiple not above the value |
| `Dirents.AlignUpIsLeastMultiple` | src/kernel/fileSystem.cpp:121-123 | for a power of two: the least multiple not below the value |
| `Dirents.PackDirents` | src/kernel/fileSystem.cpp:125-156 | gives up exactly on a name over 255 bytes; otherwise the listing is, byte by byte, the records with their lengths rounded up to four, zeros behind the names, a new block exactly for a record that does not fit, and the last record of each block stretched to its end; walking it block by block finds exactly the entries, in order |
| `Dirents.Stretch` | src/kernel/fileSystem.cpp:134-138 | adding to the length field of a record stretches it over the zeros behind it |
| `Dirents.WriteRecord` | src/kernel/fileSystem.cpp:142-147 | the stores make one readable record and disturb nothing before it |
| `Dirents.CloseBlock` | src/kernel/fileSystem.cpp:134-138 | giving the last record the rest of its block makes the block parse to the same records |
| `Dirents.GrowRecord` | src/kernel/fileSystem.cpp:134-138 | a longer record length changes nothing a reader sees |
| `Dirents.BlocksParse` | src/kernel/fileSystem.cpp:125-156 | walking straight through sees the same records as walking block by block |
| `Dirents.ReadDirectory` | src/kernel/fileSystem.cpp:158-168 | copies the next bytes, leaves the rest of the buffer, advances the offset |
| `Dirents.GetFile` | src/kernel/fileSystem.cpp:215-225 | descriptor i + 3 is the file in slot i, and there is no other |
| `Dirents.FileDescriptors.CreateDescriptor` | src/kernel/fileSystem.cpp:174-195 | a new file that is not open, under the lowest descriptor not in use; every other descriptor keeps its file |
| `Dirents.FileDescriptors.DeleteDescriptor` | src/kernel/fileSystem.cpp:197-213 | ends that descriptor and no other |
| `Errno.KernelErrors` | src/libs/errno.h:182-209 | the error codes are the POSIX numbers above 0x80020000 and back, all negative |
| `Dirents.KernelGetdirentries` | src/kernel/fileSystem.cpp:1134-1171 | the first error in the order of the tests, or whole blocks from the offset; no other descriptor changes |
| `Dirents.ListDirectory` | src/kernel/fileSystem.cpp:1134-1171 | successive calls on one descriptor hand out the chunks that the listing theorems are about |
| `Dirents.ChunkParses` | src/kernel/fileSystem.cpp:1157-1171 | any run of whole blocks can be walked on its own |
| `Dirents.EveryEntryOnce` | src/kernel/fileSystem.cpp:1134-1171 | reading with any buffers of at least 512 bytes returns every entry exactly once, in order, in chunks that parse alone |
| `Dirents.EmptyIffAtEnd` | src/kernel/fileSystem.cpp:1134-1171 | a call returns 0 exactly when the calls before it have returned every byte, and so does every later call |
| `Dirents.ListingReadBack` | src/kernel/fileSystem.cpp:125-168 | a packed listing read from its start gives back the packed entries, in order and none twice: all of them once a call has returned 0 |
| `EventQueue.KernelEqueuePrivate.Close` | src/kernel/eventQueue.cpp:75-90 | nothing stays registered |
| `EventQueue.KernelEqueuePrivate.TriggerExpiredTimers` | src/kernel/eventQueue.cpp:141-147 | triggers exactly the untriggered events whose deadline has passed |
| `EventQueue.KernelEqueuePrivate.HandOutAt` | src/kernel/eventQueue.cpp:107-131 | hands out one event as often as it stays triggered and there is room |
| `EventQueue.KernelEqueuePrivate.GetTriggeredEvents` | src/kernel/eventQueue.cpp:92-139 | hands out the triggered events in list order up to `num`, leaves the rest of the buffer alone |
| `EventQueue.LevelFillsRoom` | src/kernel/eventQueue.cpp:107-131 | a level-triggered event fills whatever room there is, so only `num` ends the loop |
| `EventQueue.RoomLeftMeansDrained` | src/kernel/eventQueue.cpp:104-136 | if room is left over, nothing registered is triggered |
| `EventQueue.KernelEqueuePrivate.GetNextTimerWaitMicros` | src/kernel/eventQueue.cpp:149-166 | the wait for the nearest armed deadline, if there is one |
| `EventQueue.WaitReachesDeadlineIff` | src/kernel/eventQueue.cpp:162-164 | a wait lasts to the deadline, unless clamped, exactly when rounding up does not wrap; it overshoots by at most a microsecond |
| `EventQueue.WaitCutShort` | src/kernel/eventQueue.cpp:162-164 | at clock 0 the wait for the deadline before the largest is one microsecond |
| `EventQueue.WaitRounds` | src/kernel/eventQueue.cpp:162-164 | a wait is rounded up to microseconds, at least one, and clamped to 32 bits |
| `EventQueue.WaitNeverWraps` | src/kernel/eventQueue.cpp:162-164 | it never wraps once the clock shows 998 ns |
| `EventQueue.KernelEqueuePrivate.WaitTurn` | src/kernel/eventQueue.cpp:180-195 | one turn of a wait: on an open queue it hands out exactly what a drain hands out, sleeps exactly when that is nothing and there is time left, and then for the time left or until the nearest armed deadline, whichever is less; a closed queue is refused |
| `EventQueue.KernelEqueuePrivate.AddEvent` | src/kernel/eventQueue.cpp:203-225 | registers a new key at the end, or re-arms the event on it |
| `EventQueue.KernelEqueuePrivate.TriggerEvent` | src/kernel/eventQueue.cpp:227-251 | triggers the event on the key, or reports that there is none |
| `EventQueue.KernelEqueuePrivate.DeleteEvent` | src/kernel/eventQueue.cpp:281-304 | removes the event on the key, or reports that there is none |
| `EventQueue.RefusedIff` | src/kernel/eventQueue.cpp:525-529 | refuses exactly malformed delays and those that overflow 64 bits of nanoseconds |
| `EventQueue.Equeues.KernelPinEqueue` | src/kernel/eventQueue.cpp:306-314 | the queue of a handle in use, or none |
| `EventQueue.Equeues.KernelCreateEqueue` | src/kernel/eventQueue.cpp:316-337 | a handle that was never handed out, for a new empty queue |
| `EventQueue.Equeues.KernelDeleteEqueue` | src/kernel/eventQueue.cpp:367-386 | the handle stops working and the queue is closed |
| `EventQueue.Equeues.KernelAddHRTimerEvent` | src/kernel/eventQueue.cpp:520-544 | the errors in their order, or a timer with the saturated deadline |
| `EventQueue.TimerSeen` | src/kernel/eventQueue.cpp:535-543 | a timer is handed out once its deadline has passed, with its own user data, and is gone |
| `EventQueue.AmprSeen` | src/kernel/eventQueue.cpp:260-270 | an AMPR event is handed out with the data of its trigger and waits for the next one |
| `EventQueue.InterruptSeen` | src/graphics/host_gpu/renderer/sync.cpp:260-295 | an interrupt event likewise, with its count |
| `EventQueue.InterruptsSeen` | src/graphics/host_gpu/renderer/sync.cpp:267-281 | interrupts that come before the first is handed out wait in order, each counting on from it |
| `EventQueue.UserSeen` | src/kernel/eventQueue.cpp:253-258 | a user event carries the data of its last trigger; an edge event is handed out once, a level event as often as there is room |
| `EventQueue.ReaddedSeen` | src/kernel/eventQueue.cpp:203-225 | registering a key again gives its user data to everything still to be handed out and its deadline to the timer, and changes nothing else of it |
| `EventQueue.IdentOfId` | src/kernel/eventQueue.cpp:536-537 | the identifier is the 64-bit pattern of the id |
| `EventQueueProtocol.Perform` | src/kernel/eventQueue.cpp:75-304 | the methods of the queue do what the steps of the protocol say: the new list, whether it is closed, and the events handed out |
| `EventQueueProtocol.PerformAll` | src/kernel/eventQueue.cpp:75-304 | and run by run, on a new queue |
| `EventQueueProtocol.StepKeepsInv` | src/kernel/eventQueue.cpp:92-304 | every call keeps (ident, filter) keys unique, and what is pending behind a triggered event of the same key |
| `EventQueueProtocol.RunKeepsInv` | src/kernel/eventQueue.cpp:92-304 | so does every run of calls |
| `EventQueueProtocol.FifoStep` | src/kernel/eventQueue.cpp:260-270 | one call conserves the data of a registered AMPR or interrupt event |
| `EventQueueProtocol.FifoExactlyOnce` | src/kernel/eventQueue.cpp:92-270 | over any run in which it stays registered, delivered then outstanding data equals what was outstanding then all triggers: exactly once, in order; other events may be registered triggered or not |
| `EventQueueProtocol.RegisteredExactlyOnce` | src/kernel/eventQueue.cpp:551-570 | so it is for the AMPR event of `KernelAddAmprEvent` from its registration on, and for an interrupt event |
| `EventQueueProtocol.RoomLeftMeansNothingOutstanding` | src/kernel/eventQueue.cpp:104-136 | a drain that does not fill its buffer leaves nothing outstanding |
| `EventQueueProtocol.TimerOncePerInsertion` | src/kernel/eventQueue.cpp:104-147 | a timer never triggered by hand is handed out at most once per insertion |
| `EventQueueProtocol.InsertionsAreAppearances` | src/kernel/eventQueue.cpp:205-229 | insertions are counted as the calls of a run at which an event appears on a key where there was none, the last of them being the last |
| `EventQueueProtocol.TimerOnlyAfterDeadline` | src/kernel/eventQueue.cpp:141-147 | and only after a drain, this one or one since the timer was inserted, saw a clock at or past the deadline that was then in force |
| `EventQueueProtocol.HRTimerFires` | src/kernel/eventQueue.cpp:520-544 | so it is for what `KernelAddHRTimerEvent` registers, over every run from an empty queue |
| `EventQueueProtocol.ClosedForGood` | src/kernel/eventQueue.cpp:75-97 | after a close no call registers or hands out anything |
| `LruCache.LeastRecentlyUsedCache.Insert` | src/common/lruCache.h:23-30 | appends the item under an id not in use: the one freed longest ago, or a new one; items never move |
| `LruCache.LeastRecentlyUsedCache.Touch` | src/common/lruCache.h:32-42 | moves the item to the end if its tick advances, else changes nothing |
| `LruCache.LeastRecentlyUsedCache.Free` | src/common/lruCache.h:44-50 | takes out exactly that item and queues its id |
| `LruCache.LeastRecentlyUsedCache.ForEachItemBelow` | src/common/lruCache.h:52-69 | visits, in list order, up to the first newer item or a stop; the callback may free what it is shown |
| `LruCache.LeastRecentlyUsedCache.Attach` | src/common/lruCache.h:89-101 | a well-formed doubly linked list stays one, with the item at the end |
| `LruCache.LeastRecentlyUsedCache.Detach` | src/common/lruCache.h:103-116 | and without the item |
| `LruCache.LeastRecentlyUsedCache.Build` | src/common/lruCache.h:78-87 | an id neither live nor free afterwards; live, free and this one make up all ids below the size |
| `LruCache.RunsStaySorted` | src/common/lruCache.h:23-50 | under a clock that never goes back the list is sorted by tick after every run |
| `LruCache.TouchKeepsOrderIff` | src/common/lruCache.h:32-42 | a touch keeps the order exactly when it is ignored or not below any other tick |
| `LruCache.InsertKeepsOrderIff` | src/common/lruCache.h:23-30 | an insert keeps the order exactly when the list is empty or its last tick is not above the new one |
| `LruCache.StepKeepsOrderIff` | src/common/lruCache.h:23-50 | so it is known of each operation when it unsorts a sorted list; `Free` never does |
| `LruCache.BackwardClockUnsorts` | src/common/lruCache.h:32-42 | two runs under a clock that goes back, one by a touch and one by an insert, that end unsorted |
| `LruCache.VisitsExactlyBelow` | src/common/lruCache.h:52-69 | on a sorted list a traversal visits exactly the live items with tick at most the bound, oldest first |
| `SortEdges.SortEdges` | 3rdparty/stb/stb_truetype.h:3479-3483 | the array is sorted and a permutation, under any strict weak order |
| `SortEdges.Quicksort` | 3rdparty/stb/stb_truetype.h:3417-3477 | terminates, rearranges only its range, and leaves it nearly sorted: parted into nonempty ranges with nothing of an upper one before a lower one, down to blocks of at most 12, possibly with one element left out between the parts; calls inside one another are at most the binary logarithm of the range, since each takes the smaller part |
| `SortEdges.NearlySortedIsCut` | 3rdparty/stb/stb_truetype.h:3417-3477 | a nearly sorted range of more than 12 elements has a place with nothing behind it that comes before anything ahead of it |
| `SortEdges.DescendingIsNotNearlySorted` | 3rdparty/stb/stb_truetype.h:3417-3477 | so a descending one of more than 12 is not left as it is |
| `SortEdges.Partition` | 3rdparty/stb/stb_truetype.h:3421-3466 | neither part of the range is the whole of it, and nothing of the upper part comes before the lower; at most one element lies between the parts, and none only if the scans stopped together at one that compares like the pivot |
| `SortEdges.LeftOut` | 3rdparty/stb/stb_truetype.h:3462-3475 | without ties every partition leaves one element out of both of its parts |
| `SortEdges.MedianToFront` | 3rdparty/stb/stb_truetype.h:3424-3444 | the pivot is the median of first, middle and last, which stay behind as sentinels |
| `SortEdges.MedianOfThree` | 3rdparty/stb/stb_truetype.h:3426-3436 | two comparisons, and a third when they differ, single out the median |
| `SortEdges.ScanUp` | 3rdparty/stb/stb_truetype.h:3452-3454 | the upward scan stops at the sentinel at the latest, inside the array |
| `SortEdges.ScanDown` | 3rdparty/stb/stb_truetype.h:3455-3457 | so does the downward scan |
| `SortEdges.ScansMeet` | 3rdparty/stb/stb_truetype.h:3449-3466 | the scans cross by at most one, with nothing misplaced outside |
| `SortEdges.Assemble` | 3rdparty/stb/stb_truetype.h:3467-3475 | nearly sorted parts make a nearly sorted whole |
| `SortEdges.InsSort` | 3rdparty/stb/stb_truetype.h:3399-3415 | sorts any array, as a permutation |

## Left out

- ZBuf.Decoder.ParseHuffmanBlock: takes a bound `rounds` on the turns of the source's endless loop, because that loop need not end; `EndlessIffStuck` says exactly when, and for codes that read zero bits as no reserved length symbol, the default codes among them, a bound that is never reached is given.
- ZBuf.Decoder.CopyBytes: for distance symbols 30 and 31, whose base is 0, only the length of what is appended and that the memory passed over does not change are stated, because the source copies bytes it has not written.
- ZBuf.Decoder.Zexpand: `realloc` is a copy into a new array, and running out of memory is a limit on the size of one block.
- DateTime.Date.Set: from 14 May -5884291 to 15 December 5874689 it is exact; outside it states the unbounded formula, because signed overflow has no defined result.
- DateTime.Date.Get: for day numbers outside -536866432 to 536838867 nothing is stated, for the same reason.
- BlockLoop.StuckSomewhereIff: for codes that allow an endless loop it gives a state of the buffers, not an input that leads to it; `InputNeverEnds` does so for one pair of codes.
- EventFlagProtocol.BlockedThreadIsAnswered: says what a marked thread returns when it runs, not that the scheduler runs it.
- EventQueue.KernelEqueuePrivate.WaitTurn: is one turn of the wait; the elapsed time comes in as a parameter in place of the floating-point timer.
- SlotVectorProtocol.ReaderIsLinearizable: loads and stores are sequentially consistent; the weaker orders that the source names are not modelled.
- SlotVector.SlotVector.Insert: needs a free slot or spare capacity, where the source ends the process.
- LruCache.LeastRecentlyUsedCache.Touch: needs a live id, which the source does not test.
- LruCache.LeastRecentlyUsedCache.ForEachItemBelow: the callback may free the item it is shown and may stop; other calls into the cache from the callback are not modelled.
- PageProtectionTable.PageProtectionTable.Set: regions are values in a map field, so sharing through the region pointers is not modelled.
- Dirents.PackDirents: the byte vector is a sequence that is reassigned, and the name hash is a parameter.
- Adam7.Deinterlace: a pixel is one value of any type in place of `out_bytes` bytes, and the raw decoder's results are parameters.
- EventFlag: Set, Clear and Cancel end the process on a deleted flag; here they find it marked and do nothing. The condition variable may wake any thread at any time.
- EventQueue: delete callbacks, names, tracing and the signals of the condition variable; the trigger function of video-out events, which mixes the time stamp counter into the data (their reset function is that of interrupt events); `KernelTriggerUserEventForAll`, which is a loop over `TriggerEvent`.
- Opening, seeking and closing of files, mounts and path lookup: they depend on the state of the host file system.
- `Clear`, `Fill`, `None`, `Count` and the word-wise operators of the bit array, and the remaining accessors of `Date`: they would only add easy members.
- `Time` arithmetic, formatting, and everything that uses floating point.
- Other image loaders, PNG chunk parsing and filtering, the rasterizer that calls the sort, and all code for the GPU, audio, windows and configuration.
