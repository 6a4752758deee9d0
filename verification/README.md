# Verification of the libburn and POLER cores

This project models the parts of the repository that carry algorithms and proves
properties of them in Dafny. `dafny verify dfyconfig.toml` checks everything.

Where the C code changes state, the model does: the fifo, the CD-TEXT pack cursor,
the message list, the drive buffer, the track, the device lock and the cipher are
classes; parity, scrambling, sub-channel bits and texts are handled in arrays by loops.
Each method is tied to a function on values, and the laws are lemmas about these functions.

| Part | Files | Main results |
|---|---|---|
| Raw sector coding | `Gf256`, `ByteOrbit`, `RspcTables`, `RspcCode`, `RspcSector`, `RspcScrambler`, `RspcLayout` | after `sector_headers` all P columns and Q diagonals satisfy H x V = 0 over GF(2^8); distance three; single errors are located; the scrambling sequence is the one of ECMA-130 |
| Fifo | `Fifo`, `FifoSafety`, `FifoPositions`, `FifoProgress`, `FifoExact`, `FifoError`, `FifoLargeReads`, `FifoSource` | a step machine of two threads: memory safety, prefix delivery, no mutual waiting and a bound on the work in every interleaving; the stream is right exactly when the request size divides the chunk size; the exact conditions for an error to overtake data, for large reads to block, and for them to stay inside the buffer |
| POLER cipher | `PolerWord`, `PolerSbox`, `PolerCipher`, `PolerRound`, `PolerVectors` | modular inverse by lifting, bijective operator, S-box inverse, linear and bijective automaton, a round function of which every stage can be undone, sample values, decrypt and encrypt undo each other, in place too |
| CD-TEXT checksum | `CdTextCrc`, `CdTextPackCrc` | remainder of polynomial division, burst detection, repair |
| CD-TEXT writer | `CdTextWriter`, `CdTextLaws`, `CdTextBlocks`, `CdTextResult`, `CdTextHeads`, `CdTextOrder`, `CdTextSummary`, `CdTextCursor` | exact condition of success, numbering, order, summaries byte by byte, header entries |
| CD-TEXT reader and printer | `CdTextReader`, `CdTextBytes`, `CdTextPicking`, `CdTextRoundTrip`, `CdTextGaps`, `CdTextSheet`, `CdTextPrinter`, `CdTextReport`, `CdTextCode`, `CdTextLines`, `CdTextTable`, `CdTextSheetTells` | round trip with its exact condition, also with missing texts of two byte characters; the exact condition for a sheet, and what each of its lines tells; measuring and writing pass agree for every pack array |
| Messages | `Messages`, `MessageQueue` | a doubly linked list that refines a sequence; conservation over any sequence of calls |
| Sub-channel | `Subchannel` | interleaving and de-interleaving are inverse |
| Sector stream | `SectorStream`, `SectorWriter` | the medium holds the image in whole sectors; counters are conserved |
| Device locking | `DeviceLock` | each inode opened once, each device exclusively once, no leak after failure |
| Word parser | `WordParser`, `WrittenWords` | parsing inverts writing, quoted or not, with and without limit |

`Arithmetic`, `Octets`, `Words16`, `ZeroRuns` and `Options` hold shared facts.

## Where the code and its comments disagree

The model follows the code.

- `poler_core.h:57` calls `PHI_C2_INV` the inverse of `PHI_C2`; it is not (`PolerWord.StatedInverseIsWrong`). The model inverts phi by `poler_mod_inverse32`.
- `poler_core.h:329` calls the cascade self-inverse; it is so for the zero block only (`PolerCipher.CascadeSelfInverseExactly`).
- `file.c:293` adds the bytes already delivered to the source side of the copy rather than to the target. The stream is right exactly when no request is served in two pieces (`FifoExact.StreamCorrectExactly`).
- `file.c:268-276` reports a source error although stored bytes may have arrived since the empty buffer was seen. `FifoError.ErrorAfterDataExactly` says exactly for which data and buffers this cannot happen.
- `file.c:499-531` offers larger reads that can never begin when the buffer holds no more than one of them (`FifoLargeReads.LargeReadsBlockExactly`).
- `file.c:367-376` looks for a chunk that crosses the buffer end only if the read position is before the write position. With large reads and equal positions the feeder can write beyond the end; `FifoLargeReads.LargeReadsSafeExactly` says exactly for which buffers it cannot.
- `cdtext.c:245-281` stores one 0 byte for a missing text also where the type has two byte characters (`CdTextGaps.MissingDoubleText`). `CdTextRoundTrip.RoundTrip` speaks of types whose texts have one width and, for two bytes, are all present; `CdTextGaps.GapsExactly` says exactly when all comes back with texts missing.
- `cdtext.c:1703` promises the character code of the pack array; the code hands back that of the last block that has a summary (`CdTextCode.LastCodeIs`), which need not be the one that the array begins with (`CdTextCode.TwoCodes`). `CdTextCode.SheetCodeExactly` says exactly when it is.
- `cdtext.c:1539-1549` prints in every block the copyright byte of the first summary of the array, although `libburn.h:2119` gives each block its own. `CdTextSheetTells.ProtectionExactly` says exactly when the line is right.
- A text that consists of a TAB alone is read as a repeat. `CdTextRoundTrip.RoundTrip` says exactly when this does no harm.
- `ddlpa.c:385-402` can leave a device number unlocked if files with equal inode show different device numbers, which stat can only tell if the node was replaced between two calls (`DeviceLock.IncoherentUnlocked`). `DeviceLock.DeviceHeldExactly` gives the exact condition for a device to be held.

## Model

| member | source | states |
|---|---|---|
| Gf256.MulIsProductModulo | upload/xorriso-1.4.6/libburn/ecma130ab.c:717-732 | multiplication by repeated doubling is the polynomial product of two bytes modulo 0x11d (or any byte-sized reduction): the carry-less 16 bit product is a multiple of the field polynomial plus the result |
| Gf256.MulIsTheOnlyRemainder | upload/xorriso-1.4.6/libburn/ecma130ab.c:717-732 | no other byte differs from the carry-less product by a multiple of the field polynomial |
| Gf256.PowAdd | upload/xorriso-1.4.6/libburn/ecma130ab.c:527-538 | powers of the generator multiply by adding exponents, the law behind the log tables |
| RspcTables.OrderOfX | upload/xorriso-1.4.6/libburn/ecma130ab.c:717-732 | x has multiplicative order exactly 255 modulo 0x11d: no smaller power is 1 |
| RspcTables.PowerDistinct | upload/xorriso-1.4.6/libburn/ecma130ab.c:723-730 | the 255 entries of one period of gfpow are pairwise different |
| RspcTables.PowerReaches | upload/xorriso-1.4.6/libburn/ecma130ab.c:723-730 | every non-zero byte is some power of x, so gflog is defined for it |
| RspcTables.LogInvertsPower | upload/xorriso-1.4.6/libburn/ecma130ab.c:723-730 | gflog[b] is the one exponent below 255 whose power is b |
| RspcTables.GfPowIsPower | upload/xorriso-1.4.6/libburn/ecma130ab.c:527-549 | the unrolled table gfpow continues the powers of x over its whole length |
| RspcTables.SetupTables | upload/xorriso-1.4.6/libburn/ecma130ab.c:717-732 | the generator loop fills both tables with powers and logarithms; each log entry is written once |
| RspcTables.GeneratorStep | upload/xorriso-1.4.6/libburn/ecma130ab.c:727-729 | doubling an integer and subtracting 0x11d when bit 8 appears is multiplication by x in the field |
| RspcTables.RspcMultIsProduct | upload/xorriso-1.4.6/libburn/ecma130ab.c:527-538 | the table lookup, with its zero test and without modulo 255, equals the field product for all pairs of bytes |
| RspcTables.Div3IsQuotient | upload/xorriso-1.4.6/libburn/ecma130ab.c:544-549 | the lookup with offset 230 gives the byte that times 3 is the argument |
| RspcCode.ParitySolves | upload/xorriso-1.4.6/libburn/ecma130ab.c:583-587 | the two parity bytes computed from the two sums solve both rows of H x V = 0 |
| RspcCode.ParityCompletes | upload/xorriso-1.4.6/libburn/ecma130ab.c:552-588 | appending the two parity bytes to any data, in the order p1, p0, makes a word of the code of ECMA-130 Annex A |
| RspcCode.MinimumDistance | upload/xorriso-1.4.6/libburn/ecma130ab.c:256-271 | two code words of at most 255 bytes that agree outside two places are equal |
| RspcCode.DistanceThree | upload/xorriso-1.4.6/libburn/ecma130ab.c:256-271 | two different code words of at most 255 bytes, so of 26 or 45, differ in at least three bytes |
| RspcCode.SingleErrorSyndromes | upload/xorriso-1.4.6/libburn/ecma130ab.c:256-271 | after one altered byte the first syndrome is the error value, not zero, and the second equals x^(n-1-m) times the first exactly for the altered row m |
| RspcSector.P0P1 | upload/xorriso-1.4.6/libburn/ecma130ab.c:552-588 | the loop over 24 rows yields the parity pair of the P column in both byte lanes |
| RspcSector.ParityP | upload/xorriso-1.4.6/libburn/ecma130ab.c:591-615 | after the loop all 43 P columns in both lanes satisfy the equations; only bytes 2076 to 2247 change |
| RspcSector.Q0Q1 | upload/xorriso-1.4.6/libburn/ecma130ab.c:618-656 | the wrapping diagonal walk yields the parity pair of the Q diagonal in both lanes |
| RspcSector.ParityQ | upload/xorriso-1.4.6/libburn/ecma130ab.c:659-684 | after the loop all 26 Q diagonals in both lanes satisfy the equations; only bytes from 2248 on change |
| RspcSector.QKeepsP | upload/xorriso-1.4.6/libburn/sector.c:859-863 | changing only bytes from 2248 on, as Q parity does, leaves every P column a code word, because no P column reaches there |
| RspcSector.ScramblerRecurrence | upload/xorriso-1.4.6/libburn/ecma130ab.c:799-808 | the output bits of the feedback register obey s(n+15) = s(n) xor s(n+1), the polynomial x^15 + x + 1 of ECMA-130 Annex B |
| RspcSector.GenerateScrambler | upload/xorriso-1.4.6/libburn/ecma130ab.c:811-829 | the printing loop produces the bytes of that bit sequence, least significant bit first |
| RspcSector.Scramble | upload/xorriso-1.4.6/libburn/ecma130ab.c:693-701 | in place exclusive or of 2340 bytes with the sequence, the 12 sync bytes excepted |
| RspcSector.ScrambleInvolution | upload/xorriso-1.4.6/libburn/ecma130ab.c:693-701 | scrambling a second time gives back the sector |
| RspcScrambler.OutputIsAnnexSequence | upload/xorriso-1.4.6/libburn/ecma130ab.c:793-808 | the register puts out the sequence of ECMA-130 Annex B: a 1, fourteen 0, and then each bit the sum of the two that came 15 and 14 before it |
| RspcScrambler.SequenceUnique | upload/xorriso-1.4.6/libburn/ecma130ab.c:793-808 | start bits and feedback determine every bit: there is one such sequence |
| RspcScrambler.AnnexBits | upload/xorriso-1.4.6/libburn/ecma130ab.c:811-829 | bit j of byte i of the table is output bit 8 i + j |
| RspcScrambler.ScrambledBits | upload/xorriso-1.4.6/libburn/ecma130ab.c:693-701 | scrambling told by the feedback law alone: bytes 0 to 11 stay, and bit j of byte 12 + i is inverted exactly where any sequence that obeys that law has a 1 at 8 i + j |
| RspcScrambler.ScrambledZeros | upload/xorriso-1.4.6/libburn/ecma130ab.c:280-281 | a sector with zeros in bytes 12 to 15 has there, once scrambled, the bytes 1, 128, 0, 96 with which the literal table begins |
| RspcLayout.OneColumn | upload/xorriso-1.4.6/libburn/ecma130ab.c:552-615 | the 26 rows of the 43 P columns in both lanes are the bytes 12 to 2247, each of them exactly once |
| RspcLayout.OneDiagonal | upload/xorriso-1.4.6/libburn/ecma130ab.c:618-684 | the 43 elements of the 26 Q diagonals in both lanes are the bytes 12 to 2247, each of them exactly once |
| RspcSector.MsfRoundTrip | upload/xorriso-1.4.6/libburn/sector.c:759-778 | address to minute, second, frame and back is the identity exactly for -45150 <= lba < 404850 |
| RspcSector.MsfRanges | upload/xorriso-1.4.6/libburn/sector.c:767-778 | on that interval the parts are a minute below 100, a second below 60 and a frame below 75, and count the frames from the start of the program area or, below -150, from that of the lead-in |
| RspcSector.BcdDigits | upload/xorriso-1.4.6/libburn/sector.c:780-787 | for numbers below 100 the upper digit is the tens and the lower digit the ones |
| RspcSector.HeaderTellsAddress | upload/xorriso-1.4.6/libburn/sector.c:826-842 | the three address bytes of a header, read as decimal digits, give the address back; in the lead-in 0xA0 comes off first; sync pattern and mode byte are 0, ten times 255, 0 and 1 |
| RspcSector.WriteHeader | upload/xorriso-1.4.6/libburn/sector.c:826-842 | sync pattern, BCD encoded address and mode byte are stored; nothing beyond byte 15 changes |
| RspcSector.SectorHeaders | upload/xorriso-1.4.6/libburn/sector.c:809-888 | the whole call: the accepted cases, those that leave the sector alone, and for mode 1 a result that unscrambled satisfies all P and all Q equations, holds the header and the unchanged payload |
| RspcSector.SectorsDifferInThreeBytes | upload/xorriso-1.4.6/libburn/ecma130ab.c:591-615 | two finished sectors that differ in a byte of a P column differ in at least three bytes of that column and lane |
| FifoSafety.FreeIsExact | upload/xorriso-1.4.6/libburn/file.c:363-384 | the three cases of the free space computation agree with buffer size minus one minus the bytes really stored, also at the transient read position equal to the buffer size |
| FifoSafety.OnePiece | upload/xorriso-1.4.6/libburn/file.c:283-297 | with the request size dividing the chunk size, a piece is either the whole request or ends the input; it never crosses the buffer end |
| FifoSafety.StepInv | upload/xorriso-1.4.6/libburn/file.c:260-303 | one atomic step of either thread, from any state of the invariant, keeps the invariant |
| FifoSafety.RunInv | upload/xorriso-1.4.6/libburn/file.c:346-487 | the invariant holds after every interleaving of the two threads |
| FifoSafety.Safety | upload/xorriso-1.4.6/libburn/file.c:346-487 | in no interleaving is a cell outside the buffer accessed, an undelivered byte overwritten, or an unwritten, freed or released cell copied |
| FifoSafety.NoDataRace | upload/xorriso-1.4.6/libburn/file.c:393-441 | while one thread fills and the other copies, the cells they touch are different and inside the buffer |
| FifoPositions.FeederKeepsOff | upload/xorriso-1.4.6/libburn/file.c:363-451 | when every call asks for a size of its own, dividing or not, in every interleaving, also behind a copy that has left the buffer, the cell being filled is inside the buffer and holds none of the stored bytes that are not released |
| FifoSafety.DeliveredIsPrefix | upload/xorriso-1.4.6/libburn/file.c:262-298 | at every moment of every run the delivered bytes are a prefix of the bytes of the source |
| FifoSafety.ZeroMeansEverything | upload/xorriso-1.4.6/libburn/file.c:264-302 | if the last call returned 0 and none returned -1, everything the source had was delivered |
| FifoSafety.NoMutualWait | upload/xorriso-1.4.6/libburn/file.c:365-384 | in no reachable state does the feeder wait for space while the reader waits for data |
| FifoProgress.StepWork | upload/xorriso-1.4.6/libburn/file.c:260-482 | every step that is not a waiting round strictly lowers one measure of the remaining work, and waiting rounds keep it |
| FifoProgress.OneCanGoOn | upload/xorriso-1.4.6/libburn/file.c:265-282 | if both threads can only wait or have ended, the run is finished |
| FifoProgress.ActiveStepsBounded | upload/xorriso-1.4.6/libburn/file.c:346-487 | a run has at most 252 times the number of source bytes plus 175 steps that are not waiting, whatever the schedule |
| FifoProgress.CanComplete | upload/xorriso-1.4.6/libburn/file.c:346-487 | every run can be continued to the end; without source error everything is then delivered |
| FifoExact.NewConfigGood | upload/xorriso-1.4.6/libburn/file.c:508-531 | what burn_fifo_source_new accepts meets the conditions of the safety theorems when the request size divides the chunk size |
| FifoExact.SplitRun | upload/xorriso-1.4.6/libburn/file.c:288-293 | whenever a request can be split in two pieces, a schedule exists in which the offset added to the source side of the copy leaves the buffer or delivers wrong bytes |
| FifoExact.StreamCorrectExactly | upload/xorriso-1.4.6/libburn/file.c:288-293 | for every accepted chunk size and number, the stream is right in all runs of all sources if and only if the request size divides the chunk size |
| FifoError.ErrorOvertakesData | upload/xorriso-1.4.6/libburn/file.c:268-276 | for any data, whenever the ring has room for more than two reads or the last chunk is short, a run exists in which a call reports the source error although stored bytes have not been delivered |
| FifoError.ErrorAfterDataExactly | upload/xorriso-1.4.6/libburn/file.c:268-276 | for every accepted chunk size and number, dividing request size and failing source: in all runs an error is reported only after all data have been delivered, if and only if there are no data, or the ring has two chunks and the data fill whole chunks |
| FifoLargeReads.LargeReadsBlock | upload/xorriso-1.4.6/libburn/file.c:528-531 | with 32 KiB reads and a buffer not larger than that, no byte is ever read from the source nor any call served |
| FifoLargeReads.LargeReadsBlockExactly | upload/xorriso-1.4.6/libburn/file.c:528-531 | with 32 KiB reads the fifo never reads anything from any source in any run, if and only if its buffer is not larger than 32 KiB |
| FifoLargeReads.LargeReadsGood | upload/xorriso-1.4.6/libburn/file.c:528-531 | with 32 KiB reads, a buffer of several times that size and a request size that divides 32 KiB, the conditions of all theorems on runs are met |
| FifoLargeReads.OverrunRun | upload/xorriso-1.4.6/libburn/file.c:367-376 | where the read size does not divide the buffer a run exists in which the feeder fills cells beyond its end: both positions have come to the same place near the end, and the test for a chunk that crosses it is skipped |
| FifoLargeReads.LargeReadsSafeExactly | upload/xorriso-1.4.6/libburn/file.c:367-376 | 32 KiB reads into a larger buffer, by requests that divide 32 KiB: no run of any source accesses a cell illegally, if and only if the buffer is a multiple of 32 KiB |
| FifoSources.FifoSource.constructor | upload/xorriso-1.4.6/libburn/file.c:523-542 | the fields of a new fifo of any sizes describe the initial state of the step machine; with the sizes of the safety theorems it satisfies the invariant |
| FifoSources.FifoSource.LookForSpace | upload/xorriso-1.4.6/libburn/file.c:365-384 | one round of the waiting loop, and the jump to the read with the position where to store |
| FifoSources.FifoSource.ObtainChunk | upload/xorriso-1.4.6/libburn/file.c:407-430 | the read call: bytes, end of input or error |
| FifoSources.FifoSource.FillByte | upload/xorriso-1.4.6/libburn/file.c:393-413 | one cell of the ring gets its byte |
| FifoSources.FifoSource.Publish | upload/xorriso-1.4.6/libburn/file.c:448-451 | the write position moves behind the chunk and wraps at the end |
| FifoSources.FifoSource.EndShoveller | upload/xorriso-1.4.6/libburn/file.c:462-482 | end of input, waiting for the consumer, release of the buffer |
| FifoSources.FifoSource.LookForData | upload/xorriso-1.4.6/libburn/file.c:264-285 | one round of the reader waiting loop with its tests for end of input and input error |
| FifoSources.FifoSource.ChoosePiece | upload/xorriso-1.4.6/libburn/file.c:283-292 | size of the piece, limited by buffer end and request |
| FifoSources.FifoSource.CopyByte | upload/xorriso-1.4.6/libburn/file.c:293-293 | one byte of the memcpy, source offset included |
| FifoSources.FifoSource.Advance | upload/xorriso-1.4.6/libburn/file.c:294-297 | read position moves, passes through the buffer size, wraps in a step of its own |
| FifoSources.FifoSource.FinishCall | upload/xorriso-1.4.6/libburn/file.c:299-302 | end of consumption or the counted bytes |
| FifoSources.FifoSource.ShovellerStep | upload/xorriso-1.4.6/libburn/file.c:346-487 | the heap object follows the step function of the feeder |
| FifoSources.FifoSource.ReaderThreadStep | upload/xorriso-1.4.6/libburn/file.c:228-312 | the heap object follows the step function of the reader |
| FifoSources.FifoSource.RunSchedule | upload/xorriso-1.4.6/libburn/file.c:228-487 | for every schedule the object ends in the state of the step machine, so that all theorems on runs hold for it |
| PolerWord.RotateBack | linux-arch-experiment/poler-lkm/poler_core.h:129-138 | rotating left and then right by the same count, and the other way round, restores the word |
| PolerWord.ComputeModInverse32 | linux-arch-experiment/poler-lkm/poler_core.h:107-121 | the Newton loop yields the fifth lifting of the start value |
| PolerWord.LiftPrecision | linux-arch-experiment/poler-lkm/poler_core.h:107-121 | after i rounds a * x = 1 modulo 2^(2^i), for every odd a |
| PolerWord.ModInverse32Correct | linux-arch-experiment/poler-lkm/poler_core.h:107-121 | odd words get their inverse modulo 2^32; even words get 0 and have no inverse at all |
| PolerWord.OddMultiplication | linux-arch-experiment/poler-lkm/poler_core.h:235-248 | multiplication by an odd word and by its computed inverse undo each other in both orders |
| PolerWord.StatedInverseIsWrong | linux-arch-experiment/poler-lkm/poler_core.h:56-57 | the macro PHI_C2_INV is not the inverse of PHI_C2 that its comment names |
| PolerWord.XorShiftTwice | linux-arch-experiment/poler-lkm/poler_core.h:235-248 | the 16 bit xorshift is its own inverse |
| PolerWord.PhiBijective | linux-arch-experiment/poler-lkm/poler_core.h:129-138 | phi is a bijection of 32 bit words with the explicit inverse through rotations and modular inverses |
| PolerWord.OperatorBijective | linux-arch-experiment/poler-lkm/poler_core.h:235-248 | for every key and epsilon the operator is a bijection with an explicit inverse in both orders |
| PolerSbox.CtGf256Mul | linux-arch-experiment/poler-lkm/poler_core.h:163-181 | the branch free loop is multiplication of polynomials modulo 0x11b |
| PolerSbox.Generates | linux-arch-experiment/poler-lkm/poler_core.h:183-203 | multiplication by 3 runs through all 255 non-zero bytes modulo 0x11b before it returns to the start |
| PolerSbox.PowerSum | linux-arch-experiment/poler-lkm/poler_core.h:183-203 | iterated products add their exponents |
| PolerSbox.InverseIsInverse | linux-arch-experiment/poler-lkm/poler_core.h:183-203 | the square and multiply chain computes x^254: the field inverse of every non-zero byte, 0 for 0, and is its own inverse |
| PolerSbox.AffineInverts | linux-arch-experiment/poler-lkm/poler_core.h:206-220 | the two affine maps undo each other in both orders |
| PolerSbox.SboxInverts | linux-arch-experiment/poler-lkm/poler_core.h:206-220 | S-box and inverse S-box undo each other for all bytes, in both orders |
| PolerCipher.StepAutomaton | linux-arch-experiment/poler-lkm/poler_core.h:301-313 | bit i of the result of the loop is the sum modulo 2 of the left and right neighbour of cell i, on a ring of 32 cells, and of the cell itself where the rule has a bit |
| PolerCipher.StepHasBits | linux-arch-experiment/poler-lkm/poler_core.h:301-313 | the same for the function that the round function uses: every one of its 32 bits is the rule applied to the cell |
| PolerCipher.StepIsLinear | linux-arch-experiment/poler-lkm/poler_core.h:301-313 | the automaton is linear over exclusive or in the state, for every rule: the step of a sum is the sum of the steps |
| PolerCipher.RoundInverse | linux-arch-experiment/poler-lkm/poler_core.h:471-518 | one round of the encryption network and one of the decryption network undo each other for any keys, in both orders |
| PolerCipher.NetworkInverse | linux-arch-experiment/poler-lkm/poler_core.h:485-570 | so do n rounds, for every n up to 20 |
| PolerCipher.CipherInverse | linux-arch-experiment/poler-lkm/poler_core.h:485-570 | whitening included, decrypt undoes encrypt and encrypt undoes decrypt for every content of the key table and every block |
| PolerCipher.Cipher.constructor | linux-arch-experiment/poler-lkm/poler_core.h:485-492 | a new cipher holds exactly the given round keys, epsilons and round count, whatever they are |
| PolerCipher.Cipher.EncryptBlock | linux-arch-experiment/poler-lkm/poler_core.h:485-526 | the method on arrays computes the network, also when output and input are the same array, and leaves the key table alone |
| PolerCipher.Cipher.DecryptBlock | linux-arch-experiment/poler-lkm/poler_core.h:529-570 | likewise for the reversed network |
| PolerCipher.Cipher.RoundTrip | linux-arch-experiment/poler-lkm/poler_lkm.c:219-219 | encrypting and decrypting restore the input words under every aliasing of the three arrays |
| PolerCipher.Cipher.VerifyRoundtrip | linux-arch-experiment/poler-lkm/poler_core.h:573-583 | the self-check of the code answers yes for every key table |
| PolerCipher.CascadeInvertible | linux-arch-experiment/poler-lkm/poler_core.h:329-333 | the cascade between the words is invertible |
| PolerCipher.CascadeSelfInverseExactly | linux-arch-experiment/poler-lkm/poler_core.h:329-333 | the cascade applied twice restores the block if and only if the block is all zero, against the comment |
| PolerRound.MixColumnsOrder | linux-arch-experiment/poler-lkm/poler_core.h:340-354 | mixing the columns four times is the identity |
| PolerRound.AutomatonBijective | linux-arch-experiment/poler-lkm/poler_core.h:301-313 | the automaton with the rule 0xACACACAC is a bijection on words: the word before is found by a trial run round the ring, in both directions |
| PolerRound.RoundFunctionBack | linux-arch-experiment/poler-lkm/poler_core.h:447-468 | for round key 0 and every odd epsilon, or the replaced epsilon 0: undoing automaton, matrix, sum, product and ARX box and then taking the inverse S-box of each byte gives back the word, for every word |
| PolerVectors.SboxValues | linux-arch-experiment/poler-lkm/poler_core.h:206-212 | the S-box has the values of AES at 0x00, 0x01, 0x53 and 0xCA |
| PolerVectors.Round1 | linux-arch-experiment/poler-lkm/poler_core.h:447-468 | word 0 with round key 0 and epsilon 0 becomes 0x91D74DB5 |
| PolerVectors.Coupled1 | linux-arch-experiment/poler-lkm/poler_core.h:471-482 | two such words, coupled, are 0x5BEBC418 and 0x5593521F |
| PolerVectors.SampleEncryption | linux-arch-experiment/poler-lkm/poler_core.h:485-526 | two rounds with different keys and epsilons, both whitenings included, have the result computed with the arithmetic of the source |
| PolerVectors.SampleOperator | linux-arch-experiment/poler-lkm/poler_core.h:235-248 | the keyed operator at one key, epsilon and word |
| CdTextCrc.RemXor | upload/xorriso-1.4.6/libburn/cdtext.c:83-96 | the remainder register is linear over exclusive or of bit strings of equal length |
| CdTextCrc.BurstHasRemainder | upload/xorriso-1.4.6/libburn/cdtext.c:83-96 | no non-zero pattern of at most 16 bits, anywhere among zeros, is a multiple of the polynomial |
| CdTextCrc.RemDivides | upload/xorriso-1.4.6/libburn/cdtext.c:83-96 | quotient and remainder of the register satisfy the division equation coefficient by coefficient |
| CdTextCrc.RemainderUnique | upload/xorriso-1.4.6/libburn/cdtext.c:83-96 | quotient and remainder are the only ones that do |
| CdTextPackCrc.CrcIsTheRemainder | upload/xorriso-1.4.6/libburn/cdtext.c:83-96 | crc_11021 of data of any length is the remainder of data times x^16 modulo x^16 + x^12 + x^5 + 1 |
| CdTextPackCrc.IntStepIsStep | upload/xorriso-1.4.6/libburn/cdtext.c:83-96 | one round on the wide accumulator with its test of bit 16 is one register step on 16 bits |
| CdTextPackCrc.Crc11021 | upload/xorriso-1.4.6/libburn/cdtext.c:83-96 | the nested loop computes that value |
| CdTextPackCrc.PackOkIsMultiple | upload/xorriso-1.4.6/libburn/cdtext.c:103-132 | a pack has the stored field the check expects if and only if its 144 bits with inverted field are a multiple of the polynomial |
| CdTextPackCrc.BurstDetected | upload/xorriso-1.4.6/libburn/cdtext.c:103-132 | any change of a valid pack confined to 16 consecutive bits, field included, makes it invalid |
| CdTextPackCrc.MismatchesZero | upload/xorriso-1.4.6/libburn/cdtext.c:103-132 | the count is zero if and only if every pack is valid |
| CdTextPackCrc.MismatchesCount | upload/xorriso-1.4.6/libburn/cdtext.c:103-132 | the counts are the numbers of packs with a wrong field, and of those whose field is not zero; all fields are zero if both bytes of each are |
| CdTextPackCrc.NoChecksums | upload/xorriso-1.4.6/libburn/cdtext.c:103-132 | the test whether all checksum fields are zero |
| CdTextPackCrc.CheckPack | upload/xorriso-1.4.6/libburn/cdtext.c:103-132 | one pack is counted, or repaired in its two checksum bytes |
| CdTextPackCrc.CrcMismatches | upload/xorriso-1.4.6/libburn/cdtext.c:103-132 | all modes: the number of invalid packs without any change, or a repair after which none is invalid, all other bytes are as before and the negative count of repaired non-zero fields is returned |
| CdTextLaws.BufferSuffices | upload/xorriso-1.4.6/libburn/cdtext.c:45-76 | the limit of 2048 packs is never met: eight blocks of at most 255 packs stay below it |
| CdTextLaws.NewPackLaw | upload/xorriso-1.4.6/libburn/cdtext.c:45-76 | opening a pack succeeds if and only if the block has fewer than 255 packs, and keeps the invariant of the cursor |
| CdTextLaws.FinalizeLaw | upload/xorriso-1.4.6/libburn/cdtext.c:135-154 | closing a pack pads it with zeros and keeps the invariant |
| CdTextLaws.PacksUsed | upload/xorriso-1.4.6/libburn/cdtext.c:192-239 | pack counter of a type and fill of the open pack are determined by the number of bytes of that type in the block |
| CdTextLaws.PutTextLaw | upload/xorriso-1.4.6/libburn/cdtext.c:159-188 | writing a text appends exactly its bytes to the stream of its type and block, touches no other stream, and fails if and only if the block would need more than 255 packs |
| CdTextLaws.TrackTextsLaw | upload/xorriso-1.4.6/libburn/cdtext.c:337-352 | the same for the texts of all tracks with their TAB abbreviations |
| CdTextLaws.SessionTextsLaw | upload/xorriso-1.4.6/libburn/cdtext.c:313-353 | the packs of one type hold the texts of session and tracks, padded to whole packs |
| CdTextBlocks.KindsLaw | upload/xorriso-1.4.6/libburn/cdtext.c:386-394 | all types of a block in order, and exactly when they fit |
| CdTextBlocks.SizePacksLaw | upload/xorriso-1.4.6/libburn/cdtext.c:192-239 | three summary packs with the counts of each type, last numbers still to be entered |
| CdTextBlocks.BlockLaw | upload/xorriso-1.4.6/libburn/cdtext.c:383-400 | a block succeeds if and only if its packs including the summary are at most 255, and leaves earlier blocks as they were |
| CdTextBlocks.BlocksLaw | upload/xorriso-1.4.6/libburn/cdtext.c:383-400 | the same for the loop over the eight blocks |
| CdTextBlocks.SucceedsExactly | upload/xorriso-1.4.6/libburn/cdtext.c:359-445 | pack generation succeeds if and only if every block needs at most 255 packs, computed from the texts alone |
| CdTextResult.PatchedSummary | upload/xorriso-1.4.6/libburn/cdtext.c:402-427 | after the last loop the summary of a block holds its counts per type and the last sequence numbers of all blocks |
| CdTextResult.ProducedIsCoherent | upload/xorriso-1.4.6/libburn/cdtext.c:359-445 | every result has sequence numbers without gap in each block, at most 255 packs a block, and summaries equal to what the pack array holds |
| CdTextResult.SummaryHeaders | upload/xorriso-1.4.6/libburn/cdtext.c:192-236 | the three summary packs of a block are numbered 0 to 2, have the single byte flag and no position |
| CdTextSummary.NumbersGrow | upload/xorriso-1.4.6/libburn/cdtext.c:359-445 | in a numbered array the numbers of a block stay below its pack count, and some pack has the count minus one |
| CdTextSummary.SummaryTold | upload/xorriso-1.4.6/libburn/cdtext.c:192-236 | all 36 bytes of the summary of every present block in every result: codes and track numbers of the session, the number of packs of each type, 3, for each block of the array the greatest sequence number that occurs in it, one less than the number of its packs, or 0 if it has none, and the languages |
| CdTextReader.SearchPack | upload/xorriso-1.4.6/libburn/cdtext.c:1180-1200 | the first pack from a start number on that fits type and block, or none |
| CdTextReader.CollectPayload | upload/xorriso-1.4.6/libburn/cdtext.c:1233-1267 | the concatenated 12 byte payloads of the fitting packs plus a closing 0, in a buffer of exact size; the two passes agree |
| CdTextReader.PayloadSize | upload/xorriso-1.4.6/libburn/cdtext.c:1233-1267 | the counting pass finds the size of the payload |
| CdTextReader.FillPayload | upload/xorriso-1.4.6/libburn/cdtext.c:1233-1267 | the filling pass writes the payload |
| CdTextReader.FindText | upload/xorriso-1.4.6/libburn/cdtext.c:1295-1356 | start and length of a text by counting text ends of one or two bytes |
| CdTextReader.PickOnce | upload/xorriso-1.4.6/libburn/cdtext.c:1295-1356 | one pass through the label again: a result, or the decision to look at the text before |
| CdTextReader.PickPayloadText | upload/xorriso-1.4.6/libburn/cdtext.c:1295-1356 | the text with a chain of TABs resolved to the last text before it |
| CdTextPicking.PayloadHasTexts | upload/xorriso-1.4.6/libburn/cdtext.c:1274-1288 | every payload is a row of texts with their ends, and a rest without end |
| CdTextPicking.PicksTexts | upload/xorriso-1.4.6/libburn/cdtext.c:1295-1356 | for every such payload, in both widths and without lookback: text k is found, behind the last end the rest, which counts as empty if there is no end at all, and nothing further on |
| CdTextPicking.PicksTabs | upload/xorriso-1.4.6/libburn/cdtext.c:1335-1355 | with lookback a lone TAB, or TAB TAB of two bytes, stands for what is picked for the text before, and nothing else changes |
| CdTextBytes.HeaderParts | upload/xorriso-1.4.6/libburn/cdtext.c:45-76 | block number, double byte flag and character position are recovered from the fourth header byte |
| CdTextBytes.EncodedFields | upload/xorriso-1.4.6/libburn/cdtext.c:45-76 | all header fields, the character position included, and the payload are recovered from the 18 bytes of a pack, whose checksum is valid |
| CdTextBytes.EncodeAllAt | upload/xorriso-1.4.6/libburn/cdtext.c:135-154 | pack i of the array is the encoding of record i |
| CdTextBytes.CollectsStream | upload/xorriso-1.4.6/libburn/cdtext.c:1233-1267 | collecting a type and block from the encoded packs gives the stream of bytes the writer put there |
| CdTextRoundTrip.ProducedWidth | upload/xorriso-1.4.6/libburn/cdtext.c:313-353 | types whose texts all have one width yield packs of that width only |
| CdTextRoundTrip.ProducedBytes | upload/xorriso-1.4.6/libburn/cdtext.c:359-445 | as bytes: no pack has a checksum mismatch, and block and sequence numbers stand in the headers |
| CdTextRoundTrip.TextStart | upload/xorriso-1.4.6/libburn/cdtext.c:1295-1356 | the search for text k stops exactly at the bytes written for text k |
| CdTextRoundTrip.PicksShown | upload/xorriso-1.4.6/libburn/cdtext.c:1295-1356 | picking text k from what was written gives the text with repeats resolved |
| CdTextRoundTrip.ShownExactly | upload/xorriso-1.4.6/libburn/cdtext.c:245-281 | that is the text given by the application if and only if it is not a lone TAB, or all texts up to it are TABs |
| CdTextRoundTrip.RoundTrip | upload/xorriso-1.4.6/libburn/cdtext.c:1295-1356 | write, encode, collect, pick: for single and double byte texts the given text of session or track k comes back if and only if it is not a lone TAB or all texts up to it are |
| CdTextGaps.ReaderAhead | upload/xorriso-1.4.6/libburn/cdtext.c:1295-1356 | behind the first missing two byte text, a reader that has picked all texts right so far stands beyond the place where the next text was written |
| CdTextGaps.PickedExactly | upload/xorriso-1.4.6/libburn/cdtext.c:1295-1356 | for two byte texts of which some tracks have none, all texts are picked from the stored bytes as given, if and only if none is missing, or only empty texts follow the first gap and the packs have two bytes for each |
| CdTextGaps.GapsExactly | upload/xorriso-1.4.6/libburn/cdtext.c:245-281 | the same for write, encode, collect and pick, TAB abbreviations included, and the type is recognized as one of two byte characters |
| CdTextGaps.MissingDoubleText | upload/xorriso-1.4.6/libburn/cdtext.c:245-281 | a session in which the texts behind a gap come back wrong |
| CdTextHeads.PutTextTells | upload/xorriso-1.4.6/libburn/cdtext.c:45-76 | every pack begun by a text names the track and character position of its first byte |
| CdTextHeads.HeadersTell | upload/xorriso-1.4.6/libburn/cdtext.c:45-76 | in the result, pack n of a type and block carries the track number, the character width and the character position that belong to byte 12 n of the texts |
| CdTextPicking.PositionIs | upload/xorriso-1.4.6/libburn/cdtext.c:159-188 | that position in plain terms: how many characters of the text stand before the pack, 15 at most; 0 for binary types, and not counting the two bytes of a genre code |
| CdTextPicking.StoredIs | upload/xorriso-1.4.6/libburn/cdtext.c:287-309 | a text of track k is stored as TAB exactly if k is not the first track, the text is given in the same bytes and width for the track before, and is longer than its end mark; else as given |
| CdTextPicking.StreamHolds | upload/xorriso-1.4.6/libburn/cdtext.c:313-353 | the packs of a type hold, padded with less than 12 zeros: nothing without a text of the session; the stored texts of session and all tracks for types 0x80 to 0x85 and 0x8e; the bytes of the session for other types |
| CdTextOrder.PacksSorted | upload/xorriso-1.4.6/libburn/cdtext.c:383-400 | in the result the packs stand in the order of blocks, and within a block in the order of types with the summary last |
| CdTextCursor.DecideCdtextTab | upload/xorriso-1.4.6/libburn/cdtext.c:287-309 | the decision for a TAB: equal width and bytes, longer than the text end alone |
| CdTextCursor.PackCursor.constructor | upload/xorriso-1.4.6/libburn/cdtext.c:372-375 | an empty buffer of 2048 packs |
| CdTextCursor.PackCursor.CreateNewPack | upload/xorriso-1.4.6/libburn/cdtext.c:45-76 | the bytes of a header in the buffer, fields of the cursor, and refusal of the 256th pack of a block |
| CdTextCursor.PackCursor.FinalizeTextPack | upload/xorriso-1.4.6/libburn/cdtext.c:135-154 | zero padding, checksum and next pack in the buffer |
| CdTextCursor.PackCursor.PutByte | upload/xorriso-1.4.6/libburn/cdtext.c:183-185 | one payload byte |
| CdTextCursor.PackCursor.MakeRoom | upload/xorriso-1.4.6/libburn/cdtext.c:170-182 | closing a full pack and opening the next one when needed |
| CdTextCursor.PackCursor.CreateTyblPacks | upload/xorriso-1.4.6/libburn/cdtext.c:159-188 | the loop over the bytes of a text |
| CdTextCursor.PackCursor.CreateTyblTPacks | upload/xorriso-1.4.6/libburn/cdtext.c:245-281 | text, TAB or text end of a track |
| CdTextCursor.PackCursor.CreateTyblSPacks | upload/xorriso-1.4.6/libburn/cdtext.c:313-353 | all texts of a type |
| CdTextCursor.PackCursor.FillSizePayload | upload/xorriso-1.4.6/libburn/cdtext.c:192-239 | the 36 bytes of the summary |
| CdTextCursor.PackCursor.CreateBlSizePacks | upload/xorriso-1.4.6/libburn/cdtext.c:192-239 | the three summary packs in the buffer |
| CdTextCursor.PackCursor.ForgetCounts | upload/xorriso-1.4.6/libburn/cdtext.c:236-237 | the counters restart with each block |
| CdTextCursor.PackCursor.PatchPack | upload/xorriso-1.4.6/libburn/cdtext.c:405-427 | last sequence numbers entered in one summary pack, checksum renewed |
| CdTextCursor.PackCursor.InsertLastNumbers | upload/xorriso-1.4.6/libburn/cdtext.c:405-427 | the same for all packs of the buffer |
| CdTextCursor.CreateBlock | upload/xorriso-1.4.6/libburn/cdtext.c:383-400 | one round of the loop over the blocks |
| CdTextCursor.WritePacks | upload/xorriso-1.4.6/libburn/cdtext.c:372-427 | the loops fill the buffer with the bytes of the specified records, or fail exactly when the specification does |
| CdTextCursor.CdtextFromSession | upload/xorriso-1.4.6/libburn/cdtext.c:359-445 | return value, array and number of packs for both values of flag bit0: the bytes of the specified records, no array for zero packs or if only the number is wanted, failure exactly when the specification fails |
| CdTextPrinter.Sink.WriteLine | upload/xorriso-1.4.6/libburn/cdtext.c:1203-1224 | measuring adds the length of a line, writing stores it; both advance alike |
| CdTextPrinter.Printer.WriteTextLine | upload/xorriso-1.4.6/libburn/cdtext.c:1359-1393 | the line for a text, or nothing, alike in both passes |
| CdTextPrinter.Printer.ReportTrack | upload/xorriso-1.4.6/libburn/cdtext.c:1396-1421 | the lines of a track |
| CdTextPrinter.Printer.ReportTracks | upload/xorriso-1.4.6/libburn/cdtext.c:1557-1563 | the lines of all tracks of the range |
| CdTextPrinter.Printer.ReportVolume | upload/xorriso-1.4.6/libburn/cdtext.c:1503-1510 | the lines for texts of the whole disc |
| CdTextPrinter.Printer.ReportGenre | upload/xorriso-1.4.6/libburn/cdtext.c:1512-1526 | genre code and genre information from the collected payload |
| CdTextPrinter.Printer.ReportClosed | upload/xorriso-1.4.6/libburn/cdtext.c:1527-1533 | the line for closed information |
| CdTextPrinter.Printer.ReportHead | upload/xorriso-1.4.6/libburn/cdtext.c:1464-1476 | the lines before the language code |
| CdTextPrinter.Printer.FindLanguagePack | upload/xorriso-1.4.6/libburn/cdtext.c:1478-1490 | the third pack of type 0x8f, or failure |
| CdTextPrinter.Printer.ReportEnd | upload/xorriso-1.4.6/libburn/cdtext.c:1534-1555 | the lines between genre and tracks |
| CdTextPrinter.Printer.ReportBlock | upload/xorriso-1.4.6/libburn/cdtext.c:1435-1572 | success and text of a block |
| CdTextPrinter.Printer.ReportBlocks | upload/xorriso-1.4.6/libburn/cdtext.c:1647-1674 | texts of the blocks follow each other without gap; the character code left behind is that of the last summary met |
| CdTextPrinter.Printer.MakeV07t | upload/xorriso-1.4.6/libburn/cdtext.c:1592-1675 | success, text and character code of the whole sheet, the same in both passes |
| CdTextPrinter.Printer.MakeInputSheet | upload/xorriso-1.4.6/libburn/cdtext.c:1714-1735 | for every pack array: after a successful measuring pass the writing pass succeeds with the same length, fills a buffer of that length plus one exactly and ends it with 0; the character code is handed back |
| CdTextReport.LineShowsText | upload/xorriso-1.4.6/libburn/cdtext.c:1359-1393 | the line for a text of a generated pack array is the label and the text of session or track with repeats resolved |
| CdTextReport.LanguagesTold | upload/xorriso-1.4.6/libburn/cdtext.c:1478-1491 | in a generated array the third pack of type 0x8f that the printer finds belongs to the first block present and holds the language codes of all blocks |
| CdTextReport.CodeIs | upload/xorriso-1.4.6/libburn/cdtext.c:1651-1654 | in a generated array a summary is found for exactly the blocks present, with the character code of the block |
| CdTextReport.ReportedRange | upload/xorriso-1.4.6/libburn/cdtext.c:1623-1645 | the track range of the sheet, from the call or from the summary, computed from the session |
| CdTextReport.SheetShowsTexts | upload/xorriso-1.4.6/libburn/cdtext.c:1592-1675 | for every session whose packs were generated, with known character codes and languages up to 127, and every start number and track count: a sheet is produced if and only if there is a range of tracks to report, and it has the line for every text of a regular type in that range |
| CdTextLines.PaddedRead | upload/xorriso-1.4.6/libburn/cdtext.c:1378-1382 | a number printed with a least count of digits has at least so many and, read digit by digit, the same value |
| CdTextLines.LabelNames | upload/xorriso-1.4.6/libburn/cdtext.c:1378-1384 | the label of a text of track k begins with Track or ISRC, followed by two or more decimal digits whose value is the first track number plus k - 1 |
| CdTextLines.OneTrack | upload/xorriso-1.4.6/libburn/cdtext.c:1378-1384 | no label names two tracks or is about two kinds of text |
| CdTextLines.LineRead | upload/xorriso-1.4.6/libburn/cdtext.c:1203-1224 | a line by its columns: label, blanks up to column 19, blank, equal sign, blank, the text, line feed |
| CdTextTable.BlockParts | upload/xorriso-1.4.6/libburn/cdtext.c:1469-1564 | a reported block, of any pack array, part by part in order: version, block number, character code, language, seven volume texts, genre code and information, closed information, product code, protection, first and last track number, and seven texts for each track; each number is read back from its digits |
| CdTextTable.OneProtection | upload/xorriso-1.4.6/libburn/cdtext.c:1542-1549 | no protection line tells two codes |
| CdTextSheetTells.PresentExactly | upload/xorriso-1.4.6/libburn/cdtext.c:1456-1461 | in a generated array a block is reported if and only if it has a text of types 0x80 to 0x8e |
| CdTextSheetTells.SheetExactly | upload/xorriso-1.4.6/libburn/cdtext.c:1592-1675 | for every generated array, start number and track count: there is a sheet if and only if some block is present, all present blocks have character code 0, 1 or 0x80, all blocks with a text have a language up to 127, and the range is told by the call or is a sensible one in the session; the sheet is the blocks with a text in ascending order |
| CdTextSheetTells.BlockTold | upload/xorriso-1.4.6/libburn/cdtext.c:1469-1564 | what the parts of a block say in terms of the session: its own number, character code, language, genre code and information, closed information; the copyright of the first block present; the range; and the texts |
| CdTextSheetTells.ProtectionExactly | upload/xorriso-1.4.6/libburn/cdtext.c:1539-1549 | the protection line of a block tells the copyright of this block if and only if it equals that of the first block present |
| CdTextSheetTells.TextTold | upload/xorriso-1.4.6/libburn/cdtext.c:1359-1393 | the line of a regular text by its columns: the heading of its type and the text with repeats resolved; for track k the heading names track first + k - 1 |
| CdTextSheetTells.SheetNamesTracks | upload/xorriso-1.4.6/libburn/cdtext.c:1592-1675 | for known codes: a sheet is made if and only if there is a range, and for each track in it that has a regular text the sheet has a line that names this very track and shows this text |
| CdTextSheetTells.CatalogTold | upload/xorriso-1.4.6/libburn/cdtext.c:1448-1451 | the line of the catalog number shows the text that was given |
| CdTextCode.LastCodeIs | upload/xorriso-1.4.6/libburn/cdtext.c:1649-1654 | for every pack array: when all blocks are done, the character code is that in the first summary pack of the highest block that has one |
| CdTextCode.SheetCodeIsLast | upload/xorriso-1.4.6/libburn/cdtext.c:1714-1735 | for generated packs the code handed back is that of the last block present |
| CdTextCode.SheetCodeExactly | upload/xorriso-1.4.6/libburn/cdtext.c:1714-1735 | it is the code that the array begins with, if and only if the first and the last block present have the same code |
| CdTextCode.TwoCodes | upload/xorriso-1.4.6/libburn/cdtext.c:1714-1735 | a session of two blocks, all codes known, for which the two differ |
| Messages.ObtainOldest | upload/xorriso-1.4.6/libburn/libdax_msgs.c:403-434 | the oldest message that meets both limits is handed out; before it only the sufficiently severe stay, in order; later ones are untouched; without a match all low ones go |
| Messages.ObtainSays | upload/xorriso-1.4.6/libburn/libdax_msgs.c:403-434 | the same in comparisons alone: the first message with at least the severity and at least the priority; kept before it are, in order, exactly the messages with at least the severity |
| Messages.RunConserves | upload/xorriso-1.4.6/libburn/libdax_msgs.c:334-434 | over any sequence of calls, accepted messages are those queued, handed out and dropped, each once |
| Messages.RunKeepsOrder | upload/xorriso-1.4.6/libburn/libdax_msgs.c:334-434 | the queue is always a subsequence of the accepted messages |
| Messages.RunDropsForReason | upload/xorriso-1.4.6/libburn/libdax_msgs.c:416-424 | a dropped message had a severity below one that was asked for |
| Messages.NothingLost | upload/xorriso-1.4.6/libburn/libdax_msgs.c:334-434 | the three laws for any sequence of calls |
| MessageQueue.Item.constructor | upload/xorriso-1.4.6/libburn/libdax_msgs.c:31-64 | a new item linked behind the youngest one |
| MessageQueue.Queue.constructor | upload/xorriso-1.4.6/libburn/libdax_msgs.c:138-158 | an empty queue with one reference |
| MessageQueue.Queue.SetSeverities | upload/xorriso-1.4.6/libburn/libdax_msgs.c:236-247 | both limits are set, and the identification cut to 80 characters; the contents stay |
| MessageQueue.Queue.SubmitMessage | upload/xorriso-1.4.6/libburn/libdax_msgs.c:334-400 | messages that reach the queueing limit are appended to the doubly linked list, those that reach the printing limit are printed behind the identification, independently |
| MessageQueue.Queue.Unlink | upload/xorriso-1.4.6/libburn/libdax_msgs.c:68-84 | removing any item keeps a well-formed list of the remaining ones |
| MessageQueue.Queue.SkipLow | upload/xorriso-1.4.6/libburn/libdax_msgs.c:411-424 | deletion during the walk keeps the list well-formed and the walk on a live item |
| MessageQueue.Queue.ObtainMessage | upload/xorriso-1.4.6/libburn/libdax_msgs.c:403-434 | the list afterwards and the item are those of the specification; removed items are released, the item handed out is not |
| MessageQueue.Queue.Refer | upload/xorriso-1.4.6/libburn/libdax_msgs.c:225-233 | one reference more |
| MessageQueue.Queue.Destroy | upload/xorriso-1.4.6/libburn/libdax_msgs.c:191-222 | only the last reference releases the queue, and then every item |
| MessageQueue.Queue.DestroyItem | upload/xorriso-1.4.6/libburn/libdax_msgs.c:87-101 | an item of any chain is released and its two neighbours are joined |
| Subchannel.ChannelsUnique | upload/xorriso-1.4.6/libburn/read.c:246-257 | at most one channel array belongs to an interleaved array |
| Subchannel.RawUnique | upload/xorriso-1.4.6/libburn/sector.c:52-67 | at most one interleaved array belongs to a channel array |
| Subchannel.GatherByte | upload/xorriso-1.4.6/libburn/sector.c:52-67 | inner loop: one bit from each of eight channels |
| Subchannel.UncookSubs | upload/xorriso-1.4.6/libburn/sector.c:52-67 | bit by bit interleaving of eight channels of 96 bits; the source is shifted out to zero |
| Subchannel.ScatterByte | upload/xorriso-1.4.6/libburn/read.c:246-257 | inner loop: one bit to each of eight channels |
| Subchannel.Deinterleave | upload/xorriso-1.4.6/libburn/read.c:246-257 | the interleaving relation holds between its result and the data read, whatever the buffer held before |
| Subchannel.WriteAndRead | upload/xorriso-1.4.6/libburn/read.c:246-257 | reading what was written restores all 96 bytes |
| Subchannel.ReadAndWrite | upload/xorriso-1.4.6/libburn/sector.c:52-67 | writing what was read restores all 96 bytes |
| SectorStream.Source.Read | upload/xorriso-1.4.6/libburn/libburn.h:469-473 | a source that fills every request until its data end |
| SectorStream.TakeOffset | upload/xorriso-1.4.6/libburn/sector.c:107-234 | zeros before the data |
| SectorStream.TakeSource | upload/xorriso-1.4.6/libburn/sector.c:107-234 | bytes of the source until it ends |
| SectorStream.TakeTail | upload/xorriso-1.4.6/libburn/sector.c:107-234 | zeros after the data |
| SectorStream.TakeRest | upload/xorriso-1.4.6/libburn/sector.c:107-234 | zero padding when nothing is left |
| SectorStream.TakePayload | upload/xorriso-1.4.6/libburn/sector.c:107-234 | source bytes followed by tail and padding |
| SectorStream.GetBytes | upload/xorriso-1.4.6/libburn/sector.c:107-234 | whatever the requested count, the buffer receives the next window of offset zeros, source bytes, tail zeros and padding |
| SectorStream.NoteEnd | upload/xorriso-1.4.6/libburn/sector.c:107-234 | the two marks set at the end of data |
| SectorWriter.Drive.WriteBuffer | upload/xorriso-1.4.6/libburn/sector.c:238-269 | pending bytes become written ones; next address, counters and their sum are conserved |
| SectorWriter.Drive.GetSector | upload/xorriso-1.4.6/libburn/sector.c:276-308 | room for one sector, after a flush if the buffer is full; everything emitted before stays |
| SectorWriter.Drive.UngetSector | upload/xorriso-1.4.6/libburn/sector.c:313-334 | the reservation is taken back |
| SectorWriter.Drive.SectorData | upload/xorriso-1.4.6/libburn/sector.c:723-757 | one sector of the image is appended, or none at the end of an open-ended track, with all counters |
| SectorWriter.Enough | upload/xorriso-1.4.6/libburn/sector.c:723-757 | a number of sectors that covers n bytes while one less does not is the rounded up quotient |
| SectorWriter.NotEnough | upload/xorriso-1.4.6/libburn/sector.c:723-757 | until then it is at most that |
| SectorWriter.NextSector | upload/xorriso-1.4.6/libburn/write.c:1200-1252 | one round of the sector loop keeps the progress invariant |
| SectorWriter.Total | upload/xorriso-1.4.6/libburn/write.c:1200-1252 | when the loop ends, the number of sectors is that of the track specification |
| SectorWriter.Flush | upload/xorriso-1.4.6/libburn/write.c:1200-1252 | the last flush leaves no pending byte |
| SectorWriter.WriteTrack | upload/xorriso-1.4.6/libburn/write.c:1200-1252 | the medium receives exactly n whole sectors of the image, n being the planned number or, for open-ended tracks, the rounded up quotient; addresses and counters grow by n; after a failed write what was emitted is still a part of the image |
| SectorWriter.TrackSectorsSay | upload/xorriso-1.4.6/libburn/write.c:1200-1252 | the number of sectors of a track: the least that hold the image for an open ended track; as many as planned, or the least that hold it if less, for one that ends early; else as planned |
| SectorWriter.WrittenBytes | upload/xorriso-1.4.6/libburn/sector.c:107-234 | byte i of what is written: of the source behind the offset, else 0 |
| DeviceLock.EachInodeOnce | upload/xorriso-1.4.6/libburn/ddlpa.c:372-417 | of siblings with equal device and inode exactly one is opened, unless it is the main file |
| DeviceLock.EachDeviceExclusiveOnce | upload/xorriso-1.4.6/libburn/ddlpa.c:372-417 | if equal inodes imply equal device numbers, each device number other than that of the main file is opened with O_EXCL exactly once |
| DeviceLock.DeviceHeldExactly | upload/xorriso-1.4.6/libburn/ddlpa.c:380-406 | without any condition: a device number among the siblings, other than that of the main file, is held with O_EXCL if and only if the inode of its first sibling is neither that of the main file nor that of an earlier sibling |
| DeviceLock.IncoherentUnlocked | upload/xorriso-1.4.6/libburn/ddlpa.c:385-402 | two siblings with equal inode and different device numbers, of which the second is not opened |
| DeviceLock.Occupy | upload/xorriso-1.4.6/libburn/ddlpa.c:172-215 | on success one more locked descriptor, on failure none, and the reason for failing |
| DeviceLock.Lock.Examine | upload/xorriso-1.4.6/libburn/ddlpa.c:380-402 | the inner loop over earlier siblings decides to skip, and to do without O_EXCL |
| DeviceLock.Lock.OpenSibling | upload/xorriso-1.4.6/libburn/ddlpa.c:380-409 | one round of the loop |
| DeviceLock.Lock.OpenMain | upload/xorriso-1.4.6/libburn/ddlpa.c:410-417 | the main file last |
| DeviceLock.Lock.OpenAll | upload/xorriso-1.4.6/libburn/ddlpa.c:372-417 | success leaves the prescribed descriptors; failure has a reason outside |
| DeviceLock.Lock.Destroy | upload/xorriso-1.4.6/libburn/ddlpa.c:425-445 | every descriptor of the lock is closed, no other |
| DeviceLock.LockAll | upload/xorriso-1.4.6/libburn/ddlpa.c:448-477 | a successful lock holds exactly the prescribed descriptors; a failed one leaves no descriptor open |
| DeviceLock.LockMeaning | upload/xorriso-1.4.6/libburn/ddlpa.c:448-477 | then every sibling inode is locked by one descriptor and every device number held with O_EXCL by one |
| DeviceLock.CollectSiblings | upload/xorriso-1.4.6/libburn/ddlpa.c:245-330 | the siblings with the address of the main file, in order; too many of them, or a missing driver family, are errors |
| DeviceLock.SiblingsSay | upload/xorriso-1.4.6/libburn/ddlpa.c:280-319 | a file is among the siblings if and only if a standard path of type sr, scd or sg shows it with the host, channel, id and lun of the main file; the bus does not matter |
| WordParser.QuotedWords | upload/xorriso-1.4.6/frontend/frontend_pipes_xorriso.c:813-979 | inside any line whose rest is a sequence of quoted words, the rest parses to these words |
| WordParser.ParseQuoted | upload/xorriso-1.4.6/frontend/frontend_pipes_xorriso.c:813-979 | enclosing words in quotation marks that do not occur in them, single or double for each, joining them by blanks and parsing returns the words |
| WordParser.NextWord | upload/xorriso-1.4.6/frontend/frontend_pipes_xorriso.c:813-979 | one word of the line: plain stretches and quoted stretches joined, or an open quotation |
| WordParser.Advance | upload/xorriso-1.4.6/frontend/frontend_pipes_xorriso.c:813-979 | one round of the outer loop |
| WordParser.Measure | upload/xorriso-1.4.6/frontend/frontend_pipes_xorriso.c:813-979 | first pass: the number of words and an upper bound of their lengths |
| WordParser.Fill | upload/xorriso-1.4.6/frontend/frontend_pipes_xorriso.c:813-979 | second pass: every word fits its slot and is stored there with closing 0 |
| WordParser.MakeArgv | upload/xorriso-1.4.6/frontend/frontend_pipes_xorriso.c:813-979 | both passes agree; the slots hold the words |
| WordParser.ParseLine | upload/xorriso-1.4.6/frontend/frontend_pipes_xorriso.c:646-684 | prefix test, error for an open quotation, words otherwise |
| WordParser.ParseWhatWasQuoted | upload/xorriso-1.4.6/frontend/frontend_pipes_xorriso.c:646-684 | the method returns exactly the words that were quoted |
| WrittenWords.WordRead | upload/xorriso-1.4.6/frontend/frontend_pipes_xorriso.c:872-944 | a word of any plain and quoted stretches in front of a separator or the end is read as these stretches without the marks |
| WrittenWords.WrittenLine | upload/xorriso-1.4.6/frontend/frontend_pipes_xorriso.c:852-962 | a line of words, each of plain and quoted stretches, with any runs of blank, TAB, LF, VT, FF, CR or of given separators around them, yields these words; with a limit and more words the first ones and, as the last one, the line from the start of the next word on, unchanged |
| WrittenWords.ParseWritten | upload/xorriso-1.4.6/frontend/frontend_pipes_xorriso.c:646-680 | the same for the whole call behind a prefix: what stands in the slots, the program name first if wanted |
| WrittenWords.OpenMark | upload/xorriso-1.4.6/frontend/frontend_pipes_xorriso.c:886-891 | a quotation that is not closed gives no words, unless the limit comes before it |

## Left out

- FifoSafety.Safety: speaks of runs in which all requests have one size that divides the read size; for other sizes the reader does go wrong (`FifoExact.StreamCorrectExactly`), and what stays true of the shoveller is `FifoPositions.FeederKeepsOff`.
- FifoSafety.ZeroMeansEverything: assumes a source that fills every request but the last, as `libburn.h:469-473` demands.
- FifoLargeReads.LargeReadsSafeExactly: requests that do not divide 32 KiB; and no theorem on the stream is stated for chunks that cross the buffer end.
- FifoProgress.CanComplete: states that completion is reachable and the work bounded; fairness of the thread scheduler is not modelled.
- Fifo: thread start and cancellation, statistics (fill counters, `empty_counter`, `full_counter`, `put_counter`, `get_counter`), peeking, and the status inquiry.
- Fifo: memory order below the level of single reads and writes of the shared integers; integer overflow of positions, which the 1 GB limit excludes.
- RspcTables.SetupTables: the literal tables gfpow, gflog, h26 and h45 of the C file are represented by the recurrence that generated them; so is the scrambler table in RspcSector.GenerateScrambler.
- RspcSector.SectorHeaders: EDC bytes are set to zero as with the compile time choice `Libburn_no_crc_C`; `crc.c` is not part of this model.
- POLER key schedule, pseudo random generator, attractor, wide automaton cycle, and every statistical claim on the cipher: no functional law is promised for them.
- Kernel module plumbing of `poler_lkm.c`: device registration, copies from user space, fixed vectors.
- CD-TEXT: the reader of v07t sheets and of pack files, which are line input and string dispatch.
- CdTextPrinter.Printer.ReportGenre: names of genres and languages are parameters of the model, since they are literal tables.
- CdTextRoundTrip.RoundTrip: types 0x86 to 0x8d hold texts of the session only; see `CdTextPicking.StreamHolds`, `CdTextSheetTells.BlockTold` and `CdTextSheetTells.CatalogTold`.
- CdTextRoundTrip.Regular: texts of both widths within one type, and texts with a 0 inside; no exact condition is stated for them.
- CdTextCursor.CdtextFromSession: allocation failure and the text of error messages.
- CdTextPrinter.Printer.MakeInputSheet: the character code that is set when the call fails.
- CdTextReport.SheetShowsTexts: types whose texts are not regular; for them `CdTextTable.BlockParts` and `CdTextPicking.PicksTexts` speak of the payload alone.
- WrittenWords.OpenMark: speaks of the word that is being read, not of a whole line with other words before it.
- MessageQueue.Queue.SubmitMessage: the wording of printed lines, time stamps, process ids, allocation failure; each call is one atomic step, as its mutex makes it.
- `libiso_msgs.c`: a near copy of the message handling.
- SectorStream.Source.Read: errors of the source; `sector.c:152-155` treats them like the end of the data.
- SectorStream.GetBytes: a following source in the same track, and the swapping of source bytes.
- SectorWriter.Drive.SectorData: conversion between modes, sub-channel blocks and headers inside a sector.
- SectorWriter.Drive.WriteBuffer: the SCSI transport is a parameter that says how many more writes succeed; the progress display.
- Subchannel: Q sub-channel content and its checksum.
- DeviceLock.Occupy: access modes, paths, stat and ioctl are values; the kernel is a table of open files with exclusive opens and inode locks, and a parameter for failures of other origin.
- DeviceLock.LockAll: the search for the standard path and its errors; a path that is not SCSI is the case without siblings.
- DeviceLock.CollectSiblings: the errors of the calls that ask for the address of the main file.
- WordParser.NextWord: conversion of backslash codes (modes 1 to 3).
- WordParser.MakeArgv: the dash put before a first word, the mode that only checks quotation marks, the closing NULL element.
- WordParser.ParseLine: the look at the byte before the line which the C code takes when the program name alone fills the limit of words.
- SCSI and MMC commands, signals, drive scanning, the file server and the retry loops of `read.c`: they depend on callbacks or the operating system.
