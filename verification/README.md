# Verified model of the ALOE 5G transport chain and its runtime

A Dafny model of the parts of ALOE (2025_05_17) where correctness is hardest to see from the code:
the CRC engine and LDPC code-block chain of the 5G modules (sections 5.1, 5.2.2, 7.2.1 and 7.2.2 of
3GPP TS 38.212), the object status handshake, the shared-memory slot pool, the per-core semaphore chain,
the time-stamped message queues, the string data packets and the PDSCH delay buffer.

`dafny verify dfyconfig.toml` checks the whole project.

## How it is built

| modules | what they hold |
|---|---|
| `BitStrings`, `PolynomialRing`, `CyclicCode`, `Division`, `SquaringMap` | bit strings as C words (every width explicit), GF(2)[x] modulo a generator of any degree, bit-serial division as the reference definition, codewords as multiples of the generator |
| `CrcEngine`, `Polynomials`, `SquareRoot`, `OneBitPerByte` | the table-driven engine with its 64-bit register, the three generators, and the check of a block stored one bit per char |
| `Rounding`, `Segmentation`, `CodeBlocks`, `CodeBlockChain`, `Interfaces`, `WorkChain`, `WorkOutput`, `BlockErrors`, `BurstChain` | segmentation arithmetic, the transmitter, the receiver, the two joined directly and through the module interfaces, and what the receiver notices of transmission errors |
| `TransportCrc` | the transport-block CRC module on top of the engine |
| `Handshake`, `Stepping` | three status operations, all their interleavings, and the STEP path of Status() |
| `SlotPool` | mem_alloc, mem_calloc, mem_free |
| `TokenChain`, `Scheduler` | the counting model of the semaphores and the in-place operations it abstracts |
| `TimedQueue` | send and selective receive over a message queue (msgrcv as in POSIX.1-2017) |
| `Params`, `StrSet`, `StrData` | values to text, the linked list, and the wire format |
| `DelayBuffer` | the two rings and work() in buffer mode |

Methods that change arrays or fields follow the C code statement by statement and are proved against
functions; lemmas about those functions and over all runs state what the system promises.

Where the code departs from what one would expect, the model follows the code:

- A request for the status an object already has is accepted and then blocks the record until a forced
  request comes (`Handshake.WedgedUntilForced`, `Handshake.FreeAgainIffDifferent`).
- work() sends at most eight code blocks and gathers only seven, the eighth input being the control data:
  longer transport blocks do not come out (`WorkOutput.OutputIsInputIff`, `WorkChain.NineCodeBlocks`), and while the
  receiver's buffer still holds zeros nothing is counted wrong (`WorkChain.ZerosGoUnnoticed`).
- aloe_5GCheckCRC unpacks K*C bytes instead of K*C/8: it reads behind its input and for the longest blocks
  writes behind its array (`Segmentation.ReadsPastIff`, `Segmentation.UnpackFitsIff`).
- Status() runs an object twice for one STEP if the clock drops behind its PAUSE request
  (`Stepping.StepRunsOnceIff` gives the exact condition, `Stepping.ClockBackRunsTwice` a run).
- mem_alloc of zero bytes with slot 0 taken hands out an empty range (`SlotPool.Pool.Alloc`).
- string data packets lose a string that contains "||" or ends in "|" (`StrData.Transfer`).
- The delay buffer never checks for room (`DelayBuffer.KeptIffRoom`), and its length ring has ten places
  (`DelayBuffer.DelayIff` gives the exact condition, `DelayBuffer.EleventhBlockTooLong` an input).
- aloe_ComputeCodeBlockSegmentation above 125000 bits reports -1 and goes on computing; otherwise the value
  it returns is never set (`Segmentation.CbInfo.Compute`, parameter `unset`).
- With one code block CBsize need not be a multiple of 8 and the last bits of the zero filler are not sent
  (`CodeBlocks.SingleBlock`).
- strdata_pop returns 0 both for a value and for an empty list (`StrData.Packet.Pop`).

## Model

| member | source | states |
|---|---|---|
| WorkOutput.OutputIsInputIff | ALOE_2025_05_17/modules/5G_CODE_BLOCK/src/5G_CODE_BLOCK.c:139-273 | End to end through the interfaces, for every transport block up to 125000 bits and code rate: whatever the receiver's buffer held before, every output of the check begins with the transport block, if and only if it is at most 58968 bits long on graph 1 or 26712 on graph 2 |
| WorkOutput.NeverComesOut | ALOE_2025_05_17/modules/5G_CODE_BLOCK/src/5G_CODE_BLOCK.c:206-254 | For every longer transport block there is an earlier buffer content with which no output of the check begins with it |
| WorkOutput.ComesOut | ALOE_2025_05_17/modules/5G_CODE_BLOCK/src/5G_CODE_BLOCK.c:206-254 | For the others every output begins with it, whatever the buffer held |
| WorkOutput.SendJob | ALOE_2025_05_17/modules/5G_CODE_BLOCK/src/5G_CODE_BLOCK.c:183-215 | The transmit mode leaves every transport block in the state that theorem starts from |
| WorkOutput.ReceiveJob | ALOE_2025_05_17/modules/5G_CODE_BLOCK/src/5G_CODE_BLOCK.c:235-254 | The receive mode, from any buffer content, puts out an output of the check of what it gathered |
| WorkChain.WorkBothEnds | ALOE_2025_05_17/modules/5G_CODE_BLOCK/src/5G_CODE_BLOCK.c:139-273 | work() at both ends, for every transport block of n bytes (8n <= 125000) and code rate: the receiver holds exactly the first min(7, C) of the sent code blocks and what its buffer held before behind them, its output and statistics are those of the check of that, and if 8n is at most 58968 (graph 1) or 26712 (graph 2) its first n bytes are the transmitter's and no error statistic moves |
| WorkChain.BlocksArriveIff | ALOE_2025_05_17/modules/5G_CODE_BLOCK/src/5G_CODE_BLOCK.c:195-242 | Whatever the receiver's buffer held before, the gathered bytes begin with all that was sent if and only if the transport block is at most 58968 bits on graph 1 or 26712 on graph 2 |
| WorkChain.NineCodeBlocks | ALOE_2025_05_17/modules/5G_CODE_BLOCK/src/5G_CODE_BLOCK.c:200-242 | 9000 bytes at rate 1/2 make nine code blocks, and for some earlier buffer content they do not arrive |
| WorkChain.EightCodeBlocks | ALOE_2025_05_17/modules/5G_CODE_BLOCK/src/5G_CODE_BLOCK.c:206-242 | 60000 bits at rate 1/2 make eight code blocks: all sent, the last never gathered |
| WorkChain.ZerosGoUnnoticed | ALOE_2025_05_17/modules/5G_CODE_BLOCK/src/5G_CODE_BLOCK.c:238-253 | While the receiver's buffer still holds its initial zeros, code blocks that never arrived are not counted wrong and their data read as zeros |
| WorkChain.WorkTx | ALOE_2025_05_17/modules/5G_CODE_BLOCK/src/5G_CODE_BLOCK.c:183-215 | The transmit mode: buffer of code blocks as specified, one block on each of the first eight interfaces |
| WorkChain.WorkRx | ALOE_2025_05_17/modules/5G_CODE_BLOCK/src/5G_CODE_BLOCK.c:235-254 | The receive mode: buffer after gathering seven inputs; of that, the blocks that are not codewords noted once each and every data field in the output; returns the announced size |
| Interfaces.PutOnInterfaces | ALOE_2025_05_17/modules/5G_CODE_BLOCK/src/5G_CODE_BLOCK.c:195-215 | Interface j carries code block j and its length for j < min(C, 8), the others length 0 |
| Interfaces.Concatenate | ALOE_2025_05_17/modules/5G_CODE_BLOCK/src/5G_CODE_BLOCK.c:238-242 | The first seven inputs copied behind each other; the rest of the buffer keeps what it held |
| Interfaces.GatheredIs | ALOE_2025_05_17/modules/5G_CODE_BLOCK/src/5G_CODE_BLOCK.c:206-242 | Gathered after sending: the first min(7, C) code blocks, then the old content |
| Interfaces.ArrivesIff | ALOE_2025_05_17/modules/5G_CODE_BLOCK/src/5G_CODE_BLOCK.c:206-242 | All code blocks arrive whatever the buffer held before if and only if there are at most seven |
| CodeBlockChain.TransmitThenReceive | ALOE_2025_05_17/modules/5G_CODE_BLOCK/src/5G_CODE_BLOCK_functions.c:113-786 | The functions joined by one buffer, without interfaces: for every transport block of n bytes (8n <= 125000) and every code rate the checker's first n bytes are the creator's, none of the error statistics moves, and the input is untouched |
| CodeBlockChain.Transmit | ALOE_2025_05_17/modules/5G_CODE_BLOCK/src/5G_CODE_BLOCK.c:183-192 | The TX branch: parameters from the length and rate, then a buffer of CBsize*C/8 bytes whose bits are exactly the segmented, CRC-extended payload starting with the input bits |
| CodeBlockChain.Receive | ALOE_2025_05_17/modules/5G_CODE_BLOCK/src/5G_CODE_BLOCK.c:245-254 | The RX branch behind the gathering: parameters from the announced size; the blocks noted are exactly those of several that are not codewords, once each in count, list and histogram; every data field follows in the output; the announced size is returned |
| CodeBlockChain.EndToEnd | ALOE_2025_05_17/modules/5G_CODE_BLOCK/src/5G_CODE_BLOCK_functions.c:695-786 | What the checker leaves behind on a buffer that starts with what the creator wrote: the original bytes, and statistics unchanged |
| CodeBlockChain.RoundTrip | ALOE_2025_05_17/modules/5G_CODE_BLOCK/src/5G_CODE_BLOCK_functions.c:574-786 | Creating and checking are inverse on bits for one block (no CRC of its own) and for many: no block is wrong and the payload comes back |
| CodeBlockChain.FlattenInjective | ALOE_2025_05_17/modules/5G_CODE_BLOCK/src/5G_CODE_BLOCK_functions.c:982-1002 | Different byte buffers have different bits, so equality of bits is equality of bytes |
| OneBitPerByte.FlattenAsBytes | ALOE_2025_05_17/modules/5G_CODE_BLOCK/src/5G_CODE_BLOCK_functions.c:742-748 | A block held one bit per char, read as bytes, is the polynomial M(x^8) |
| OneBitPerByte.CheckIsSound | ALOE_2025_05_17/modules/5G_CODE_BLOCK/src/5G_CODE_BLOCK_functions.c:742-757 | For any generator with constant term 1 the byte-wise check of a codeword held one bit per char is zero: M(x^8) = M(x)^8 |
| SquareRoot.Crc24BHasRootOfX | ALOE_2025_05_17/modules/5G_CODE_BLOCK/src/5G_CODE_BLOCK_functions.c:44 | x has a square root modulo CRC24B (the proof takes x^23 + x^12 + x^5 + x^3 + 1) |
| OneBitPerByte.CheckIsExact | ALOE_2025_05_17/modules/5G_CODE_BLOCK/src/5G_CODE_BLOCK_functions.c:742-757 | For CRC24B that check is zero if and only if the generator divides M(x): checking M(x^8) neither rejects a good block nor accepts a bad one |
| SquaringMap.SquaringIsInjective | ALOE_2025_05_17/modules/5G_CODE_BLOCK/src/5G_CODE_BLOCK_functions.c:742-757 | Squaring residues is one-to-one whenever x has a square root, because it then maps the finite set of residues onto itself |
| PolynomialRing.RemOfSpread | ALOE_2025_05_17/modules/5G_CODE_BLOCK/src/5G_CODE_BLOCK_functions.c:742-757 | The remainder of p(x^2) is the square of the remainder of p(x), for every generator |
| PolynomialRing.SquareIsSpread | ALOE_2025_05_17/modules/5G_CODE_BLOCK/src/5G_CODE_BLOCK_functions.c:742-757 | Over GF(2) the cross terms of a square cancel: p(x) times the residue of p(x) is the residue of p(x^2) |
| PolynomialRing.MulCommutes | ALOE_2025_05_17/modules/5G_CODE_BLOCK/src/5G_CODE_BLOCK_functions.c:742-757 | Multiplication modulo the generator commutes |
| Division.DivisionIdentity | ALOE_2025_05_17/modules/5G_CODE_BLOCK/src/5G_CODE_BLOCK_functions.c:790-820 | The register is a true remainder: p(x) = quotient(x) * G(x) + remainder(x), with the quotient made of the bits that leave the register |
| Division.CodewordIsMultiple | ALOE_2025_05_17/modules/5G_CODE_BLOCK/src/5G_CODE_BLOCK_functions.c:972-979 | A bit string has remainder zero if and only if it is a multiple of the generator |
| CyclicCode.CheckAcceptsParityOnly | ALOE_2025_05_17/modules/5G_CODE_BLOCK/src/5G_CODE_BLOCK_functions.c:955-979 | Add/check law: the check value of data and trailer is zero if and only if the trailer is the CRC of the data |
| CyclicCode.CheckCatchesBurst | ALOE_2025_05_17/modules/5G_CODE_BLOCK/src/5G_CODE_BLOCK_functions.c:955-979 | Flipping any non-zero burst of at most `order` consecutive bits anywhere in data and trailer makes the check value non-zero |
| CyclicCode.BurstDetected | ALOE_2025_05_17/modules/5G_CODE_BLOCK/src/5G_CODE_BLOCK_functions.c:972-979 | The same for any codeword: a codeword plus such a burst is not a codeword |
| CyclicCode.CheckIsDivisibility | ALOE_2025_05_17/modules/5G_CODE_BLOCK/src/5G_CODE_BLOCK_functions.c:972-979 | Running the parity computation over the whole received word tests divisibility by the generator |
| CyclicCode.CodewordLaw | ALOE_2025_05_17/modules/5G_CODE_BLOCK/src/5G_CODE_BLOCK_functions.c:955-979 | Data followed by a field is divisible by the generator if and only if the field is the CRC |
| CyclicCode.TableStep | ALOE_2025_05_17/modules/5G_CODE_BLOCK/src/5G_CODE_BLOCK_functions.c:815-817 | Looking up the byte that leaves the register does the work of eight bit-serial steps |
| CyclicCode.CrcOfAppend | ALOE_2025_05_17/modules/5G_CODE_BLOCK/src/5G_CODE_BLOCK_functions.c:815-817 | Closed form of feeding k more message bits into the top of the register |
| CyclicCode.UntimesNInverts | ALOE_2025_05_17/modules/5G_CODE_BLOCK/src/5G_CODE_BLOCK_functions.c:822-831 | The backward step undoes the zero-input forward step, any number of times, when the generator has constant term 1 |
| CyclicCode.BackOverPadding | ALOE_2025_05_17/modules/5G_CODE_BLOCK/src/5G_CODE_BLOCK_functions.c:904-923 | Zero padding and running back over the padding gives the CRC of exactly the unpadded bits |
| CrcEngine.CrcParams.GenCrcTable | ALOE_2025_05_17/modules/5G_CODE_BLOCK/src/5G_CODE_BLOCK_functions.c:790-804 | Every one of the 256 entries is the CRC of its index byte |
| CrcEngine.CrcParams.TableEntry | ALOE_2025_05_17/modules/5G_CODE_BLOCK/src/5G_CODE_BLOCK_functions.c:794-803 | The inner loop over an unmasked 64-bit word, with the sign-extended polynomial, computes the CRC of one byte |
| CrcEngine.DividerStep | ALOE_2025_05_17/modules/5G_CODE_BLOCK/src/5G_CODE_BLOCK_functions.c:797-800 | Shift and conditional xor of the 64-bit word act on its low `order` bits as one step of the divider |
| CrcEngine.CrcParams.SetInit | ALOE_2025_05_17/modules/5G_CODE_BLOCK/src/5G_CODE_BLOCK_functions.c:833-840 | The value is stored in every case; 0 is returned if and only if it fits the register |
| CrcEngine.CrcParams.SetXor | ALOE_2025_05_17/modules/5G_CODE_BLOCK/src/5G_CODE_BLOCK_functions.c:842-849 | The same for the final xor value |
| CrcEngine.CrcParams.Init | ALOE_2025_05_17/modules/5G_CODE_BLOCK/src/5G_CODE_BLOCK_functions.c:852-875 | For any polynomial word and order 1 to 64: 0 if and only if the order is a multiple of 8, and then masks and table are ready with zero initial value and final xor |
| CrcEngine.CrcParams.CrcTable | ALOE_2025_05_17/modules/5G_CODE_BLOCK/src/5G_CODE_BLOCK_functions.c:807-820 | The table CRC with its never-masked register is the bit-serial remainder plus the initial value times x^(8*length), plus the final xor, for every message, order, initial value and final xor |
| CyclicCode.InitialValue | ALOE_2025_05_17/modules/5G_CODE_BLOCK/src/5G_CODE_BLOCK_functions.c:807-820 | A non-zero initial value is an initial value of zero with that value added to the first bits of the message |
| CrcEngine.CrcParams.RegisterStep | ALOE_2025_05_17/modules/5G_CODE_BLOCK/src/5G_CODE_BLOCK_functions.c:815-817 | Loop invariant: the low `order` bits of the 64-bit register are the CRC so far plus the initial value carried along |
| CrcEngine.CrcParams.ReverseCrcBit | ALOE_2025_05_17/modules/5G_CODE_BLOCK/src/5G_CODE_BLOCK_functions.c:822-831 | n backward steps on a 32-bit word, then final xor and mask |
| CrcEngine.BackwardStep | ALOE_2025_05_17/modules/5G_CODE_BLOCK/src/5G_CODE_BLOCK_functions.c:826-829 | Conditional xor and right shift of the 32-bit word are the backward step on the low `order` bits |
| CrcEngine.CrcParams.CrcAttach | ALOE_2025_05_17/modules/5G_CODE_BLOCK/src/5G_CODE_BLOCK_functions.c:893-931 | For every length from 8 bits up to MAX_LENGTH (and 0) the exact CRC of exactly `len` bits is returned and stored behind them, nothing else changes; longer ones return -1 and change nothing |
| CrcEngine.CrcParams.AttachedCrc | ALOE_2025_05_17/modules/5G_CODE_BLOCK/src/5G_CODE_BLOCK_functions.c:904-924 | Packing, padding, table and backward steps together give the CRC of exactly the `len` bits |
| CrcEngine.CrcParams.AddCrc | ALOE_2025_05_17/modules/5G_CODE_BLOCK/src/5G_CODE_BLOCK_functions.c:955-970 | The trailer is the big-endian CRC of the data bytes; data and everything behind the trailer are untouched |
| CrcEngine.CrcParams.CheckCrc | ALOE_2025_05_17/modules/5G_CODE_BLOCK/src/5G_CODE_BLOCK_functions.c:972-979 | The check value is the CRC over all received bytes, as an int: its low 32 bits |
| CrcEngine.PackBits | ALOE_2025_05_17/modules/5G_CODE_BLOCK/src/5G_CODE_BLOCK_functions.c:933-941 | Writes the n low bits most significant first and nothing else |
| CrcEngine.UnpackBits | ALOE_2025_05_17/modules/5G_CODE_BLOCK/src/5G_CODE_BLOCK_functions.c:943-953 | Reads n bits most significant first |
| Polynomials.Crc24BValue | ALOE_2025_05_17/modules/5G_CODE_BLOCK/src/5G_CODE_BLOCK_functions.c:44 | The CRC24B generator is the configured constant 0x1800063 |
| Polynomials.Crc24AValue | ALOE_2025_05_17/modules/5G_CODE_BLOCK/src/5G_CODE_BLOCK_functions.c:49 | The CRC24A generator is the configured constant 0x1864CFB |
| Polynomials.Crc16Value | ALOE_2025_05_17/modules/5G_CODE_BLOCK/src/5G_CODE_BLOCK_functions.c:55 | The CRC16 generator is the configured constant 0x11021 |
| Segmentation.CbInfo.Compute | ALOE_2025_05_17/modules/5G_CODE_BLOCK/src/5G_CODE_BLOCK_functions.c:154-236 | In numbers, for every size and rate: base graph 2 for at most 292 bits, at most 3824 at rate 0.67, or rate 0.25, else 1; one block up to 3840 or 8448 bits, else the least number with 24 CRC bits each; fewer than one filler bit a block; CBsize 22 or 10 times the least a*2^j up to 384 that holds K1 bits in the 22, 10, 9, 8 or 6 columns of the length; the error value is -1 above 125000 bits and whatever the variable held otherwise |
| Segmentation.SegmentationIsUnique | ALOE_2025_05_17/modules/5G_CODE_BLOCK/src/5G_CODE_BLOCK_functions.c:113-249 | Size and code rate determine all five parameters, so both ends agree |
| Segmentation.CountBlocks | ALOE_2025_05_17/modules/5G_CODE_BLOCK/src/5G_CODE_BLOCK_functions.c:174-184 | C is the least count with C*(Kcb-L) >= B when B > Kcb (else 1, without CRC), K1 <= Kcb, and C*(K1-L) is at least B and less than B+C |
| Segmentation.ChooseLifting | ALOE_2025_05_17/modules/5G_CODE_BLOCK/src/5G_CODE_BLOCK_functions.c:188-236 | The chosen Zc is the least table size with Kb*Zc >= K1; CBsize >= K1, and CBsize is a multiple of 8 whenever C > 1 |
| Segmentation.FindLifting | ALOE_2025_05_17/modules/5G_CODE_BLOCK/src/5G_CODE_BLOCK_functions.c:203-216 | The scan ends at the least size of the table that is large enough |
| Segmentation.LiftingLaw | ALOE_2025_05_17/modules/5G_CODE_BLOCK/src/5G_CODE_BLOCK_functions.c:39 | The table holds exactly the sizes a*2^j up to 384 with a in 2, 3, 5, 7, 9, 11, 13, 15 |
| Segmentation.TableEntry | ALOE_2025_05_17/modules/5G_CODE_BLOCK/src/5G_CODE_BLOCK_functions.c:39 | Every lifting size is at most 384 and a multiple of 16 above 192 |
| Segmentation.SegmentationMeans | ALOE_2025_05_17/modules/5G_CODE_BLOCK/src/5G_CODE_BLOCK_functions.c:154-236 | The specification of the parameters in numbers |
| Segmentation.SingleCeilIsExact | ALOE_2025_05_17/modules/5G_CODE_BLOCK/src/5G_CODE_BLOCK_functions.c:181-184 | The ceiling of a quotient that is exact when integral and otherwise within half a unit in the last place of single precision is the integer ceiling for every numerator below 2^24 |
| CodeBlocks.CreateCodeBlocks | ALOE_2025_05_17/modules/5G_CODE_BLOCK/src/5G_CODE_BLOCK_functions.c:574-691 | The payload starts with the B input bits; one block is sent as its bits and zeros, of several each as its piece of the payload, the CRC24B of that and zeros |
| CodeBlocks.CarriesMeans | ALOE_2025_05_17/modules/5G_CODE_BLOCK/src/5G_CODE_BLOCK_functions.c:615-667 | What the specification of the sent bits says of each block |
| CodeBlocks.WholeBlock | ALOE_2025_05_17/modules/5G_CODE_BLOCK/src/5G_CODE_BLOCK_functions.c:617-623 | Every sent block is its piece of the payload, its parity and zeros |
| CodeBlocks.DataField | ALOE_2025_05_17/modules/5G_CODE_BLOCK/src/5G_CODE_BLOCK_functions.c:754 | Data field i of the output is the start of received block i |
| CodeBlocks.EmitBlocks | ALOE_2025_05_17/modules/5G_CODE_BLOCK/src/5G_CODE_BLOCK_functions.c:615-667 | Both branches, C > 1 and C = 1 |
| CodeBlocks.SingleBlock | ALOE_2025_05_17/modules/5G_CODE_BLOCK/src/5G_CODE_BLOCK_functions.c:649-667 | The one block: K1 bits, zeros to K, whole bytes only |
| CodeBlocks.FillAll | ALOE_2025_05_17/modules/5G_CODE_BLOCK/src/5G_CODE_BLOCK_functions.c:617-623 | The loop writes the c blocks one behind the other |
| CodeBlocks.FillBlock | ALOE_2025_05_17/modules/5G_CODE_BLOCK/src/5G_CODE_BLOCK_functions.c:619-622 | One block is data, its CRC24B and zeros, and earlier blocks stay |
| CodeBlocks.Byte2BitsLsbf | ALOE_2025_05_17/modules/5G_CODE_BLOCK/src/5G_CODE_BLOCK_functions.c:982-990 | Up to 8 bits of a byte, most significant first, with nothing else changed |
| CodeBlocks.Bits2ByteLsbf | ALOE_2025_05_17/modules/5G_CODE_BLOCK/src/5G_CODE_BLOCK_functions.c:992-1002 | The inverse, left-aligned |
| CodeBlocks.UnpackAll | ALOE_2025_05_17/modules/5G_CODE_BLOCK/src/5G_CODE_BLOCK_functions.c:606-610 | The input bytes become their bits |
| CodeBlocks.PackAll | ALOE_2025_05_17/modules/5G_CODE_BLOCK/src/5G_CODE_BLOCK_functions.c:642-646 | The bits become bytes |
| CodeBlocks.BlocksAreRight | ALOE_2025_05_17/modules/5G_CODE_BLOCK/src/5G_CODE_BLOCK_functions.c:617-757 | Round trip on the specification: cutting a payload into CRC-extended blocks and checking them finds none wrong and gives every data field back |
| CodeBlocks.CheckBits | ALOE_2025_05_17/modules/5G_CODE_BLOCK/src/5G_CODE_BLOCK_functions.c:745-748 | The check value of one block held one bit per char is zero if and only if the block is a codeword |
| CodeBlocks.CountBlock | ALOE_2025_05_17/modules/5G_CODE_BLOCK/src/5G_CODE_BLOCK_functions.c:745-753 | A block is noted if and only if it is not a codeword |
| CodeBlocks.CheckBlocks | ALOE_2025_05_17/modules/5G_CODE_BLOCK/src/5G_CODE_BLOCK_functions.c:742-757 | The loop keeps every data field and notes exactly the blocks that are not codewords, in order, each once in count, list and histogram |
| CodeBlocks.CheckCodeBlocks | ALOE_2025_05_17/modules/5G_CODE_BLOCK/src/5G_CODE_BLOCK_functions.c:695-786 | The whole checker, whatever the overlong unpack loop reads behind the input: the blocks noted are, in order, exactly those of several that are not codewords; count, list and histogram grow by them and by nothing else; every data field of the input follows in the output |
| CodeBlocks.UnpackBeyond | ALOE_2025_05_17/modules/5G_CODE_BLOCK/src/5G_CODE_BLOCK_functions.c:720-723 | The unpack loop over K*C bytes: the bits of the input, and nothing said of what lies behind it |
| CodeBlocks.InitCodeBlock | ALOE_2025_05_17/modules/5G_CODE_BLOCK/src/5G_CODE_BLOCK_functions.c:64-74 | The three set-up calls report no error and leave CRC24B ready |
| Segmentation.UnpackFitsIff | ALOE_2025_05_17/modules/5G_CODE_BLOCK/src/5G_CODE_BLOCK_functions.c:720-723 | The 8*K*C bits the loop writes fit the 1000000 places of the array if and only if the block is at most 117936 bits on graph 1 or 122112 on graph 2 |
| Segmentation.TooLongToUnpack | ALOE_2025_05_17/modules/5G_CODE_BLOCK/src/5G_CODE_BLOCK_functions.c:720-723 | 120000 bits at code rate 1/2 do not fit |
| Segmentation.ReadsPastIff | ALOE_2025_05_17/modules/5G_CODE_BLOCK/src/5G_CODE_BLOCK_functions.c:720-723 | The K*C bytes the loop reads exceed the 20480 of the input buffer if and only if the block is more than 18936 bits on graph 1 or 19080 on graph 2 |
| Segmentation.TotalSize | ALOE_2025_05_17/modules/5G_CODE_BLOCK/src/5G_CODE_BLOCK_functions.c:174-236 | At most 33 code blocks and 15840 bytes in all up to 125000 bits, so the 20480 bytes of the module buffers suffice |
| Segmentation.SevenIff | ALOE_2025_05_17/modules/5G_CODE_BLOCK/src/5G_CODE_BLOCK_functions.c:174-184 | At most seven code blocks if and only if at most 58968 bits on graph 1, 26712 on graph 2 |
| Segmentation.AtMostIff | ALOE_2025_05_17/modules/5G_CODE_BLOCK/src/5G_CODE_BLOCK_functions.c:174-184 | At most n code blocks if and only if at most n*(Kcb-L) bits, for every n from 2 |
| CodeBlocks.CbStatist.Count | ALOE_2025_05_17/modules/5G_CODE_BLOCK/src/5G_CODE_BLOCK_functions.c:749-752 | One wrong block: list entry, count and histogram |
| BlockErrors.BurstIsCounted | ALOE_2025_05_17/modules/5G_CODE_BLOCK/src/5G_CODE_BLOCK_functions.c:742-757 | A non-zero burst of flipped bits no longer than the parity, anywhere in the checked part of one block makes the receiver count that block and no other |
| CodeBlocks.WrongIff | ALOE_2025_05_17/modules/5G_CODE_BLOCK/src/5G_CODE_BLOCK_functions.c:742-757 | The list of wrong blocks is increasing and holds a block if and only if its first K1 bits are not a codeword |
| CodeBlocks.CheckedMeans | ALOE_2025_05_17/modules/5G_CODE_BLOCK/src/5G_CODE_BLOCK_functions.c:742-784 | After the check: the noted list is increasing and holds i if and only if there are several blocks and the first K1 bits of block i are not a codeword; count, list and histogram grew by exactly these; every data field is handed on |
| BurstChain.TransmitBurstReceive | ALOE_2025_05_17/modules/5G_CODE_BLOCK/src/5G_CODE_BLOCK.c:183-254 | Transmit, a burst of at most 24 flipped bits in the checked part of block b of several, receive: the count of wrong blocks grows by one, the list starts with b, the histogram grows by one at b, and nothing else in the statistics changes |
| BurstChain.BurstIsNoted | ALOE_2025_05_17/modules/5G_CODE_BLOCK/src/5G_CODE_BLOCK_functions.c:742-757 | The same of the check alone, on any input that begins with the sent bits hit by the burst |
| BlockErrors.SentBlock | ALOE_2025_05_17/modules/5G_CODE_BLOCK/src/5G_CODE_BLOCK_functions.c:617-623 | Each block of the sent bits starts with its piece of the payload and the CRC of that piece |
| TransportCrc.GeneratorsAgree | ALOE_2025_05_17/modules/5G_CRC_PDSCH/src/5G_CRC_PDSCH.c:161-227 | For every data length and every Kcb >= 16 the checker, which only sees the longer received length, picks the generator the adder picked |
| TransportCrc.CrcModule.Configure | ALOE_2025_05_17/modules/5G_CRC_PDSCH/src/5G_CRC_PDSCH.c:178-180 | The three set-up calls succeed and leave a ready table for the generator |
| TransportCrc.CrcModule.WorkAdd | ALOE_2025_05_17/modules/5G_CRC_PDSCH/src/5G_CRC_PDSCH.c:155-190 | Output is the data followed by its CRC24A for more than 3824 bits and its CRC16 otherwise; no data, no output |
| TransportCrc.CrcModule.WorkCheck | ALOE_2025_05_17/modules/5G_CRC_PDSCH/src/5G_CRC_PDSCH.c:217-240 | Data part out, with 3 bytes fewer above 480 received bytes and 2 otherwise, and the block counts as not OK if and only if the received word is not a codeword of CRC24A or CRC16; for a single byte the length is -1 |
| TransportCrc.CrcModule.AddThenCheck | ALOE_2025_05_17/modules/5G_CRC_PDSCH/src/5G_CRC_PDSCH.c:164-240 | Adder into checker: the data comes back and the block counts as OK, whatever its length |
| Handshake.StatusFollowsRequests | ALOE_2025_05_17/hw_api/lnx/src/hwapi_linux_proc.c:353-449 | In every interleaving cur_status takes exactly the accepted requests in order, at most one behind, never before its time stamp; acknowledgements trail by at most one |
| Handshake.AcceptedWhenSettled | ALOE_2025_05_17/hw_api/lnx/src/hwapi_linux_proc.c:402-419 | A request is accepted if and only if every earlier one was switched to and acknowledged |
| Handshake.AnswerTells | ALOE_2025_05_17/hw_api/lnx/src/hwapi_linux_proc.c:402-419 | In every state the value returned for a request is the status itself exactly when the request is noted, and 0 exactly when nothing changes |
| Handshake.FirstStatus | ALOE_2025_05_17/hw_api/lnx/src/hwapi_linux_proc.c:191-197 | A new process has status 0 and the request for status 1, due at once; two polls and an acknowledgement settle it there |
| Handshake.PollReports | ALOE_2025_05_17/hw_api/lnx/src/hwapi_linux_proc.c:353-374 | A poll returns the new status exactly from its time stamp on, one poll before cur_status switches |
| Handshake.ChangeCompletes | ALOE_2025_05_17/hw_api/lnx/src/hwapi_linux_proc.c:353-449 | Once due, two polls and one acknowledgement finish a change |
| Handshake.FreeAgainIffDifferent | ALOE_2025_05_17/hw_api/lnx/src/hwapi_linux_proc.c:402-419 | Without forced requests a free record can become free again after accepting a request if and only if the request differs from the current status |
| Handshake.ForcedFrees | ALOE_2025_05_17/hw_api/lnx/src/hwapi_linux_proc.c:353-449 | From any state a forced request for another status, two polls and an acknowledgement make the record free |
| Handshake.WedgedUntilForced | ALOE_2025_05_17/hw_api/lnx/src/hwapi_linux_proc.c:402-449 | Over every run: a record that holds a request for its own status stays as it is and accepts nothing if and only if no forced request comes |
| Handshake.StepKeepsInv | ALOE_2025_05_17/hw_api/lnx/src/hwapi_linux_proc.c:353-449 | The four-phase invariant over one poll, request, acknowledgement or clock tick |
| Handshake.RunKeepsInv | ALOE_2025_05_17/hw_api/lnx/src/hwapi_linux_proc.c:191-197 | It holds from process creation over every run |
| Handshake.ProcDb.StatusGet | ALOE_2025_05_17/hw_api/lnx/src/hwapi_linux_proc.c:353-374 | The four cases of a poll on the caller's record, with the value returned; other records unchanged |
| Handshake.ProcDb.StatusNew | ALOE_2025_05_17/hw_api/lnx/src/hwapi_linux_proc.c:379-420 | Own termination returns 1, an unknown object -1; a free record or a forced request returns the status and becomes (current, status, stamp, 1), a zero stamp meaning now; anything else returns 0 and changes nothing |
| Handshake.ProcDb.StatusAck | ALOE_2025_05_17/hw_api/lnx/src/hwapi_linux_proc.c:425-450 | An unknown object returns -1, a switched and noticed record 1 and its progress becomes 0; anything else returns 0 and changes nothing |
| Handshake.ProcDb.Find | ALOE_2025_05_17/hw_api/lnx/src/hwapi_linux_proc.c:428-434 | The lookup finds the first entry of the object or shows there is none |
| Stepping.StepRunsOnceIff | ALOE_2025_05_17/sw_api/src/phal_services.c:293-320 | After an accepted STEP at most one time stamp is counted if and only if the object never polls before its own PAUSE request is due; then Status() returns RUN at most once, and exactly once when the record is back in PAUSE, wherever the acknowledgements fall |
| Stepping.PauseSettles | ALOE_2025_05_17/sw_api/src/phal_services.c:293-320 | Back in PAUSE, one acknowledgement makes the record free |
| Stepping.AnswersInStatus | ALOE_2025_05_17/sw_api/src/phal_services.c:293-320 | Over every run in one status: RUN is answered RUN by every operation and counts one time stamp each; INIT as often as initialization is not done; STOP and ABNSTOP by one STOP; other statuses but STEP by nothing; only RUN counts |
| Stepping.PollAnswer | ALOE_2025_05_17/sw_api/src/phal_services.c:296-318 | One poll from any record: its status and what Status() does with it |
| Stepping.ForwardIsSteady | ALOE_2025_05_17/sw_api/src/phal_services.c:293-320 | A clock that never goes back meets that condition |
| Stepping.StepAdvances | ALOE_2025_05_17/sw_api/src/phal_services.c:293-320 | Every operation of the object brings a due STEP closer to PAUSE; at most 10 are left |
| Stepping.ClockBackRunsTwice | ALOE_2025_05_17/sw_api/src/phal_services.c:310-316 | A concrete run with a clock that goes back in which Status() returns RUN twice |
| Stepping.MoveKeepsStepInv | ALOE_2025_05_17/sw_api/src/phal_services.c:300-317 | The invariant over one operation, acknowledgement or clock change, and what the relapse does |
| SlotPool.Pool.Alloc | ALOE_2025_05_17/hw_api/lnx/src/mem.c:152-210 | Fails if and only if no run of ceil(size/slot_sz) free slots exists, and takes exactly that many at the lowest start otherwise; zero bytes fail if and only if all records are live; the pool stays consistent if and only if size > 0, all records are live, or slot 0 is free |
| SlotPool.Pool.FindSlots | ALOE_2025_05_17/hw_api/lnx/src/mem.c:181-197 | The do-while search is a complete first fit |
| SlotPool.Pool.FreeRecord | ALOE_2025_05_17/hw_api/lnx/src/mem.c:167-176 | A free record, or none exists |
| SlotPool.AllLiveMeansFull | ALOE_2025_05_17/hw_api/lnx/src/mem.c:167-176 | By counting: if all records are live, every slot is taken, so records never run out first |
| SlotPool.NoRecordNoSlot | ALOE_2025_05_17/hw_api/lnx/src/mem.c:167-176 | Failing for want of a record is failing for want of slots |
| SlotPool.Pool.Calloc | ALOE_2025_05_17/hw_api/lnx/src/mem.c:212-224 | As alloc, zero bytes included, and exactly the requested bytes become zero |
| SlotPool.Pool.Free | ALOE_2025_05_17/hw_api/lnx/src/mem.c:226-266 | Releases exactly the slots of the record with this offset; negative and unknown offsets change nothing |
| SlotPool.Pool.AllocThenFree | ALOE_2025_05_17/hw_api/lnx/src/mem.c:152-266 | Freeing what was just allocated restores the slot map and all other records |
| SlotPool.AllocKeepsConsistent | ALOE_2025_05_17/hw_api/lnx/src/mem.c:199-207 | A fresh record over free slots keeps: live ranges disjoint and non-empty, slot map equal to their union |
| SlotPool.FreeKeepsConsistent | ALOE_2025_05_17/hw_api/lnx/src/mem.c:226-266 | So does releasing a record |
| SlotPool.OwnerIsUnique | ALOE_2025_05_17/hw_api/lnx/src/mem.c:199-207 | A set slot belongs to exactly one live record |
| SlotPool.OffsetsAreDistinct | ALOE_2025_05_17/hw_api/lnx/src/mem.c:226-250 | Live offsets are distinct, so a free hits the right record |
| SlotPool.Pool.constructor | ALOE_2025_05_17/hw_api/lnx/src/mem.c:123-134 | A new pool is consistent and empty |
| TokenChain.NoOvertaking | ALOE_2025_05_17/hw_api/lnx/src/hwapi_linux_base.c:465-472 | In every interleaving object k is woken at most once more than its predecessor relinquished, so at most ticks+1+2k times |
| TokenChain.BlockedIsUnique | ALOE_2025_05_17/hw_api/lnx/src/hwapi_linux_base.c:465-472 | All states in which every object waits without a token are the same one for a given number of ticks, with exactly ticks+1+2k wake-ups |
| TokenChain.Settles | ALOE_2025_05_17/hw_api/lnx/src/hwapi_linux_base.c:465-472 | Between ticks every schedule is finite and can stop only in that state |
| TokenChain.StepKeepsInv | ALOE_2025_05_17/hw_api/lnx/src/hwapi_linux_base.c:465-472 | Token balance over one tick, post or wake-up |
| TokenChain.ReachedKeepsInv | ALOE_2025_05_17/hw_api/lnx/src/hwapi_backd_mem.c:293-300 | It holds from the initial one token per semaphore over every run |
| Scheduler.HwDb.PostObjects | ALOE_2025_05_17/hw_api/lnx/src/hwapi_backd_exec.c:77-83 | One token for the first semaphore of every core and nothing else: the tick of the chain model |
| Scheduler.HwDb.RelinquishPost | ALOE_2025_05_17/hw_api/lnx/src/hwapi_linux_base.c:453-468 | Notes the time stamp and posts the successor: the post step of the chain model |
| Scheduler.HwDb.RelinquishWake | ALOE_2025_05_17/hw_api/lnx/src/hwapi_linux_base.c:469-475 | Takes one own token and starts the next time slot: the wake step of the chain model |
| Scheduler.TickStep | ALOE_2025_05_17/hw_api/lnx/src/hwapi_backd_exec.c:77-83 | post_objects on the table is the tick of the chain model |
| Scheduler.PostStep | ALOE_2025_05_17/hw_api/lnx/src/hwapi_linux_base.c:465-468 | Relinquishing up to the wait is the post step of the chain model |
| Scheduler.WakeStep | ALOE_2025_05_17/hw_api/lnx/src/hwapi_linux_base.c:469-475 | The passing of the wait is the wake step, enabled in the chain model |
| Scheduler.StartMatches | ALOE_2025_05_17/hw_api/lnx/src/hwapi_backd_mem.c:293-300 | Fresh semaphores with running objects are the start of the chain model |
| Scheduler.HwDb.RemoveProcess | ALOE_2025_05_17/hw_api/lnx/src/hwapi_backd_processes.c:178-195 | In-place compaction: everybody behind on the core moves up exactly one place, last_semidx drops by one, and each semaphore passed gains as many tokens as table entries stood there |
| Scheduler.CountIsSize | ALOE_2025_05_17/hw_api/lnx/src/hwapi_backd_processes.c:183-192 | The count of tokens is the number of table entries at the position |
| Scheduler.HwDb.MoveUp | ALOE_2025_05_17/hw_api/lnx/src/hwapi_backd_processes.c:183-192 | One round of the outer loop |
| Scheduler.RemovalKeepsLine | ALOE_2025_05_17/hw_api/lnx/src/hwapi_backd_processes.c:178-195 | If the live objects hold positions 0..last once each, the remaining ones hold 0..last-1 once each in the same order, and other cores are untouched |
| Scheduler.HwDb.constructor | ALOE_2025_05_17/hw_api/lnx/src/hwapi_backd_mem.c:293-300 | Every semaphore starts with one token |
| TimedQueue.DeliveredInOrderAndOnTime | ALOE_2025_05_17/hw_api/lnx/src/hwapi_linux_itf.c:585-753 | In every run packets come out in send order, none is lost or duplicated, none comes before its destination stamp |
| TimedQueue.Session | ALOE_2025_05_17/hw_api/lnx/src/hwapi_linux_itf.c:570-798 | Any timely sequence of sends and receives on one mailbox, refused and truncated ones included: every receive returns what one line served from its head returns, and with room for every packet the texts are the first of the packets taken, in order |
| TimedQueue.TextsAreHanded | ALOE_2025_05_17/hw_api/lnx/src/hwapi_linux_itf.c:736-798 | The receives that hand something over give the packets from their start, the others nothing |
| TimedQueue.TextsAreBodies | ALOE_2025_05_17/hw_api/lnx/src/hwapi_linux_itf.c:736-798 | With room for every packet they give the packets whole |
| TimedQueue.TakenWithStamp | ALOE_2025_05_17/hw_api/lnx/src/hwapi_linux_itf.c:570-643 | A send is taken unless longer than 10 MB or the queue is full, with the writer's clock and the delays as its stamp |
| TimedQueue.AcceptedAreSent | ALOE_2025_05_17/hw_api/lnx/src/hwapi_linux_itf.c:570-643 | When nothing is refused, the packets taken are those sent |
| TimedQueue.QueueIsLine | ALOE_2025_05_17/hw_api/lnx/src/hwapi_linux_itf.c:585-753 | The run that mirrors the calls and the line agree in what waits, what was handed over and when: the selective receive is a first-in first-out receive of due packets |
| TimedQueue.HandedOverOnTime | ALOE_2025_05_17/hw_api/lnx/src/hwapi_linux_itf.c:585-753 | On every timely sequence of calls: handed over and still waiting are the packets taken, in order, and nothing was handed over before its stamp |
| TimedQueue.NothingFoundMeansAllHanded | ALOE_2025_05_17/hw_api/lnx/src/hwapi_linux_itf.c:736-753 | A receive at t hands nothing over if and only if exactly the packets due by t were handed over before |
| TimedQueue.CallsAreRunnable | ALOE_2025_05_17/hw_api/lnx/src/hwapi_linux_itf.c:585-753 | The run that mirrors the calls is one of the allowed runs, with the clocks of the calls |
| TimedQueue.Perform | ALOE_2025_05_17/hw_api/lnx/src/hwapi_linux_itf.c:570-798 | One call on the mailbox is the one step of the run that mirrors it, and a receive returns the text of the packet chosen there |
| TimedQueue.DrainedMeansAllDue | ALOE_2025_05_17/hw_api/lnx/src/hwapi_linux_itf.c:736-753 | A reader that finds nothing at its stamp has received exactly the packets due by then |
| TimedQueue.HeadFirstIff | ALOE_2025_05_17/hw_api/lnx/src/hwapi_linux_itf.c:736-753 | Every receive takes the head, whatever the stamp, if and only if no queued packet has an earlier stamp than the head |
| TimedQueue.PickIsUnique | ALOE_2025_05_17/hw_api/lnx/src/hwapi_linux_itf.c:750-753 | The choice of a receive is determined by queue and stamp |
| TimedQueue.SortedPicksHead | ALOE_2025_05_17/hw_api/lnx/src/hwapi_linux_itf.c:736-753 | With non-decreasing stamps that choice is the head |
| TimedQueue.StepKeepsInv | ALOE_2025_05_17/hw_api/lnx/src/hwapi_linux_itf.c:585-753 | Sent = delivered + queued, in stamp order, over one send or receive |
| TimedQueue.Mailbox.Send | ALOE_2025_05_17/hw_api/lnx/src/hwapi_linux_itf.c:570-643 | Destination stamp, size limit, full queue and invalid stamp; without a delay the stamp shown is whatever the variable held |
| TimedQueue.Mailbox.Receive | ALOE_2025_05_17/hw_api/lnx/src/hwapi_linux_itf.c:736-798 | Nothing, or the chosen packet removed and delivered from its start: whole if the buffer has room, else as much as it holds |
| TimedQueue.Mailbox.Choose | ALOE_2025_05_17/hw_api/lnx/src/hwapi_linux_itf.c:750-753 | The first message of the lowest type not above the stamp |
| Params.TextRoundTrip | ALOE_2025_05_17/utils/src/params.c:123-249 | Every integer type and string comes back from its text with the value it had, unsigned ints above INT_MAX included |
| Params.AtoiOfDecimal | ALOE_2025_05_17/utils/src/params.c:123-249 | Reading a printed decimal gives the number back |
| Params.CastWraps | ALOE_2025_05_17/utils/src/params.c:123-180 | Whatever number the text holds, a variable of w bits gets the one in its range that differs by a multiple of 2^w |
| Params.UnsignedText | ALOE_2025_05_17/utils/src/params.c:200-245 | An unsigned int above INT_MAX is written as a negative number |
| Params.DecimalText | ALOE_2025_05_17/utils/src/params.c:200-245 | Numbers are written in decimal with a minus sign |
| Params.ReadText | ALOE_2025_05_17/utils/src/params.c:123-180 | White space and a plus sign are passed over, and the first other character ends the number |
| StrSet.Set.Put | ALOE_2025_05_17/utils/src/set.c:218-240 | The new member comes first |
| StrSet.Set.Get | ALOE_2025_05_17/utils/src/set.c:130-147 | The i-th link, or nothing behind the end |
| StrSet.Set.Length | ALOE_2025_05_17/utils/src/set.c:291-295 | The number of members |
| StrSet.Set.Clear | ALOE_2025_05_17/utils/src/set.c:297-310 | The list is empty afterwards |
| StrData.Transfer | ALOE_2025_05_17/utils/src/strdata.c:60-162 | Push, write, read, pop: all values come back first in first out with the same value if and only if no string contains two bars in a row or ends in a bar |
| StrData.SplitInvertsJoinedIff | ALOE_2025_05_17/utils/src/strdata.c:83-162 | The text format gives a list of strings back if and only if all of them are clean |
| StrData.CleanIffFound | ALOE_2025_05_17/utils/src/strdata.c:145-160 | The first separator found is the one written behind a string if and only if the string is clean |
| StrData.CleanMeans | ALOE_2025_05_17/utils/src/strdata.c:145-160 | Clean is: no two bars next to each other, and none at the end |
| StrData.JoinedMeans | ALOE_2025_05_17/utils/src/strdata.c:83-116 | The text is every string with two bars behind it |
| StrData.PiecesAreClean | ALOE_2025_05_17/utils/src/strdata.c:145-160 | Whatever text arrives, every piece read from it is clean |
| StrData.ReversedTwice | ALOE_2025_05_17/utils/src/strdata.c:83-162 | Prepending on both sides restores the order |
| StrData.Packet.Push | ALOE_2025_05_17/utils/src/strdata.c:60-70 | The text goes in front; unprintable types are refused |
| StrData.Packet.Pop | ALOE_2025_05_17/utils/src/strdata.c:72-81 | The next value or none; the cursor always advances |
| StrData.Packet.Write | ALOE_2025_05_17/utils/src/strdata.c:83-116 | Length word and joined text, and the list is emptied |
| StrData.Packet.Read | ALOE_2025_05_17/utils/src/strdata.c:118-164 | The old list is dropped and the pieces of the text are prepended one by one; their number is returned |
| StrData.Packet.Clear | ALOE_2025_05_17/utils/src/strdata.c:166-175 | Empty list, cursor at the start |
| DelayBuffer.DelayIff | ALOE_2025_05_17/modules/5G_Buffer_PDSCH/src/5G_Buffer_PDSCH.c:117-136 | For every delay D, while the samples fit: every call outputs the block D calls before it, sample for sample and through any number of wrap-arounds, if and only if block n - D % 10 always has the length of block n - D |
| DelayBuffer.DelayLine | ALOE_2025_05_17/modules/5G_Buffer_PDSCH/src/5G_Buffer_PDSCH.c:117-136 | If at most nine blocks precede the flag and pending samples fit, call n outputs block n-D sample for sample, through any number of wrap-arounds of both rings |
| DelayBuffer.TenBeforeTheFlag | ALOE_2025_05_17/modules/5G_Buffer_PDSCH/src/5G_Buffer_PDSCH.c:117-136 | With ten blocks before the flag that holds if and only if every block from the eleventh on has the length of the one ten before it |
| DelayBuffer.EleventhBlockTooLong | ALOE_2025_05_17/modules/5G_Buffer_PDSCH/src/5G_Buffer_PDSCH.c:117-136 | On ten blocks of one sample and one of two, with the flag on the last, the eleventh output is not the first block |
| DelayBuffer.RunWork | ALOE_2025_05_17/modules/5G_Buffer_PDSCH/src/5G_Buffer_PDSCH.c:117-136 | work() called once for each block puts out what the run on values says |
| DelayBuffer.KeptIffRoom | ALOE_2025_05_17/modules/5G_Buffer_PDSCH/src/5G_Buffer_PDSCH_functions.c:34-42 | Storing a block leaves the pending samples intact, whatever it contains, if and only if it fits the free part of the ring |
| DelayBuffer.WorkQueued | ALOE_2025_05_17/modules/5G_Buffer_PDSCH/src/5G_Buffer_PDSCH.c:117-136 | While everything fits, one call is a queue step: the new block goes in and, with the flag, the oldest comes out sample for sample; pending samples always equal the sum of pending lengths |
| DelayBuffer.WorkOverfull | ALOE_2025_05_17/modules/5G_Buffer_PDSCH/src/5G_Buffer_PDSCH.c:117-136 | With ten blocks pending and room for the samples, with the flag now or earlier: the output is the oldest block if and only if the new one has its length, and then the rings go on as a queue; without the flag nothing comes out |
| DelayBuffer.SamplesStep | ALOE_2025_05_17/modules/5G_Buffer_PDSCH/src/5G_Buffer_PDSCH.c:117-136 | One call on the waiting samples: the new ones join them and, with the flag, the first as many as the length read leave |
| DelayBuffer.Buffer.Work | ALOE_2025_05_17/modules/5G_Buffer_PDSCH/src/5G_Buffer_PDSCH.c:117-136 | One call in buffer mode on the rings themselves, with no assumption on what fits |
| DelayBuffer.WrittenHolds | ALOE_2025_05_17/modules/5G_Buffer_PDSCH/src/5G_Buffer_PDSCH_functions.c:34-42 | Writing behind the pending samples extends them, across the wrap-around |
| DelayBuffer.ReadHeld | ALOE_2025_05_17/modules/5G_Buffer_PDSCH/src/5G_Buffer_PDSCH_functions.c:44-52 | Reading gives the pending samples from the oldest on |
| DelayBuffer.Buffer.AddToBuffer | ALOE_2025_05_17/modules/5G_Buffer_PDSCH/src/5G_Buffer_PDSCH_functions.c:34-42 | The ring after storing the samples, and the new position |
| DelayBuffer.Buffer.GetFromBuffer | ALOE_2025_05_17/modules/5G_Buffer_PDSCH/src/5G_Buffer_PDSCH_functions.c:44-52 | The samples read, and the new position |
| DelayBuffer.Buffer.AddLength | ALOE_2025_05_17/modules/5G_Buffer_PDSCH/src/5G_Buffer_PDSCH_functions.c:54-60 | One more length, position one further or back at 0 |
| DelayBuffer.Buffer.GetLength | ALOE_2025_05_17/modules/5G_Buffer_PDSCH/src/5G_Buffer_PDSCH_functions.c:62-68 | The length at the read position, position one further or back at 0 |

## Left out

- CrcEngine.CrcParams.ReverseCrcBit: the leading term must be in the polynomial word, which has no room for it from order 32 on; orders above 64, which shift a 64-bit word out of range, are not modelled, and AddCrc and CrcAttach need an order of at most 32 for their 32-bit words.
- CrcEngine.CrcParams.CrcAttach: lengths of 1 to 7 bits, for which the C code reads through a pointer it never set; one char holds one bit.
- CrcEngine.CrcParams.AddCrc: the parameter record is passed by value in some modules, with a copy of the table but the same data buffer; the model shares one record.
- Segmentation.CbInfo.Compute: ceilings are integer ceilings, which SingleCeilIsExact justifies below 2^24; the code rate is a real; the lifting-set index remap, the LDPC record and the MCS tables are not modelled.
- CodeBlocks.CreateCodeBlocks: B is a multiple of 8 and at most 125000; positions of the bit buffer behind the input hold arbitrary bits, so the last block is only described up to those.
- CodeBlocks.CheckCodeBlocks: writes behind the 1000000 places of the bit array (exactly when UnpackFitsIff says) have no effect; the model gives the array the places it needs.
- TransportCrc.CrcModule.WorkCheck: what memcpy does with the negative length of a one-byte input; lengths above MAX_LENGTH.
- WorkChain.WorkBothEnds: the LDPC and radio modules between the two ends, taken to hand the interfaces over unchanged, and the alignment of control data and pipeline.
- Handshake.StatusFollowsRequests: the theorem is about requests that are not forced and differ from the current status; forced ones are in StatusNew, WedgedUntilForced and ForcedFrees, the answer a terminating object gives itself only in StatusNew.
- Stepping.StepRunsOnceIff: Status() waits without bound, so its loop is a transition system over places and not a method; no other request intervenes.
- SlotPool.Pool.Alloc: slot map, records and data are separate arrays; the byte layout mem_new computes is not modelled, and slot indices fit 16 bits.
- TokenChain.NoOvertaking: a fixed set of objects on one core; the tokens posted while a process is removed are stated in RemoveProcess but not counted here.
- Scheduler.HwDb.RelinquishPost: execution-time statistics and time-slot timers.
- TimedQueue.Mailbox.Send: descriptor lookup, retries on a full queue, and packets the daemon itself sends.
- TimedQueue.Mailbox.Receive: receives at time stamp 0, blocking flags and callbacks.
- TimedQueue.DeliveredInOrderAndOnTime: one writer with one constant positive delay and one reader at time stamps from 1 on, whose clocks do not go back.
- StrData.Packet.Read: byte order of the length word, short reads and writes.
- Params.TextRoundTrip: the boolean, hexadecimal, float and double types.
- StrSet.Set.Get: hashed sets, removal, membership and duplication.
- DelayBuffer.DelayIff: runs in which the samples do not fit the ring, and empty blocks, which one call ignores; bypass mode; samples are opaque numbers.
- Sockets, process creation, signals, shared-memory set-up, timers, audio and radio devices, MATLAB gateways and the command console.
- The PBCH and REPORT copies of the CRC code, which repeat the functions modelled here.
- Printing, block error rate reports and histograms other than the one of wrong code blocks.
