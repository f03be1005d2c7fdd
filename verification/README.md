# Verified cores of the H8 emulator and the image tool

This project models, in Dafny, the parts of the repository whose correctness is not visible from the code, and proves
what they promise for every input, every register setting and every run.

* **The Reed-Solomon encoder** (`GF256`, `Polynomials`, `Distance`, `ReedSolomon`, `RFSerial`). The exp/log tables are
  the powers of the generator of GF(256); the polynomial builder leaves the coefficients of the product of the roots,
  none of which is 0; the in-place shift register makes a packet a codeword; and packets of different data differ in at
  least 21 of 50 (or 81 of 200) bytes, some in no more, so up to 10 (or 40) wrong bytes leave only one candidate.
* **The two compressors** (`Bytes`, `Tokens`, `BitFields`, `BMCCodes`, `BitStream`, `Greedy`, `BMC`, `Truncation`,
  `LZSS`, `Acceptance`, `Overrun`, `ImageTool`). Encoders and decoders are separate loops over buffers; each is tied
  to a description of the format, and the descriptions are inverse to each other. The chosen match is the longest, and
  the nearest of the longest. `Truncation` says when exactly an encoding that does not fit its buffer is still decoded
  to its text, `ImageTool` for which lengths of input the buffer of `tools/imgtool.c` is large enough for every image.
  `Acceptance` says which inputs the LZSS decoder accepts and what it makes of them, and `Overrun` which make it read
  past their end.
* **The timer pulse unit** (`TPUTicks`, `TPU`, `TPUPeriods`, `TPUPins`). Jumping from event to event does what single
  ticks do: counter, flags, interrupts, outputs and the time stamp of every port update; and it does not matter how
  often one looks. What the ticks come to is said in numbers: the counter modulo its period, one flag and one request
  per period for each register that matches, the level a match or a clear leaves on a pin. When exactly a look between
  two instructions can leave an event overdue is stated too.
* **The serial port** (`SCITicks`, `SCIReceive`, `SCI`, `SCIRuns`). Over any run of register writes, transfers, time,
  updates and looks the transmit side is where a port clocked every cycle would be. The characters sent or waiting are
  those handed over, less those withdrawn: with the transmitter left on and no waiting character overwritten, exactly
  those, in order. Frames never overlap. The receiver reads each byte of the device once, in the order they come, never
  over one the program has not taken; an asynchronous one stores exactly those bytes, at least a character apart, and
  leaves none at the device when it is free.
* **Arithmetic and branches** (`ALU`). After a comparison every conditional branch decides the relation it is named
  for, at 8, 16 and 32 bits; chains of ADDX/SUBX compute whole multi-byte numbers, with DAA/DAS whole decimal numbers;
  and an addition or subtraction of one, two or four bytes is such a chain.
* **The CRCs** (`CRC`, `BitPairs`). Errors confined to a window as wide as the register are never missed, at any length
  and place. The 16-bit one misses no odd number of wrong bits either, and two wrong bits exactly when they are a
  multiple of 32767 places apart: up to 4095 bytes, no three wrong bits.

Every loop and every in-place update of the functions modelled is a method over arrays or object fields, proved against
a specification function; the theorems are about those functions. `dafny verify dfyconfig.toml` checks the project.

## What the proofs found

* `rsMod` equals the remainder modulo 255 only as long as its input stays below 65536 + 255; the exact condition is
  `RFSerial.FoldedIsMod`. All uses stay far below that.
* `genPoly` starts from the wrong constant (0 instead of 1) and works because the log of 0, 255, acts as exponent 0;
  with no roots at all it leaves 255 (`RFSerial.RFSerial.GenPoly`).
* `eccCalc` never looks for the index of a zero coefficient. It need not: no coefficient vanishes
  (`Distance.GeneratorDense`).
* The comment "worst case output buffer" at tools/imgtool.c:211 is not true of BMC. The size used there is enough for
  every image of up to 4102 bytes, of 4105 to 4107 and of 4113 bytes; for every other length `ImageTool.SampleLost`
  gives an image that is cut and comes back, without an error, as a different one (`ImageTool.RoomEnough`,
  `ImageTool.ImagesSurvive`, `ImageTool.EnoughLengths`). 19 bits for two bytes are an upper bound (`BMC.SizeBound`).
* An image may survive the cut: when only its last token is cut, a byte of that token is stored, and with zeros for the
  lost bits it still describes the end of the image (`Truncation.MemoryRoundTrip`).
* `decodeLZSS` reads past its input exactly when that is the layout of tokens cut inside one, and the tokens before the
  cut can be carried out and leave room in the output (`Overrun.OverrunExact`; `Overrun.OverrunSample` is the one byte
  0). Whatever it finds there, it stays inside its output and returns false (`LZSS.DecodeLZSS`).
* `decodeLZSS` looks at no flag it does not need, so an input it accepts need not be the whole layout of its tokens: it
  has to end behind one of them, and the flags left over in the last group are free (`Acceptance.AcceptExact`). It is
  told the length of its output, and accepts an encoding for that length only (`Acceptance.OnlyItsLength`).
* A timer channel checks its compare registers one after another and clears the counter inside the check. A register
  that holds the same value as the one that clears, but is checked after it, therefore never matches: no flag and no
  interrupt, however long the channel runs (`TPUPeriods.ShadowedMatch`).
* emu2/H8CPU.cpp:1845 counts the ticks to a timer channel's next event from 0 and not from where the counter is, and
  updates that meet no event keep the cycle it computes. With an interrupt enabled, no look at a counting channel leaves
  an event overdue if and only if the counter was 0 when that cycle was computed, or the channel has stood still for
  that many ticks since (`TPU.TPU.PunctualWhen`). `TPU.LateMatch` sets up a channel whose second compare match is left
  overdue for ten ticks.
* Selecting both edges of a clock that a timer channel does not have leaves a shift of -2, and the next update of the
  running channel shifts by it (`TPU.ShiftUndefined`, `TPU.TPU.Update`).
* Looking at the serial port does not change what it sends, or when. What it receives it may: a byte that waits at the
  device of a free asynchronous receiver comes in at the end of the next update, or of the character on the line if that
  ends first. An update in between changes nothing if and only if there is no such byte (`SCIReceive.LooksMatter`).
* ADDX and SUBX clear the zero flag even where the result is 0. A branch after a multi-byte subtraction is therefore
  right exactly when it does not look at the zero flag or the numbers differ (`ALU.BranchAfterChain`).
* `crc32` starts from all ones but does not complement its result, unlike section 8 of RFC 1952: the check value of an
  empty message is the initial register (`CRC.EmptyCheck`). The proofs are of the function as written.

## Model

| member | source | states |
|---|---|---|
| GF256.XTimeLinear | emu2/RFSerial.cpp:372-375 | the shift step of the table loop respects exclusive-or and multiples |
| GF256.MulDistributes | emu2/RFSerial.cpp:394 | carry-less multiplication modulo 0x11D distributes over exclusive-or on both sides |
| GF256.MulOne | emu2/RFSerial.cpp:366-369 | 1 is neutral on both sides |
| GF256.MulCommutes | emu2/RFSerial.cpp:394 | multiplication is commutative |
| GF256.MulAssociates | emu2/RFSerial.cpp:394 | multiplication is associative |
| GF256.MulNonzero | emu2/RFSerial.cpp:394 | a product is 0 only when a factor is |
| GF256.ExpAdd | emu2/RFSerial.cpp:394 | adding exponents multiplies powers |
| GF256.ExpLandmarks | emu2/RFSerial.cpp:366-376 | the 255th power is 1 and the 85th, 51st and 15th are not |
| GF256.OrderIs255 | emu2/RFSerial.cpp:366-376 | no smaller positive power is 1 |
| GF256.ExpInjective | emu2/RFSerial.cpp:366-370 | the 255 powers are different, so no log entry is overwritten |
| GF256.LogExists | emu2/RFSerial.cpp:366-370 | every nonzero byte is a power, so every log entry is filled |
| Polynomials.EvalTimesRoot | emu2/RFSerial.cpp:385-400 | one round of the polynomial builder multiplies by (x + root) |
| Polynomials.GeneratorIsProduct | emu2/RFSerial.cpp:381-400 | the builder's coefficients evaluate to the product of (x + root i), i = 1..n |
| Polynomials.GeneratorRoots | emu2/RFSerial.cpp:381-400 | the polynomial vanishes exactly at the powers 1..n of the generator |
| Polynomials.GeneratorMonic | emu2/RFSerial.cpp:389 | the top coefficient is 1 |
| Distance.EliminateSyndrome | emu2/RFSerial.cpp:410-438 | scaling each place by (its locator + a given one) turns syndromes into combinations of neighbouring ones |
| Distance.EliminateWeight | emu2/RFSerial.cpp:410-438 | that step clears the place of the given locator and no other |
| Distance.RootsForceWeight | emu2/RFSerial.cpp:410-438 | a nonzero string of at most 255 bytes that vanishes at t consecutive powers has more than t nonzero bytes |
| Distance.GeneratorDense | emu2/RFSerial.cpp:431-436 | no coefficient of a generator polynomial with up to 254 roots is 0, so the unchecked index never stands for 0 |
| ReedSolomon.EvalParity | emu2/RFSerial.cpp:419-437 | at every root, the register after feeding the data equals the data polynomial shifted up by the parity length |
| ReedSolomon.ParityIsCodeword | emu2/RFSerial.cpp:410-438 | parity in the low coefficients and data above vanish at all roots |
| ReedSolomon.ParityUnique | emu2/RFSerial.cpp:410-438 | the parity bytes are the only ones that do so: codeword if and only if parity as computed |
| ReedSolomon.CodewordDistance | emu2/RFSerial.cpp:410-438 | any two different codewords of at most 255 bytes differ in more bytes than there are parity bytes |
| ReedSolomon.MinimumDistance | emu2/RFSerial.cpp:410-438 | packets with different data differ in more than n of their bytes: at least 21 of 50 and 81 of 200 |
| ReedSolomon.GeneratorCodeword | emu2/RFSerial.cpp:381-404 | the generator polynomial itself, filled up with zeros, is a codeword |
| ReedSolomon.DistanceAttained | emu2/RFSerial.cpp:410-438 | for every packet size up to 255 bytes, two packets differ in exactly n + 1 bytes: the minimum distance is no larger |
| ReedSolomon.UniqueDecoding | emu2/RFSerial.cpp:410-438 | a received packet within n/2 bytes of two encoded ones leaves no choice: the data are the same |
| RFSerial.FoldedIsMod | emu2/RFSerial.cpp:441-450 | folding high byte onto low byte gives the remainder modulo 255 if and only if the wrapped part is a multiple of 255; in particular below 65536 + 255 |
| RFSerial.ShiftIsXTime | emu2/RFSerial.cpp:372-375 | the 16-bit shift, test and reduce is multiplication by the generator |
| RFSerial.ExpPeriodic | emu2/RFSerial.cpp:441-450 | exponents may be reduced modulo 255 |
| RFSerial.RFSerial.RsMod | emu2/RFSerial.cpp:441-450 | the loop ends below 255 with the folded value |
| RFSerial.RFSerial.FillTables | emu2/RFSerial.cpp:366-379 | exp and log tables are inverse on nonzero bytes, with 0 and 255 in the two spare places |
| RFSerial.RFSerial.LogLookup | emu2/RFSerial.cpp:370 | the power of a byte's log is the byte |
| RFSerial.RFSerial.Antilog | emu2/RFSerial.cpp:394 | exp of rsMod of an exponent below 65536 is that power of the generator |
| RFSerial.RFSerial.NextTerm | emu2/RFSerial.cpp:393-396 | one coefficient update adds root times the old coefficient, whether or not that is 0 |
| RFSerial.RFSerial.NextConstant | emu2/RFSerial.cpp:399 | the constant term is multiplied by the root, except that 0 is taken for 1 |
| RFSerial.TimesRootTerms | emu2/RFSerial.cpp:389-399 | those updates, done from the top down in one array, are one multiplication by (x + root), starting from constant 0 |
| RFSerial.RFSerial.TimesNextRoot | emu2/RFSerial.cpp:385-400 | one round takes the coefficients for i roots to those for i + 1, in place |
| RFSerial.RFSerial.GenPoly | emu2/RFSerial.cpp:381-404 | for 1 to 254 roots the array ends as the logs of the coefficients of the product of the roots, the rest of it untouched |
| RFSerial.RFSerial.EccInit | emu2/RFSerial.cpp:362-408 | both tables and both polynomials are ready |
| RFSerial.RFSerial.ShiftRegister | emu2/RFSerial.cpp:425-428 | without feedback the register moves up one byte, in place |
| RFSerial.RFSerial.FeedRegister | emu2/RFSerial.cpp:432-435 | with feedback it moves up and adds the multiple of the generator polynomial, in place |
| RFSerial.RFSerial.EccStep | emu2/RFSerial.cpp:421-436 | either way one data byte is fed as polynomial division feeds it |
| RFSerial.RFSerial.EccLoop | emu2/RFSerial.cpp:410-437 | from the last data byte to the first, the buffer becomes the packet |
| RFSerial.RFSerial.EccCalc | emu2/RFSerial.cpp:410-438 | for every content of the buffer the packet is a codeword with its data unchanged, and nothing else is written |
| Tokens.CopyRepeats | tools/encoding.c:139-140 | copying byte by byte, overlapping its own output, continues a text that repeats at that distance |
| Tokens.ApplyDescribes | tools/encoding.c:125-141 | carrying out a token that is true of a text extends the text |
| Tokens.CopyMakesRepeats | tools/encoding.c:139-140 | the other way round: what such a copy produces repeats at that distance, behind the text it started from |
| Tokens.AppliesToAll | tools/encoding.c:352-362 | only a token that is true of the text completes a beginning of it to all of it |
| BitFields.Put | tools/encoding.c:66-74 | a field is written highest bit first and read back from any suffix |
| BitFields.PutGet | tools/encoding.c:39-47 | writing back a value just read reproduces the bits consumed |
| BitFields.ShiftIn | tools/encoding.c:54-55 | shifting a byte right past a new top bit drops its lowest bit and appends the new one |
| BitFields.ShiftDown | tools/encoding.c:81 | the final shift moves the pending bits down and pads with zeros |
| BitFields.FieldsReadBack | tools/encoding.c:39-74 | any run of fields is read back by fields of the same widths: the low bits of each value, and the values themselves when they fit |
| BitFields.FittingParts | tools/encoding.c:66-74 | values that fit their widths are written whole |
| BitStream.FieldsThroughMemory | tools/encoding.c:39-85 | the same through a flushed buffer that was large enough, low bits and fitting values |
| BitStream.BitStream.constructor | tools/encoding.c:13-18 | a stream over a stretch of memory reads its bytes from the lowest bit up, and has written nothing, whatever the pending byte holds |
| BitStream.BitStream.ReadBit | tools/encoding.c:20-37 | takes the next unread bit, 0 past the end |
| BitStream.BitStream.ReadBits | tools/encoding.c:39-47 | takes the next field, highest bit first |
| BitStream.BitStream.Eof | tools/encoding.c:87-90 | true exactly when fewer than eight bits are unread |
| BitStream.BitStream.WriteBit | tools/encoding.c:49-64 | appends a bit to what was sent; what is held is what was sent, cut at the capacity |
| BitStream.BitStream.WriteBits | tools/encoding.c:66-74 | appends a field, and writes nowhere outside its stretch |
| BitStream.BitStream.Flush | tools/encoding.c:76-85 | memory holds all bits sent, padded with zeros to a byte, cut at the capacity |
| BMCCodes.LengthReadsBack | tools/encoding.c:217-277 | every length 2..256 is read back from its code before any suffix |
| BMCCodes.OffsetReadsBack | tools/encoding.c:279-330 | every offset 0..8191 is read back from its code before any suffix |
| BMCCodes.LengthWritesBack | tools/encoding.c:369-466 | a length just read, written again, gives the bits consumed, for every bit string that holds the whole code: the code is complete |
| BMCCodes.OffsetWritesBack | tools/encoding.c:468-573 | an offset just read, written again, gives the bits consumed, for every bit string that holds the whole code: the code is complete |
| BMCCodes.LengthRange | tools/encoding.c:217-277 | nothing but 2..256 is ever read |
| BMCCodes.OffsetRange | tools/encoding.c:279-330 | nothing but 0..8191 is ever read |
| BMCCodes.LengthCost | tools/encoding.c:369-466 | a length takes 2 to 17 bits, 2 below 4 and 3 below 6 |
| BMCCodes.OffsetCost | tools/encoding.c:468-573 | an offset takes 6 to 16 bits |
| Greedy.Best | tools/encoding.c:170-196 | the best copy is as long as any the format can represent and the nearest of the longest |
| Greedy.BestUnique | tools/encoding.c:591-612 | that description leaves one choice |
| Greedy.BestStep | tools/encoding.c:591-612 | the best copy of the smaller distances and the longest repetition at the next give the best one so far, for either format |
| Greedy.BestOfAll | tools/encoding.c:170-196 | at the end of the search the best one so far is the best copy |
| Greedy.GreedyTokens | tools/encoding.c:584-629 | the tokens chosen one after another describe the whole text, each one representable |
| BMC.TokenReadsBack | tools/encoding.c:332-363 | a token is read back from its bits before any suffix |
| BMC.EmitCost | tools/encoding.c:613-628 | a token takes at least 9 bits and at most 9.5 for each byte it describes |
| BMC.DecodeEmitted | tools/encoding.c:332-367 | tokens describing a text, followed by fewer than eight padding bits, decode to the text; the byte-granular end test never stops early |
| BMC.RoundTrip | tools/encoding.c:575-632 | every byte string is decoded from its own encoding |
| BMC.SizeBound | tools/encoding.c:575-632 | the encoding takes at most ceil(19n/16) bytes |
| BMC.EmitCut | tools/encoding.c:613-628 | cutting bits behind a token leaves the token and cuts what follows |
| Truncation.CutTakesAll | tools/encoding.c:344-362 | a token cut short takes all the bits there are |
| Truncation.NoShortcut | tools/encoding.c:584-612 | no token finishes a text where the chosen one does not |
| Truncation.CutDecodes | tools/encoding.c:332-367 | what is decoded of a text cut at any bit: the text if and only if the cut is harmless |
| Truncation.MemoryRoundTrip | tools/encoding.c:575-632 | what the encoder stores in a buffer of any size is decoded to the text if and only if its bits fit, as they do in ceil(19n/16) bytes, or only its last token is cut, a byte of it is kept and zeros for the lost bits leave it true |
| BMC.WriteLength | tools/encoding.c:369-466 | writes the code of a length |
| BMC.WriteOffset | tools/encoding.c:468-573 | writes the code of an offset |
| BMC.ReadLength | tools/encoding.c:217-277 | reads the code of a length |
| BMC.ReadOffset | tools/encoding.c:279-330 | reads the code of an offset |
| BMC.ReadToken | tools/encoding.c:344-362 | reads one token |
| BMC.ApplyToken | tools/encoding.c:352-362 | a copy that starts before the output or ends after it is refused and nothing is written; otherwise the output is extended |
| BMC.DecodeBMC | tools/encoding.c:332-367 | on any bytes: ends, writes only the bytes it produced, never past the given length, and returns true only when exactly that many were produced and fewer than eight bits are left |
| BMC.MatchLength | tools/encoding.c:596-605 | the longest repetition at a distance that does not overlap, up to 256 |
| BMC.FindMatch | tools/encoding.c:586-612 | the search returns the best copy |
| BMC.EncodeBMC | tools/encoding.c:575-632 | the buffer holds the encoding, cut at the capacity, and nothing beyond the capacity is touched |
| LZSS.LayoutSize | tools/encoding.c:151-213 | one flag byte for every eight tokens, besides the operands |
| LZSS.OperandReadsBack | tools/encoding.c:129-131 | distance and length are read back from a copy's two bytes |
| LZSS.SizeBound | tools/imgtool.c:144-149 | the encoding takes at most n + ceil(n/8) bytes, the buffer the tool allocates |
| LZSS.DecodeLayout | tools/encoding.c:105-149 | a partly used flag byte, its operands and whole groups decode to the text they describe |
| LZSS.RoundTrip | tools/encoding.c:105-213 | every byte string is decoded from its own encoding |
| LZSS.DecodeLZSS | tools/encoding.c:105-149 | on any bytes: the decoder does what the format says, and `Acceptance.AcceptExact` says when that is to accept; it reads behind its input exactly when the format says so, and then refuses it whatever stands there; nothing beyond the output is written |
| LZSS.TakeToken | tools/encoding.c:125-145 | one token, a literal or a copy, as the flag says, or a refusal |
| Acceptance.FindTokens | tools/encoding.c:105-149 | an input that is accepted, from any point inside a group on, ends behind a token of a layout whose tokens fill the rest of the output: the tokens are found |
| Acceptance.EndsAccepted | tools/encoding.c:105-149 | the other way round: such an input is accepted, from any point inside a group on, and leaves what its tokens say |
| Acceptance.AcceptExact | tools/encoding.c:105-149 | an input is accepted if and only if it ends behind a token of a layout of encodable tokens, and the tokens up to there start their copies inside the output and have sizes that add up to its length |
| Acceptance.AcceptedPlays | tools/encoding.c:105-149 | and then the output is what those tokens say |
| Acceptance.PlayedText | tools/encoding.c:125-141 | what they say is the text they describe, whatever stood in the output before, when no copy has distance 0 |
| Acceptance.OnlyItsLength | tools/encoding.c:105-149 | the encoding of a text is accepted if and only if the output has the length of the text |
| Overrun.CutOverruns | tools/encoding.c:125-145 | an input cut inside a token, with room left at that point, is read past its end |
| Overrun.Reconstruct | tools/encoding.c:125-145 | an input that is read past its end is such a layout of tokens: they are found |
| Overrun.OverrunExact | tools/encoding.c:105-149 | the input is read past its end if and only if it is the layout of tokens cut inside one, the tokens before that one leaving room in the output, whatever the output holds |
| Overrun.OverrunSample | tools/encoding.c:116-132 | a flag byte that announces a copy, alone, is such an input |
| LZSS.CopyForward | tools/encoding.c:139-140 | copies byte by byte, reading what it has just written |
| LZSS.FindMatch | tools/encoding.c:170-196 | the search returns the best copy, overlap allowed |
| LZSS.LayoutGroups | tools/encoding.c:163-209 | appending a group after full groups appends its bytes |
| LZSS.OpenPush | tools/encoding.c:197-209 | adding a token to an open group appends its operand and patches the flag byte written before it |
| LZSS.WriteToken | tools/encoding.c:197-209 | does so in the buffer |
| LZSS.EncodeLZSS | tools/encoding.c:151-213 | the buffer holds the encoding and nothing beyond n + ceil(n/8) bytes is touched |
| ImageTool.EmitFair | tools/imgtool.c:211-213 | only a copy of two bytes from offset 4096 or more costs above nine bits a byte, and then one bit |
| ImageTool.BitBound | tools/imgtool.c:211-213 | nine bits a byte and one more for every two bytes from the 4099th on are enough |
| ImageTool.EnoughLengths | tools/imgtool.c:211-213 | nine bits a byte and one for every dear copy that fits are within the buffer for the lengths up to 4102, 4105, 4106, 4107 and 4113, and no others |
| ImageTool.EncodingFits | tools/imgtool.c:211-213 | for those lengths every encoding fits the buffer |
| ImageTool.FreshPair | tools/imgtool.c:211-213 | no two neighbouring bytes of the sample stand together twice within 20000 places |
| ImageTool.SampleCopyBest | tools/imgtool.c:211-213 | so the encoder chooses every dear copy planned |
| ImageTool.SampleLost | tools/imgtool.c:211-213 | for every other length an image is stored short and accepted by the decoder as a different image |
| ImageTool.RoomEnough | tools/imgtool.c:211-213 | the buffer holds the encoding of every image of a length if and only if the length is one of those |
| ImageTool.ImagesSurvive | tools/imgtool.c:211-213 | every image of a length is decoded to itself if and only if the length is one of those |
| TPUTicks.Next | emu2/H8CPU.cpp:1832-1843 | the next event is the least relevant compare value above the counter, or the overflow |
| TPUTicks.QuietTicks | emu2/H8CPU.cpp:1645-1651 | ticks before the next event only count |
| TPUTicks.NextStays | emu2/H8CPU.cpp:1645-1651 | the next event stays the same until it is reached, so the early return need not look again |
| TPUTicks.JumpTicks | emu2/H8CPU.cpp:1677-1806 | a jump to the next event or short of it, checks included, is that many single ticks |
| TPUTicks.SampleKeepsRemainder | emu2/H8CPU.cpp:1640-1651 | after an update the time left over is less than a tick and is kept |
| TPUTicks.DivideTwice | emu2/H8CPU.cpp:1640-1642 | whole ticks of two stretches with the remainder carried over are those of the whole stretch |
| TPUTicks.SamplingIndependence | emu2/H8CPU.cpp:1632-1807 | updating at one time and then at another is updating once at the later |
| TPUTicks.SamplingRuns | emu2/H8CPU.cpp:1632-1807 | any run of updates at increasing times is the last one alone |
| TPUTicks.SampleCurrent | emu2/H8CPU.cpp:1632-1807 | an update leaves the next event in the future |
| TPUTicks.DueThen | emu2/H8CPU.cpp:1677-1806 | before the cycle of the next event an update only counts; in it, it finds the event |
| TPUTicks.ShortOfEvent | emu2/H8CPU.cpp:1640-1651 | the early return is taken exactly before the cycle of the next event |
| TPUTicks.LookOverdue | emu2/H8CPU.cpp:1809-1815 | a look leaves an event overdue exactly when it comes after the event and before the cycle stored |
| TPUTicks.PunctualExact | emu2/H8CPU.cpp:1809-1815 | no look leaves one overdue if and only if the cycle stored is not later than the event |
| TPUPeriods.CounterRuns | emu2/H8CPU.cpp:1677-1806 | after n ticks the counter is (counter + n) modulo the period: the value of the register that clears it, or 2^16 |
| TPUPeriods.RegisterRuns | emu2/H8CPU.cpp:1705-1803 | the flag of each compare register and the requests of its interrupt: one match in every period when its value comes up while it is checked, and none otherwise; the interrupt by its number for each channel |
| TPUPeriods.OverflowRuns | emu2/H8CPU.cpp:1684-1703 | the overflow flag and its requests: one in every 2^16 ticks of a channel that is not cleared |
| TPUPeriods.ClearPeriod | emu2/H8CPU.cpp:1705-1803 | a channel cleared by register k with value g: counter (counter + n) % g, flag k set exactly when counter + n >= g, (counter + n) / g requests when enabled |
| TPUPeriods.FreePeriod | emu2/H8CPU.cpp:1684-1703 | one that no register clears: counter (counter + n) % 65536, overflow flag exactly when counter + n >= 65536, (counter + n) / 65536 requests when enabled |
| TPUPeriods.NoOverflow | emu2/H8CPU.cpp:1684-1703 | a channel that is cleared never overflows |
| TPUPeriods.ShadowedMatch | emu2/H8CPU.cpp:1705-1803 | a register equal to the one that clears but checked after it never matches |
| TPUPeriods.UpdatePeriod | emu2/H8CPU.cpp:1632-1807 | an update counts the whole ticks since the last one modulo the period |
| TPUPins.OutputPins | emu2/H8CPU.cpp:1561-1592 | a pin is an output when its control bits select an action and not an input; two more pins on the wide channels |
| TPUPins.ControlHalves | emu2/H8CPU.cpp:1561-1580 | a write to one half of output control leaves the other |
| TPUPins.StatusKept | emu2/H8CPU.cpp:1600-1602 | a write to the status register keeps a flag exactly when it was set and 1 is written |
| TPUPins.TickLevel | emu2/H8CPU.cpp:1653-1775 | what a tick leaves on a pin: driven by the match of its register, restored by a clear, in the order of the checks |
| TPUPins.MatchDrives | emu2/H8CPU.cpp:1726-1775 | a match leaves the pin as it was, low, high or toggled, as selected |
| TPUPins.ClearRestores | emu2/H8CPU.cpp:1653-1675 | in PWM mode 2 a clear leaves the pin at its initial level; that of the clearing register is driven from there |
| TPUPins.TicksReport | emu2/H8CPU.cpp:1848-1856 | over any number of ticks the port has the pins as they are, and every report carries the cycle of a tick |
| TPU.TPU.constructor | emu2/H8CPU.h:217-254 | a channel starts stopped, without a clock, with compare register A at 0xFFFF and all else 0 |
| TPU.TPU.CalcNextUpdate | emu2/H8CPU.cpp:1832-1846 | finds the next event, and stores a cycle that is late by the counter in ticks |
| TPU.TPU.SetReg | emu2/H8CPU.cpp:1508-1630 | every register write has the stated effect: a byte write replaces one byte of a word and keeps the other, by number, the clock divider is a number for each control value; afterwards the next event is known again, looked for anew exactly where the source does; the fields it does not name stay |
| TPU.TPU.WriteCounter | emu2/H8CPU.cpp:1604-1612 | the two bytes of the counter written in either order give 256 times the high one plus the low one; the compare registers stay |
| TPU.TPU.WriteGeneral | emu2/H8CPU.cpp:1614-1628 | likewise for each compare register; the others and the counter stay |
| TPU.TPU.SetTCR | emu2/H8CPU.cpp:1512-1549 | the divider as a number for each control value, 1, 4, 16, 64 and so on by channel, halved for both edges, and the clear source; a shift of -2 for both edges of a clock the channel does not have |
| TPU.TPU.SetTIOR | emu2/H8CPU.cpp:1561-1592 | the halves of output control and the mask of outputs |
| TPU.TPU.Jump | emu2/H8CPU.cpp:1677-1806 | one round of the loop is that many ticks and keeps the next event known, so the round is never empty |
| TPU.TPU.Update | emu2/H8CPU.cpp:1632-1807 | an update is all whole ticks since the last one: counter, flags, outputs, interrupts and port updates with their time stamps; the next event is looked for exactly when one is met; with a shift of -2 only the registers are kept |
| TPU.TPU.UpdateForInterrupts | emu2/H8CPU.cpp:1809-1815 | with an interrupt enabled a counting channel is updated from the cycle stored on and left alone before it; when that leaves an event overdue, and for how long at most |
| TPU.TPU.PunctualWhen | emu2/H8CPU.cpp:1632-1651 | how far the stored cycle lies from the next event, and that no look leaves an event overdue if and only if the counter was 0 when it was computed or the stored cycle is not later than the event |
| TPU.LateMatch | emu2/H8CPU.cpp:1809-1846 | a channel set up by register writes and started, whose second compare match a look leaves overdue |
| TPU.ShiftUndefined | emu2/H8CPU.cpp:1526-1543 | exactly the control values that select both edges of a clock the channel does not have give a shift of -2 |
| SCITicks.QuietTicks | emu2/H8CPU.cpp:2062-2074 | cycles inside a character only count it down |
| SCITicks.AdvanceTicks | emu2/H8CPU.cpp:2064-2099 | a jump that does not pass the end of a character is that many single cycles |
| SCITicks.SentWhenDue | emu2/H8CPU.cpp:2074-2089 | a waiting character is sent exactly when the one before it ends, once, and nothing else is sent |
| SCITicks.LineEnds | emu2/H8CPU.cpp:2074-2089 | with the transmitter on, TEND shows exactly from the end of the last character on, TEI is requested then, once, and the counter is what is left until then |
| SCITicks.ClockRuns | emu2/H8CPU.cpp:2091-2098 | a synchronous receiver without a transmitter keeps the clock running, character after character |
| SCITicks.ClockStops | emu2/H8CPU.cpp:2074-2099 | with neither it stops at the end of the character |
| SCITicks.SamplingIndependence | emu2/H8CPU.cpp:2045-2110 | for the transmit side, updating at one time and again later is updating once at the later time |
| SCITicks.TicksQuiet | emu2/H8CPU.cpp:2045-2110 | the line does not depend on the interrupts requested |
| SCITicks.TicksSound | emu2/H8CPU.cpp:2045-2110 | cycles keep: a waiting character has a transmitter and a running clock, TEND only with TDRE, and frames apart by the length of the earlier one |
| SCITicks.AcceptSound | emu2/H8CPU.cpp:2016-2034 | so does accepting a character while one is on the line |
| SCITicks.SendSound | emu2/H8CPU.cpp:2016-2034 | so does accepting one with the line free and sending it at once |
| SCITicks.OffSound | emu2/H8CPU.cpp:1994-2012 | so does switching the transmitter off |
| SCIReceive.AsyncRound | emu2/H8CPU.cpp:2054-2109 | one round of the loop, asynchronous: the receiver afterwards is the one of an update that long |
| SCIReceive.SyncRound | emu2/H8CPU.cpp:2054-2109 | the same, synchronous |
| SCIReceive.RoundHolds | emu2/H8CPU.cpp:2056-2064 | a round to the next end of a character meets the ends the line meets, and no other |
| SCIReceive.AtKeeps | emu2/H8CPU.cpp:2045-2110 | an update keeps the balance of the receiver: RDRF set once for each time it was cleared or is still set, asynchronous characters apart, and every byte of the device either read, in order, or still there |
| SCIReceive.AsyncAfter | emu2/H8CPU.cpp:2101-2106 | what an update does to an asynchronous receiver: one byte comes in exactly when RE is on, a device attached, RDRF clear and a byte there once the last character is over; then RDRF is set, the data register is that byte, it leaves the device, RXI is delayed and the counter runs; else all stays |
| SCIReceive.SyncAfter | emu2/H8CPU.cpp:2091-2098 | and to a synchronous one: a byte with each character sent, or with the clock of the receiver alone, the filler counted; with RDRF set the overrun flag and nothing else |
| SCIReceive.TakesAll | emu2/H8CPU.cpp:2104-2106 | an asynchronous receiver leaves no byte at the device unless RDRF is set or a character is still coming in |
| SCIReceive.LooksMatter | emu2/H8CPU.cpp:2054-2106 | updating an asynchronous receiver once more in between changes nothing if and only if it is not free with a byte waiting while no character on the line ends before that update |
| SCIReceive.SendingTakes | emu2/H8CPU.cpp:2206-2210 | what comes in with a synchronous character sent at once: the next byte of the device, or the one in the data register again |
| SCI.Serial.constructor | emu2/H8CPU.h:281-315 | a port starts in a valid state, nothing sent, received or handed over |
| SCI.FlagBits | emu2/Registers.h:179-217 | the flags are the bits the register definitions name |
| SCI.StatusChanges | emu2/H8CPU.cpp:2041-2042 | setting and clearing flags, in bits |
| SCI.WrittenBits | emu2/H8CPU.cpp:2022 | a write to the status register clears its top five bits, leaves the next two and takes the last, in bits |
| SCI.CharacterCycles | emu2/H8CPU.cpp:2130-2163 | the cycles of a character by its parts: start, 7 or 8 data, parity or multiprocessor, 1 or 2 stop bits and the idle one, each 32 cycles times 4^select times the bit rate; synchronous 8 bits of 4 cycles |
| SCI.Serial.UpdateClockDiv | emu2/H8CPU.cpp:2130-2163 | the cycles of a character, never 0: frame bits times cycles of a bit |
| SCI.Serial.CalcNextUpdate | emu2/H8CPU.cpp:2165-2190 | the next update is at once with an interrupt delayed or an asynchronous character ready at the device, and else at the soonest end of a character |
| SCI.Serial.Arrive | emu2/H8CPU.h:128-136 | bytes reach the device |
| SCI.SendConserves | emu2/H8CPU.cpp:2192-2211 | sending the waiting character keeps the balance: clears of TDRE are characters sent, waiting or withdrawn, and the bytes sent are the bytes accepted |
| SCIReceive.FillKeeps | emu2/H8CPU.cpp:2213-2243 | receiving keeps the balance: RDRF is set once for each time it was cleared or is still set, and asynchronous characters are apart |
| SCI.Serial.Receive | emu2/H8CPU.cpp:2213-2243 | a character is stored: the next byte of the device, or what was there before; the filler goes out first in receive-only synchronous mode; the interrupt is delayed, and an asynchronous character starts the counter |
| SCI.Serial.DoTX | emu2/H8CPU.cpp:2192-2211 | sends the data register, which the device may answer, restarts the clock, and in synchronous mode receives: the byte, the overrun and the interrupt |
| SCI.Serial.DoRX | emu2/H8CPU.cpp:2213-2243 | stores a character, or marks an overrun and keeps the one not yet taken, without asking the device |
| SCI.Serial.FinishChar | emu2/H8CPU.cpp:2078-2098 | the end of a character: the next one, or TEND and its interrupt, or another receive-only character; and what each does to the receiver |
| SCI.Serial.PassTX | emu2/H8CPU.cpp:2062-2099 | the transmit counter never underflows, and the step is that many single cycles; the receiver changes only at the end of a character |
| SCI.Serial.PassRX | emu2/H8CPU.cpp:2101-2106 | the receive counter never underflows; when it has run out, RE is on and RDRF clear, an asynchronous character comes in if and only if the device has a byte |
| SCI.Serial.Update | emu2/H8CPU.cpp:2045-2110 | catches up with the clock: the line as single cycles would leave it, first raising delayed interrupts; TEND, TEI and the counter at the end of the last character outright; the receiver takes one byte of the device, or none, exactly as `SCIReceive.AsyncAfter` and `SyncAfter` say, with the answers of the device recorded; the next update is due as calculated; the invariant is kept |
| SCI.Serial.UpdateForInterrupts | emu2/H8CPU.cpp:2112-2123 | with an interrupt enabled no end of a character is overdue, and what has been sent is what an update would have sent; the port is updated or left alone |
| SCI.Serial.SetReg | emu2/H8CPU.cpp:1983-2043 | the effect of every write to every address on all registers, on status, rate, line, both counters, delayed and requested interrupts and acknowledgements; the invariant is kept; each clear of TDRE with the transmitter on hands over one character, sent at once when the line is free |
| SCIRuns.Happens | emu2/H8CPU.cpp:4541-4573 | a write after an update, a transfer without one, time, a read, a look or bytes reaching the device does to the transmit side what it should, and gives the receiver the bytes of the device, in order |
| SCIRuns.TakesAdds | emu2/H8CPU.cpp:2045-2110 | an update adds to the bytes read and to the characters received; asynchronous characters and the bytes still at the device together gain exactly what the device was given |
| SCIRuns.FollowsInstantly | emu2/H8CPU.cpp:1983-2110 | each of them, on a port that is behind, is the same on one that is not |
| SCIRuns.RunClocked | emu2/H8CPU.cpp:1983-2123 | over every run whose transfers come right after an update, the port caught up is one clocked every cycle to which each event happens at once |
| SCIRuns.PutDelivers | emu2/H8CPU.cpp:1983-2043 | a write adds the character it hands over to those sent or waiting, takes the waiting one back or replaces it, and no other changes them |
| SCIRuns.RunDelivers | emu2/H8CPU.cpp:1983-2123 | over every run: the characters sent or waiting are those the account of the writes gives, in order, as many as from before and handed over less those withdrawn; what has been sent stays; frames do not overlap |
| SCIRuns.NothingWithdrawn | emu2/H8CPU.cpp:2041-2042 | with the transmitter left on, none is withdrawn |
| SCIRuns.LedgerAdds | emu2/H8CPU.cpp:1983-2043 | without withdrawals and replacements that account is what was handed over, in order |
| SCIRuns.RunExact | emu2/H8CPU.cpp:1983-2123 | with the transmitter left on and TDR not rewritten while it waits, the characters sent and waiting are exactly those handed over, in order |
| SCIRuns.LaterSends | emu2/H8CPU.cpp:2074-2089 | a waiting character is sent as soon as the one on the line has ended |
| SCIRuns.LookSees | emu2/H8CPU.cpp:2112-2123 | after a look with an interrupt enabled the port is not behind with sending |
| SCIRuns.Run | emu2/H8CPU.cpp:1983-2123 | all this of the port itself, for any sequence of events; over the run the bytes read, followed by those still at the device, are those it has been given, in order, none lost or doubled; the characters of an asynchronous receiver are those bytes, at least a character apart |
| ALU.SumFacts | emu2/H8CPU.cpp:3746-3780 | the carry, overflow and half-carry tests of an addition say whether the exact sums fit |
| ALU.DifferenceFacts | emu2/H8CPU.cpp:3964-3998 | the borrow, overflow and half-borrow tests of a subtraction say whether the exact differences fit |
| ALU.H8CPU.DoADD | emu2/H8CPU.cpp:3746-3760 | result and flags of an addition at each size, in terms of the exact sums; `ALU.SumInBytes` says what the sizes are |
| ALU.H8CPU.DoADDX | emu2/H8CPU.cpp:3762-3780 | the same with carry, on bytes; the zero flag is cleared |
| ALU.H8CPU.DoSUB | emu2/H8CPU.cpp:3964-3978 | result and flags of a subtraction at each size; `ALU.DifferenceInBytes` says what the sizes are |
| ALU.H8CPU.DoSUBX | emu2/H8CPU.cpp:3980-3998 | the same with borrow, on bytes; the zero flag is cleared |
| ALU.H8CPU.DoCMP | emu2/H8CPU.cpp:3791-3795 | stores nothing, and then all sixteen branches decide their relations |
| ALU.H8CPU.DAA | emu2/H8CPU.cpp:497-517 | adjusts a sum |
| ALU.H8CPU.DAS | emu2/H8CPU.cpp:585-600 | adjusts a difference |
| ALU.H8CPU.HandleBranch | emu2/H8CPU.cpp:3269-3338 | the sixteen conditions; the program counter moves only when the branch is taken |
| ALU.CompareDecides | emu2/H8CPU.cpp:3269-3338 | after a comparison each branch is taken exactly on the unsigned or signed relation, at 8, 16 and 32 bits |
| ALU.BranchDecides | emu2/H8CPU.cpp:3269-3338 | with borrow, overflow and sign of a difference of any width, a branch decides its relation unless it looks at a zero flag that is clear for equal numbers |
| ALU.BranchesCombine | emu2/H8CPU.cpp:3269-3338 | for all flags: each odd condition is the opposite of the even one before it, BLS is BCS or BEQ, BLE is BEQ or BLT, BLT is BMI or else BVS |
| ALU.AddChainAdds | emu2/H8CPU.cpp:3762-3780 | ADDX over n bytes adds the n-byte numbers: bytes and carry are the exact sum, V and N those of the whole number |
| ALU.SubChainSubtracts | emu2/H8CPU.cpp:3980-3998 | SUBX over n bytes subtracts them: bytes and borrow are the exact difference, V and N those of the whole number |
| ALU.SumInBytes | emu2/H8CPU.cpp:3746-3760 | an addition of one, two or four bytes is the chain of ADDX with carry clear: the same bytes, C, V and N |
| ALU.DifferenceInBytes | emu2/H8CPU.cpp:3964-3978 | a subtraction or comparison is the chain of SUBX: the same bytes, C, V and N |
| ALU.BranchAfterChain | emu2/H8CPU.cpp:3980-3998 | after such a subtraction a branch decides the relation if and only if it does not use the zero flag or the numbers differ |
| ALU.OnePairSum | emu2/H8CPU.cpp:497-517 | ADDX then DAA on two packed decimal bytes is their decimal sum and carry |
| ALU.OnePairDifference | emu2/H8CPU.cpp:585-600 | SUBX then DAS is their decimal difference and borrow |
| ALU.DecimalAddChainAdds | emu2/H8CPU.cpp:497-517 | over n bytes, the 2n-digit decimal sum, still packed, and its carry |
| ALU.DecimalSubChainSubtracts | emu2/H8CPU.cpp:585-600 | over n bytes, the 2n-digit decimal difference and its borrow |
| CRC.StepLinear | emu2/CRC.cpp:10-17 | the shift step respects exclusive-or |
| CRC.StepKeeps | emu2/CRC.cpp:10-17 | the step stays within the register and maps only 0 to 0 |
| CRC.FeedLinear | emu2/CRC.cpp:3-41 | the register after the difference of two bit strings is the difference of the registers |
| CRC.FeedByte | emu2/CRC.cpp:9-17 | one exclusive-or and eight steps take in a byte's bits, lowest first |
| CRC.BurstDetected | emu2/CRC.cpp:3-41 | messages that differ only inside a window of 16 (32) bits, at any bit position, have different check values |
| CRC.WindowDetected | emu2/CRC.cpp:3-41 | the same for a window of 2 (4) bytes |
| CRC.OddErrorsDetected | emu2/CRC.cpp:3-21 | messages of any length that differ in an odd number of bits have different 16-bit check values |
| BitPairs.SquareNext | emu2/CRC.cpp:10-17 | moving every bit of the 16-bit register to twice its power turns one shift step into two |
| BitPairs.SquarePower | emu2/CRC.cpp:10-17 | so it doubles the number of steps |
| BitPairs.PrimeDivides | emu2/CRC.cpp:10-17 | a prime that divides a product divides a factor, which leaves three numbers of steps to rule out |
| BitPairs.OrderIs32767 | emu2/CRC.cpp:10-17 | no fewer than 32767 steps bring the register back to 1 |
| BitPairs.PowerIsUnit | emu2/CRC.cpp:10-17 | the numbers of steps that do are the multiples of 32767 |
| BitPairs.TwoErrors | emu2/CRC.cpp:3-21 | messages of any length that differ in exactly two bits have different 16-bit check values if and only if the bits are not a multiple of 32767 places apart |
| BitPairs.ThreeErrors | emu2/CRC.cpp:3-21 | messages of up to 4095 bytes that differ in one to three bits have different 16-bit check values |
| CRC.CheckAffine | emu2/CRC.cpp:3-41 | the exclusive-or of three messages has the exclusive-or of the three check values |
| CRC.Residue | emu2/CRC.cpp:3-41 | a message followed by 2 (4) bytes checks to 0 if and only if those bytes, low first, are its check value |
| CRC.OwnBytesCancel | emu2/CRC.cpp:3-41 | feeding the register's own bytes back low byte first leaves 0 |
| CRC.EmptyCheck | emu2/CRC.cpp:23-41 | the check value of the empty message is the initial register: nothing is complemented |
| CRC.OneByteChecks | emu2/CRC.cpp:3-41 | the check values of the byte 0x7F, which show the polynomials: 0xED477CDF and 0xA0FE |
| CRC.Crc16 | emu2/CRC.cpp:3-21 | the nested loops compute the 16-bit check value |
| CRC.Crc32 | emu2/CRC.cpp:23-41 | the nested loops compute the 32-bit check value |

## Left out

- RFSerial.RFSerial.GenPoly: more than 254 roots are excluded; the repository uses 20 and 80.
- ALU.H8CPU.DoADDX: bytes only, the one size the instruction set has; likewise DoSUBX.
- LZSS.DecodeLZSS: what an input that is read past its end leaves in the output is not stated, since it depends on the bytes behind the input; that reading them may fail is not modelled.
- BitPairs.TwoErrors: the 16-bit check only; pairs of wrong bits further apart than a window are not treated for the 32-bit one.
- SCI.Serial.DoRX: the device is a queue of bytes that come at any time, and its answers to bytes written to it are arbitrary and immediate; a device that takes back a byte it has shown, and one replaced by another, are not modelled.
- SCIRuns.RunClocked: a transfer channel that clears TDRE without an update just before it is excluded, since its write takes effect as of the last update; `SCIRuns.RunDelivers` covers it.
- TPU.TPU.Update: nothing is promised of the count after a shift by a negative amount, which the language leaves undefined.
- Time is unbounded: the wrap of the 32-bit cycle counter is not modelled. Addresses into buffers are indices.
- In the TPU: external clocks, `setEnabled` (output values on start), and the outputs of compare registers C and D, which the source does not drive either.
- In the serial port: the values of register reads, and the messages printed when no device is attached.
- In the ALU: instruction decoding, addressing, timing, the remaining instructions, and H and V after DAA and DAS, which the source leaves as they were.
- `fsChecksum`, `encodeBoot`, the sockets and framing around the packets, file headers of the image tool.
- The 8-bit timers, ADC, DMA and DTC controllers, I/O ports, keyboard, LCD, real-time clock and USB.
