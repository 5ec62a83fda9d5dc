# Verified model of libff

libff is a C++ utility library. This project models its self-contained algorithms and protocols in
Dafny, method by method, and proves what they are for. Classes keep the fields and loops of the
source; each method is proved against functions on values, and the main results are lemmas about
those functions, over all inputs and all runs. `dafny verify dfyconfig.toml` checks everything.

What the files hold:

- `TimingWheel.dfy`: the hashed wheel of 100 slots. Single ticks are the reference; `doTick`, with its
  branch for whole rotations, is proved to refine them, and from that follows when each task fires.
- `Crc.dfy`: the table-driven CRC, proved equal to polynomial division over GF(2) for widths 8 to 63,
  and the calculation resumed from a finished result.
- `Rijndael.dfy`, `RijndaelKeys.dfy`, `RijndaelModes.dfy`, `RijndaelCode.dfy`: arithmetic of columns,
  key expansion, the cipher and its equivalent inverse, block chaining, and the cipher object whose
  arrays are filled in place. `RijndaelTables.dfy` holds the substitution boxes of the source and ties the
  model to the example vectors of FIPS 197.
- `Md5.dfy`: block buffering, the two-word bit count and the padding, for any block function.
- `TcpSend.dfy`: the sending side of a connection as steps of several threads, and the methods that
  take those steps.
- `ThreadPool.dfy`: the hand-over of tasks to pooled threads, one step for each region under a lock.
- `Buffer.dfy`, `Framing.dfy`, `MsgFraming.dfy`, `DsFraming.dfy`: the growing buffer, and reassembly of
  packages from a byte stream cut anywhere, first for any format and then for the two of the library.
- `MsgServer.dfy`: the subscription index of the message bus server against the history of callbacks.
- `Strings.dfy`, `CliPacket.dfy`, `IP.dfy`, `Payload.dfy`: printers and parsers, and their round trips.
- `Timer.dfy`: the sorted list of timer tasks, linked in both directions through the heap.
- `Basics.dfy`: bytes, machine words and sequences of sequences.

What the code does where one might expect otherwise:

- A wheel task whose adjusted delay is a multiple of 100 fires 100 ms late (`FiresExactlyWhenDue`), and
  one whose delay wraps at 64 bits fires early (`NeverEarly` says exactly when).
- A command line packet does not come back from its text if a text member holds a backslash, since the
  printer escapes quotes only (`CliPackets.RoundTrip` is an equivalence).
- If a command line packet ends with a space before its semicolon, its last value is lost unless it is quoted
  (`SpaceLosesValue`), and a quoted value that is not closed loses its last character (`OpenQuoteLosesLast`).
- `parseV6` refuses `::` with seven groups on one side, and six groups with four numbers behind them if that is
  longer than 39 characters, both of which RFC 4291 allows (`SevenAtOneEnd`, `MixedAddress`). It accepts a `::`
  that stands for nothing, between six groups with four numbers behind them (`MixedCompressed`).
- A byte 0x66 in front of a data service packet hides the packet (`StrayByte`), and behind 2^31 bytes of
  garbage or more the packet is thrown away with the whole buffer (`FarPacket`); `Resynchronises` says exactly
  which garbage is skipped. For a packet that claims fewer bytes than its header, memory outside the buffer is
  hashed (`BrokenIff` says exactly when, `ShortPacket` is an input).
- `generate` on a package object that has the capacity keeps the old size, and a data service packet
  then carries it as its length. `MsgFraming.Generate` and `DsFraming.Generate` say exactly when the object
  holds a package all the same, and `LongThenShort` in both modules is a case in which it does not.
- A message bus frame that claims fewer bytes than a header is taken for a package of that size
  (`ShortFrame`). For one that claims none, `getPackage` gives an empty package again and again (`ZeroFrame`),
  and as that has no data, both callers read through a null header at once (`MessageBus.cpp:235-238` and
  `447-450`).
- Encryption in place works in ECB and CBC; in CFB every byte becomes zero (`EncryptInPlace`,
  `EncryptCFBInPlace`). A message decrypted in place always comes back in ECB, in CBC if and only if every block
  but the last is its own ciphertext block, so always for a single block, and in CFB if and only if it is zero
  (`BackInPlace`, `MessageInPlace`).
- A connection accepts `send` before `connect`, but the connect then asks for POLLIN only, and what was sent
  waits for the next `send` (`SendThenConnect`; `UnaskedIsStalled` says exactly which runs come to that).
- A null runnable given to the thread pool keeps its thread busy for ever (`NullForever`).
- The reader of a payload has 32 bits for its length, so a payload of 4 GiB or more does not come back
  (`Payloads.RoundTrip` and `Appended` are equivalences). A payload cut inside a value may be read beyond
  its end (`NumberOverrun`, `TextOverrun`, `ArrayOverrun`, `CutBack`).
- `Payload::append` asks for the length of the other payload again after it has grown. For a payload appended
  to itself more is then copied than there is room for, unless its 32-bit length is 0, or 2^31 or more, and in
  that case the result is not the payload twice, unless it is empty (`SelfFitsIff`; `OneByteToItself` is an input).
- The expiry sweep of the timer takes for granted that a task behind the head that goes has a
  successor. That holds with one clock reading and nothing cancelled (`OneReading`), and in general if
  and only if the last task stays or all go (`NextIsThere`); two readings can break it (`TwoReadings`),
  so `Sweep` requires it.

## Model

| member | source | states |
|---|---|---|
| TimingWheels.TicksCompose | ff/src/timer/TimingWheel.cpp:116-188 | splitting time differently changes nothing: `a` ticks and then `b` ticks give the same positions, rounds, tasks and multiset of enqueued tasks as `a + b`, cancelled tasks included |
| TimingWheels.TicksArePasses | ff/src/timer/TimingWheel.cpp:116-188 | `n` single ticks are one pass in which each slot is visited as often as the ticks reach it; the visits of a slot are all that matters to its tasks |
| TimingWheels.Rotations | ff/src/timer/TimingWheel.cpp:120-125 | whole rotations visit every slot exactly once each, and the rest of the ticks visit the slots within their distance |
| TimingWheels.SweepIsTicks | ff/src/timer/TimingWheel.cpp:120-187 | the two loops together, whole rotations slot by slot and then single slots, are `n` single ticks |
| TimingWheels.FiresExactlyWhenDue | ff/src/timer/TimingWheel.cpp:79-81 | placed with quotient and remainder of its adjusted delay `d`, a task has been visited often enough to be enqueued if and only if `d` ticks have passed, or `d + 100` when 100 divides `d` |
| TimingWheels.IdleTicks | ff/src/timer/TimingWheel.cpp:92-98 | while every task is further away than `k` slots, `k` ticks only move the position |
| TimingWheels.RunStands | ff/src/timer/TimingWheel.cpp:100-188 | in every run of additions, cancellations and polls that leaves a task alone, the task is waiting with the right rounds, or enqueued exactly once, as the elapsed ticks alone determine |
| TimingWheels.FiringTime | ff/src/timer/TimingWheel.cpp:72-188 | in every run after its addition that neither cancels nor adds it again, a task is enqueued exactly once, by the first poll that reads the clock at the time of the addition plus the delay asked for or later, 100 ms later if the delay counted from the last poll is a multiple of 100, and less what a wrap at 64 bits loses; it is on the wheel exactly until then |
| TimingWheels.NeverEarly | ff/src/timer/TimingWheel.cpp:79-81 | the due tick is not before the requested delay has passed if and only if delay plus time since the last poll does not wrap at 64 bits; it is never more than 100 ms late |
| TimingWheels.DueAt | ff/src/timer/TimingWheel.cpp:79-81 | the due tick of an addition as a reading of the clock, in the time of the addition and the delay alone |
| TimingWheels.CancelledNeverFires | ff/src/timer/TimingWheel.cpp:130-133 | a cancelled task is not enqueued in any further run, whatever its rounds, and leaves the wheel exactly when its slot is passed the next time |
| TimingWheels.TimingWheel.AddTask | ff/src/timer/TimingWheel.cpp:72-90 | one `AddTask` step of the clocked wheel, with a fresh task; nothing at all once stopped |
| TimingWheels.TimingWheel.GetLastMs | ff/src/timer/TimingWheel.cpp:92-98 | no task stands nearer than the answer among the next 99 slots, and one stands exactly there unless the answer is 1000 |
| TimingWheels.TimingWheel.VisitInBulk | ff/src/timer/TimingWheel.cpp:130-153 | a task whose slot is passed `round` times at once gets what that many single visits give it: dropped, enqueued, or its rounds lowered |
| TimingWheels.TimingWheel.Visit | ff/src/timer/TimingWheel.cpp:167-182 | the same for one visit |
| TimingWheels.TimingWheel.VisitAll | ff/src/timer/TimingWheel.cpp:126-153 | every task of the slot is visited; exactly those no longer waiting are marked, exactly those that fire are enqueued, once each |
| TimingWheels.TimingWheel.PassSlot | ff/src/timer/TimingWheel.cpp:124-157 | the wheel after one slot is that slot passed and every other left alone |
| TimingWheels.TimingWheel.TurnInBulk | ff/src/timer/TimingWheel.cpp:123-158 | the whole-rotation branch passes every slot `round` times |
| TimingWheels.TimingWheel.TurnBySlots | ff/src/timer/TimingWheel.cpp:160-187 | the remaining ticks pass the slots up to their number once more and move the position |
| TimingWheels.TimingWheel.DoTick | ff/src/timer/TimingWheel.cpp:116-188 | refines single ticks: the wheel becomes exactly what `tickPassed` single ticks make of it |
| TimingWheels.TimingWheel.RunOnce | ff/src/timer/TimingWheel.cpp:105-112 | one turn of the polling loop is one `Poll` step of the clocked wheel |
| CrcDivision.RegisterDivides | ff/src/encrypt/CRC.cpp:84-92 | feeding a message bit by bit into the feedback register leaves the remainder of schoolbook division over GF(2), for every starting value |
| CrcDivision.DivisionLaw | ff/src/encrypt/CRC.cpp:84-92 | there is a quotient with which the remainder of the long division gives the dividend again |
| CrcDivision.RemainderUnique | ff/src/encrypt/CRC.cpp:84-92 | and no other quotient and rest do |
| CrcDivision.ByteStepEnters | ff/src/encrypt/CRC.cpp:387-388 | a byte through the table equals its eight bits entering one by one, for every register of at least 8 bits |
| Crc.ReflectBits | ff/src/encrypt/CRC.cpp:42-52 | the low `width` bits in reverse order |
| Crc.CrcParameter.constructor | ff/src/encrypt/CRC.cpp:54-69 | for every width 8 to 63: mask, high bit and a table whose low bits are right although entries carry higher bits |
| Crc.CrcParameter.ShiftIsShift | ff/src/encrypt/CRC.cpp:85-88 | testing the high bit of the unmasked word, shifting it and adding the polynomial is one shift of the register in its low bits |
| Crc.CrcParameter.EightShifts | ff/src/encrypt/CRC.cpp:84-89 | eight turns of the inner loop are eight register shifts |
| Crc.CrcParameter.UpdateTable | ff/src/encrypt/CRC.cpp:79-93 | every one of the 256 entries holds, in its low bits, its byte at the top of the register shifted out |
| Crc.CrcCalculator.Step | ff/src/encrypt/CRC.cpp:384-388 | one byte through the table is eight bits entering the register, whatever stands above it |
| Crc.CrcCalculator.Update | ff/src/encrypt/CRC.cpp:378-393 | the masked register is the remainder of the message polynomial behind the old register |
| Crc.CrcCalculator.Finalize | ff/src/encrypt/CRC.cpp:395-403 | output reflection and sum, masked |
| Crc.CrcCalculator.Calc | ff/src/encrypt/CRC.cpp:353-359 | the finished remainder of the data; the calculator is reset |
| Crc.CrcCalculator.CalcFrom | ff/src/encrypt/CRC.cpp:361-376 | the finished remainder of the data behind the register that the earlier result came from |
| Crc.DividedInParts | ff/src/encrypt/CRC.cpp:378-393 | dividing in two parts, the first remainder as the second start, is dividing the whole |
| Crc.BitsEnter | ff/src/encrypt/CRC.cpp:385 | the bits of a byte enter from the lowest if the input is reflected, and from the highest otherwise |
| Crc.FinishAt | ff/src/encrypt/CRC.cpp:395-403 | each bit of a finished result: that of the register, taken from the other end if the output is reflected, plus that of the final sum |
| Crc.ResumeUndoesFinish | ff/src/encrypt/CRC.cpp:363-367 | undoing sum and reflection gives back the register, for every setting |
| Crc.ResumedCalculation | ff/src/encrypt/CRC.cpp:361-376 | a calculation resumed from a finished result is that of the whole message |
| Crc.CrcCalculator.PartsAreWhole | ff/src/encrypt/CRC.cpp:353-376 | as words: `calc(b, calc(a))` equals `calc(a + b)` |
| RijndaelField.InvMixOfMix | ff/src/encrypt/Rijndael.cpp:796-802 | the inverse column product, the sum of the tables U1 to U4, undoes MixColumn on every word |
| RijndaelField.InvMixLinear | ff/src/encrypt/Rijndael.cpp:796-802 | it is linear, which is why round keys can be mixed once, in advance |
| RijndaelCipher.ShiftBack | ff/src/encrypt/Rijndael.cpp:642-644 | for 4, 6 and 8 columns the decryption shifts undo the encryption shifts |
| RijndaelCipher.SubShiftBack | ff/src/encrypt/Rijndael.cpp:963-1014 | inverse substitution and shifting undo substitution and shifting |
| RijndaelCipher.DecipherRetraces | ff/src/encrypt/Rijndael.cpp:1006-1014 | after `r` rounds decryption stands where encryption stood `r` rounds before its end, substituted and shifted |
| RijndaelCipher.InverseCipher | ff/src/encrypt/Rijndael.cpp:939-1024 | the equivalent inverse cipher (section 5.3.5 of FIPS 197) undoes the cipher, for every number of rounds and every block of 4, 6 or 8 words |
| RijndaelKeys.EvolvedWord | ff/src/encrypt/Rijndael.cpp:768-789 | the in-place round key evolution produces the words of the key expansion of section 5.2 of FIPS 197, for keys of 4, 6 and 8 words |
| RijndaelTables.TablesInverse | ff/src/encrypt/Rijndael.cpp:44-80 | the substitution boxes of the source, all 256 entries, undo each other, as the round trips ask |
| RijndaelTables.Fips197 | ff/src/encrypt/Rijndael.cpp:810-869 | for these boxes, a key of 128 bits and a block of 128 bits the cipher gives the answer of appendix C.1 of FIPS 197 |
| RijndaelTables.ObjectAnswers | ff/src/encrypt/Rijndael.cpp:939-979 | so does an object that has made this key |
| RijndaelTables.RoundsAre | ff/src/encrypt/Rijndael.cpp:728-739 | for each of the nine size pairs the number of rounds is the longer of key and block in words, plus 6 |
| RijndaelTables.ColumnsFrom | ff/src/encrypt/Rijndael.cpp:642-644 | the columns from which a column takes its bytes, for blocks of 4, 6 and 8 columns |
| RijndaelTables.RconTable | ff/src/encrypt/Rijndael.cpp:638-640 | the 30 round constants of the source are the powers of x |
| RijndaelTables.Expansion192 | ff/src/encrypt/Rijndael.cpp:768-789 | the first new words of appendix A.2 of FIPS 197 |
| RijndaelTables.Expansion256 | ff/src/encrypt/Rijndael.cpp:768-789 | those of appendix A.3, as far as the word that is substituted without rotation |
| RijndaelTables.X2IsProduct | ff/src/encrypt/Rijndael.cpp:834-841 | the doubling behind all tables is the remainder of the byte times x by x^8 + x^4 + x^3 + x + 1, by the long division of the CRC (section 4.2.1 of FIPS 197) |
| RijndaelCode.CRijndael.EvolveKey | ff/src/encrypt/Rijndael.cpp:769-789 | one turn of the evolution takes the work array from one group of the expanded key to the next |
| RijndaelCode.CRijndael.CopyWords | ff/src/encrypt/Rijndael.cpp:791-794 | the words go to the encryption rows in order and to the decryption rows in reverse, as far as needed |
| RijndaelCode.CRijndael.ExpandKey | ff/src/encrypt/Rijndael.cpp:750-795 | all words of the expanded key stand in both key arrays |
| RijndaelCode.CRijndael.MixDecryptionRows | ff/src/encrypt/Rijndael.cpp:796-802 | the inner decryption rows are inverse-mixed, the outer ones are not |
| RijndaelCode.CRijndael.KeysReady | ff/src/encrypt/Rijndael.cpp:796-802 | row R-r of the decryption keys is row r of the encryption keys at both ends and its inverse mix in between |
| RijndaelCode.CRijndael.MakeKey | ff/src/encrypt/Rijndael.cpp:714-804 | for each of the nine size pairs the keys are the expansion of the key and its inverse, and the chain is set; on each error, in the order of the code, nothing changes |
| RijndaelCode.CRijndael.ResetChain | ff/src/encrypt/Rijndael.cpp:705-707 | the chain becomes the initial chain again |
| RijndaelCode.CRijndael.XorInto | ff/src/encrypt/Rijndael.cpp:679-684 | one block is added to another, or to itself; no other byte changes |
| RijndaelCode.CRijndael.EncTables | ff/src/encrypt/Rijndael.cpp:834-841 | the four table look-ups of a column are MixColumn of the substituted column |
| RijndaelCode.CRijndael.DecTables | ff/src/encrypt/Rijndael.cpp:899-906 | and those of decryption the inverse mix of the inversely substituted column |
| RijndaelCode.CRijndael.EncryptRound | ff/src/encrypt/Rijndael.cpp:962-969 | one round in the work arrays |
| RijndaelCode.CRijndael.LastEncryptRound | ff/src/encrypt/Rijndael.cpp:970-978 | the last round, byte by byte into the result; no other byte changes |
| RijndaelCode.CRijndael.EncryptWords | ff/src/encrypt/Rijndael.cpp:946-978 | the loops compute the cipher for blocks of every size |
| RijndaelCode.CRijndael.DefEncryptRound | ff/src/encrypt/Rijndael.cpp:832-846 | the unrolled round of four columns is the general one |
| RijndaelCode.CRijndael.DefEncryptBlock | ff/src/encrypt/Rijndael.cpp:810-869 | the unrolled form for 16-byte blocks computes the same cipher |
| RijndaelCode.CRijndael.EncryptBlock | ff/src/encrypt/Rijndael.cpp:939-979 | the cipher of the block at its place in the result, nothing else, also in place; refused without keys, changing nothing |
| RijndaelCode.CRijndael.DecryptRound | ff/src/encrypt/Rijndael.cpp:1006-1014 | one round of decryption in the work arrays |
| RijndaelCode.CRijndael.LastDecryptRound | ff/src/encrypt/Rijndael.cpp:1015-1023 | the last round of decryption into the result |
| RijndaelCode.CRijndael.DecryptWords | ff/src/encrypt/Rijndael.cpp:991-1023 | the loops compute the inverse cipher for blocks of every size |
| RijndaelCode.CRijndael.DefDecryptRound | ff/src/encrypt/Rijndael.cpp:896-911 | the unrolled round of four columns is the general one |
| RijndaelCode.CRijndael.DefDecryptBlock | ff/src/encrypt/Rijndael.cpp:875-934 | the unrolled form for 16-byte blocks computes the same inverse cipher |
| RijndaelCode.CRijndael.DecryptBlock | ff/src/encrypt/Rijndael.cpp:984-1024 | the inverse cipher of the block at its place in the result, nothing else, also in place; refused without keys, changing nothing |
| RijndaelCode.CRijndael.BlockRoundTrip | ff/src/encrypt/Rijndael.cpp:939-1024 | with the keys `MakeKey` leaves, decrypting undoes encrypting for every key, block size and block |
| RijndaelCode.CRijndael.EncryptCBC | ff/src/encrypt/Rijndael.cpp:1037-1043 | one turn, in place too: output and new chain as CBC has them (section 6.2 of NIST SP 800-38A) |
| RijndaelCode.CRijndael.EncryptCFB | ff/src/encrypt/Rijndael.cpp:1046-1052 | one turn of CFB (section 6.3); in place the block is added to itself, and it and the chain become zero |
| RijndaelCode.CRijndael.EncryptECB | ff/src/encrypt/Rijndael.cpp:1055-1059 | one turn of ECB (section 6.1), the chain untouched, in place too |
| RijndaelCode.CRijndael.DecryptCBC | ff/src/encrypt/Rijndael.cpp:1074-1080 | one turn of CBC decryption; in place the chain becomes the block just decrypted instead of the one read |
| RijndaelCode.CRijndael.DecryptCFB | ff/src/encrypt/Rijndael.cpp:1083-1090 | one turn of CFB decryption, which encrypts the chain; in place the block and the chain become zero |
| RijndaelCode.CRijndael.DecryptECB | ff/src/encrypt/Rijndael.cpp:1093-1097 | one turn of ECB decryption, in place too |
| RijndaelCode.CRijndael.Encrypt | ff/src/encrypt/Rijndael.cpp:1026-1061 | result and chain are those of the chained blocks, in place those of the turns in place, and all other bytes are unchanged; refusals in the order of the code change nothing |
| RijndaelCode.CRijndael.Decrypt | ff/src/encrypt/Rijndael.cpp:1063-1099 | the same for decryption |
| RijndaelModes.OneBlockBack | ff/src/encrypt/Rijndael.cpp:1036-1098 | one block comes back in every mode; CFB needs no inverse of the block function |
| RijndaelModes.TwoBlocks | ff/src/encrypt/Rijndael.cpp:1026-1061 | two blocks in each mode, as sections 6.1 to 6.3 of NIST SP 800-38A write them |
| RijndaelModes.ModesRoundTrip | ff/src/encrypt/Rijndael.cpp:1026-1099 | from equal chains decryption undoes encryption of any number of blocks and leaves equal chains: ECB and CBC given the block inverse, CFB for any block function |
| RijndaelModes.EncryptInParts | ff/src/encrypt/Rijndael.cpp:1026-1061 | encrypting in two calls is encrypting at once |
| RijndaelModes.DecryptInParts | ff/src/encrypt/Rijndael.cpp:1063-1099 | decrypting in two calls is decrypting at once |
| RijndaelModes.EncryptInPlace | ff/src/encrypt/Rijndael.cpp:1026-1061 | encryption in place is encryption in ECB and CBC |
| RijndaelModes.EncryptCFBInPlace | ff/src/encrypt/Rijndael.cpp:1046-1052 | in place CFB loses the message: whatever the blocks were, all bytes become zero |
| RijndaelModes.DecryptECBInPlace | ff/src/encrypt/Rijndael.cpp:1093-1097 | decryption in place is decryption in ECB |
| RijndaelModes.DecryptCFBInPlace | ff/src/encrypt/Rijndael.cpp:1083-1090 | in CFB all bytes become zero |
| RijndaelModes.DecryptCBCInPlace | ff/src/encrypt/Rijndael.cpp:1074-1080 | in CBC a message comes back in place if and only if every block of it but the last is its own ciphertext block |
| RijndaelModes.BackInPlace | ff/src/encrypt/Rijndael.cpp:1063-1099 | when a message comes back that is decrypted over its own ciphertext, exactly: always in ECB, as said in CBC, and in CFB if and only if it is zero |
| RijndaelCode.CRijndael.MessageRoundTrip | ff/src/encrypt/Rijndael.cpp:1026-1099 | the round trip for the object itself: every key, block size, mode and message of whole blocks |
| RijndaelCode.CRijndael.MessageInPlace | ff/src/encrypt/Rijndael.cpp:1063-1099 | the same exact condition for the block functions of the object |
| RijndaelCode.CRijndael.EncryptWhole | ff/src/encrypt/Rijndael.cpp:1026-1061 | the result begins with the encryption of the whole message from the chain, in place too |
| RijndaelCode.CRijndael.DecryptWhole | ff/src/encrypt/Rijndael.cpp:1063-1099 | the same for decryption |
| RijndaelCode.ThereAndBack | ff/src/encrypt/Rijndael.cpp:705-1099 | a key made, a message encrypted, the chain reset and the result decrypted gives back the message, for every key, mode and size; refused exactly if it is empty or no whole number of blocks |
| Md5.PaddingLeast | ff/src/encrypt/MD5.cpp:168-169 | the padding is the shortest that brings the length to 56 modulo 64 (section 3.1 of RFC 1321) |
| Md5.PaddedInjective | ff/src/encrypt/MD5.cpp:165-174 | no two messages of fewer than 2^61 bytes have the same padded form |
| Md5.InitialWords | ff/src/encrypt/MD5.cpp:133-136 | the words that the first block is folded into, as bytes (section 3.3 of RFC 1321) |
| Md5.TwoBlocks | ff/src/encrypt/MD5.cpp:151-156 | blocks are folded from the first to the last |
| Md5.PaddedAbc | ff/src/encrypt/MD5.cpp:165-174 | the padded form of "abc", byte by byte |
| Md5.LongLength | ff/src/encrypt/MD5.cpp:165-174 | a length that needs the second word, low byte first |
| Md5.CountAdds | ff/src/encrypt/MD5.cpp:146-149 | the two words count bits modulo 2^64, whatever carries between them |
| Md5.IndexOfCount | ff/src/encrypt/MD5.cpp:144 | six bits of the low word tell how many bytes are held back |
| Md5.MD5Context.Count | ff/src/encrypt/MD5.cpp:146-149 | the two words count the bits of all bytes so far |
| Md5.MD5Context.Blocks | ff/src/encrypt/MD5.cpp:154-155 | whole blocks of the input are folded, fewer than 64 bytes are left |
| Md5.MD5Context.Fill | ff/src/encrypt/MD5.cpp:151-156 | the block in the buffer is completed and folded, then the whole blocks behind it |
| Md5.MD5Context.MD5Update | ff/src/encrypt/MD5.cpp:141-161 | the context is as if all bytes so far had come at once |
| Md5.MD5Context.MD5Final | ff/src/encrypt/MD5.cpp:165-174 | the digest is the fold of the padded message, encoded |
| Md5.MD5Context.CopyOf | ff/src/encrypt/MD5.cpp:324 | the copy stands for the same message, with a buffer of its own |
| Md5.MD5Encode | ff/src/encrypt/MD5.cpp:178-189 | the words, low byte first |
| Md5.MD5.Update | ff/src/encrypt/MD5.cpp:310-312 | the message grows by the bytes given |
| Md5.MD5.Result | ff/src/encrypt/MD5.cpp:322-327 | the digest of all bytes so far; nothing that existed before changes |
| Md5.DigestOfChunks | ff/src/encrypt/MD5.cpp:310-327 | however a message is cut, and however often the result is taken on the way, the digest is that of the whole message (sections 3.1 and 3.2 of RFC 1321) |
| Md5.FileMD5CheckSum | ff/src/encrypt/MD5.cpp:108-126 | the digest of the file, read 1024 bytes at a time; sixteen zeros when it cannot be opened |
| TcpSend.StepKeeps | ff/src/network/TcpConnection.cpp:494-624 | every step of every thread, connecting included, keeps: bytes on the wire, then those in hand, then those queued, are all bytes accepted; and while the socket is not registered, or pending data has no POLLOUT, the poll thread is outside the event |
| TcpSend.RunKeeps | ff/src/network/TcpConnection.cpp:494-624 | so does every interleaving |
| TcpSend.AcceptedIsSent | ff/src/network/TcpConnection.cpp:494-501 | what has been accepted is the concatenation of all buffers sent, in order |
| TcpSend.UnaskedIsStalled | ff/src/network/TcpConnection.cpp:442-624 | in every interleaving a registered socket has pending data without POLLOUT if and only if its connect met something pending and no send or hang-up has come since |
| TcpSend.SendThenConnect | ff/src/network/TcpConnection.cpp:468-501 | the input: a send, which finds no entry of the socket, and then the connect, which asks for POLLIN only |
| TcpSend.NothingLost | ff/src/network/TcpConnection.cpp:442-624 | in every interleaving with any partial or refused writes the wire holds a beginning of what was sent and the rest is in hand or queued, in order; while anything is pending on a registered socket, POLLOUT is armed if and only if no connect has stalled it |
| TcpSend.Drains | ff/src/network/TcpConnection.cpp:585-624 | from every reachable moment between events at which POLLOUT is armed, events in which the socket takes all that it is given put everything accepted on the wire, and then POLLOUT is off |
| TcpSend.NothingToSend | ff/src/network/TcpConnection.cpp:586-595 | an event that finds nothing in hand and nothing queued turns POLLOUT off |
| TcpSend.TcpConnection.Connect | ff/src/network/TcpConnection.cpp:468-472 | is the `Connect` step: an entry without POLLOUT, whatever is queued |
| TcpSend.TcpConnection.Listen | ff/src/network/TcpConnection.cpp:430-435 | the same step, and the connection then refuses to send |
| TcpSend.TcpConnection.Send | ff/src/network/TcpConnection.cpp:494-501 | is the `Send` step; nothing on a listening connection |
| TcpSend.TcpConnection.TakeQueue | ff/src/network/TcpConnection.cpp:586-595 | is the `Take` step: the queue moves over whole, or POLLOUT is dropped only if it is empty |
| TcpSend.TcpConnection.WriteFront | ff/src/network/TcpConnection.cpp:601-614 | writes, any of them partial or refused, until the front buffer is out or the socket refuses |
| TcpSend.TcpConnection.WriteOnce | ff/src/network/TcpConnection.cpp:606-613 | one write that the socket cuts short or refuses as it likes; the count of unsent bytes keeps up |
| TcpSend.TcpConnection.OnPollOut | ff/src/network/TcpConnection.cpp:585-624 | the whole event, with other threads sending in between, is a run of the protocol that begins with it and ends with a refusal of the socket or with nothing in hand |
| TcpSend.TcpConnection.NextBuffer | ff/src/network/TcpConnection.cpp:600-622 | one turn of the buffer loop: the front buffer goes out and is dropped, or stays after a refusal |
| TcpSend.TcpConnection.PopFront | ff/src/network/TcpConnection.cpp:619-621 | is the `Pop` step: a buffer goes only when it is out |
| TcpSend.TcpConnection.Rearming | ff/src/network/TcpConnection.cpp:615-618 | is the `Rearm` step after a refusal |
| TcpSend.TcpConnection.OnHangUp | ff/src/network/TcpConnection.cpp:555-566 | is the `Hup` step |
| TcpSend.TcpConnection.AddPollOut | ff/src/network/EPoll.cpp:97-110 | sets the interest if the socket is registered |
| TcpSend.TcpConnection.DelPollOut | ff/src/network/EPoll.cpp:112-125 | clears it if the socket is registered |
| TcpSend.TcpConnection.ObjectLosesNothing | ff/src/network/TcpConnection.cpp:494-624 | the same for the fields of the object at any moment |
| ThreadPools.NoOverwrite | ff/src/thread/ThreadPool.cpp:45-49 | whenever `setTask` runs, its thread is busy for that call, holds no task and runs none |
| ThreadPools.StepKeeps | ff/src/thread/ThreadPool.cpp:45-163 | every step keeps the invariant: idle and busy threads apart and within the maximum, every busy thread where its call says, no task begun twice |
| ThreadPools.RunKeeps | ff/src/thread/ThreadPool.cpp:45-163 | so does every interleaving |
| ThreadPools.NothingBusy | ff/src/thread/ThreadPool.cpp:160-163 | with no busy thread, every call still waits for a thread, has timed out, or has its task finished |
| ThreadPools.PoolIsSafe | ff/src/thread/ThreadPool.cpp:45-163 | all of it for every run from a fresh pool |
| ThreadPools.AskingGets | ff/src/thread/ThreadPool.cpp:127-151 | a call that asks can take an idle thread if and only if there is one, a new thread if and only if none is idle and there are fewer than the maximum, and has to wait if and only if none is idle and there are as many |
| ThreadPools.NeverTimesOut | ff/src/thread/ThreadPool.cpp:146-149 | in no run does a call without a time limit time out, and none that did is ever begun |
| ThreadPools.WorkStep | ff/src/thread/ThreadPool.cpp:57-68 | a busy thread can always take a step that brings it nearer to being idle, unless it was handed a null pointer |
| ThreadPools.AllGetIdle | ff/src/thread/ThreadPool.cpp:160-163 | from every reachable state without null pointers all threads can come to be idle with every call that has a thread finished, so that `waitAll` never waits in vain |
| ThreadPools.NullForever | ff/src/thread/ThreadPool.cpp:55-67 | a thread that was handed a null pointer stays busy with no task in every further run, so that `waitAll` never ends |
| ThreadPools.ThreadPool.GetThread | ff/src/thread/ThreadPool.cpp:127-151 | takes an idle thread, or makes one if there is room, or has to wait: the `Grab`, `Create` and `Block` steps |
| ThreadPools.ThreadPool.TakeIdle | ff/src/thread/ThreadPool.cpp:130-158 | some idle thread becomes busy, at once or when a wait ends |
| ThreadPools.ThreadPool.TimeOut | ff/src/thread/ThreadPool.cpp:146-149 | a timed wait ends empty-handed only if no thread is idle at that moment |
| ThreadPools.ThreadPool.SetTask | ff/src/thread/ThreadPool.cpp:45-49 | is the `SetTask` step, or the `SetNull` step for a null pointer, and found no task there |
| ThreadPools.ThreadPool.RunTask | ff/src/thread/ThreadPool.cpp:58-67 | begins the task if there is one and goes round again otherwise |
| ThreadPools.ThreadPool.TaskReturns | ff/src/thread/ThreadPool.cpp:67 | the task has finished |
| ThreadPools.ThreadPool.ResetTask | ff/src/thread/ThreadPool.cpp:68 | is the `Reset` step |
| ThreadPools.ThreadPool.PutTaskThreadPtr | ff/src/thread/ThreadPool.cpp:120-125 | is the `Return` step: from busy to idle |
| ThreadPools.ThreadPool.AllDone | ff/src/thread/ThreadPool.cpp:160-163 | what `waitAll` waits for implies that every task handed over has finished |
| Buffers.CapcityAdj | ff/src/buffer/Buffer.cpp:21-26 | 0 for 0, otherwise more than asked for and by at most 4096 |
| Buffers.GrowthSteps | ff/src/buffer/Buffer.cpp:21-26 | where the rule of growth changes |
| Buffers.Buffer.Append | ff/src/buffer/Buffer.cpp:100-122 | the contents grow by the bytes given; the array is the old one or a new one |
| Buffers.Buffer.SetData | ff/src/buffer/Buffer.cpp:186-207 | the contents become the bytes given, even if they were a part of them |
| Buffers.Buffer.Clear | ff/src/buffer/Buffer.cpp:173-182 | no array and no contents; the reading position is reset only if there was an array |
| Buffers.Buffer.Alloc | ff/src/buffer/Buffer.cpp:259-284 | zeroes; with enough capacity the size stays what it was, even when more or fewer bytes were asked for |
| Buffers.Buffer.Resize | ff/src/buffer/Buffer.cpp:154-171 | the size asked for, and what both sizes cover is kept |
| Buffers.Buffer.Read | ff/src/buffer/Buffer.cpp:313-321 | up to `n` bytes from the reading position, which moves behind them |
| Framing.DrainPrefix | ff/src/message_bus/MessageBus.cpp:231-234 | any beginning of a stream of packages drains to the complete ones, in order, and leaves the unfinished one |
| Framing.AnyCut | ff/src/message_bus/MessageBus.cpp:231-234 | the same however the beginning is cut into chunks, drained after each |
| Framing.WholeStream | ff/src/message_bus/MessageBus.cpp:231-234 | the whole stream in any chunks gives back the whole list and leaves nothing |
| MsgFraming.HeaderBack | ff/include/ff/MessageBus.h:46-58 | the eight fields, written high byte first, read back |
| MsgFraming.HeaderParts | ff/include/ff/MessageBus.h:46-58 | where each field stands |
| MsgFraming.ChecksumAdds | ff/src/message_bus/MessageBus.cpp:18-26 | the checksum is the sum of the bytes of the seven other fields |
| MsgFraming.StampedFields | ff/src/message_bus/MessageBus.cpp:61-66 | an id of the caller is kept, only 0 is replaced, and the other fields stay |
| MsgFraming.BadFrame | ff/src/message_bus/MessageBus.cpp:94-106 | exactly when a buffer is waited for, and when and how it is thrown away |
| MsgFraming.GenerateChecksum | ff/src/message_bus/MessageBus.cpp:18-26 | the sum of all header bytes but the last four |
| MsgFraming.ChecksumIgnoresItself | ff/src/message_bus/MessageBus.cpp:18-26 | storing the checksum does not change it |
| MsgFraming.StampedIsPackage | ff/src/message_bus/MessageBus.cpp:57-66 | the bytes written, header with length, id and checksum and then the data, are a package with these fields and data |
| MsgFraming.PackageIff | ff/src/message_bus/MessageBus.cpp:94-114 | of a package, no other beginning and nothing longer is a package |
| MsgFraming.PackageFrames | ff/src/message_bus/MessageBus.cpp:94-114 | a package is found whenever it stands complete in front, and waited for until then |
| MsgFraming.BusStream | ff/src/message_bus/MessageBus.cpp:94-114 | any list of packages, concatenated, cut into arbitrary chunks and drained after each: exactly the complete ones come out in order, and the buffer holds exactly the unfinished tail; the whole stream gives the whole list |
| MsgFraming.MsgBusPackageHelper.Append | ff/src/message_bus/MessageBus.cpp:87-92 | the buffer grows by the chunk |
| MsgFraming.MsgBusPackageHelper.GetPackage | ff/src/message_bus/MessageBus.cpp:94-114 | waits and keeps, clears, or takes exactly one package and keeps the rest |
| MsgFraming.MsgBusPackageHelper.OnChunk | ff/src/message_bus/MessageBus.cpp:231-234 | appending and taking until none comes is draining |
| MsgFraming.Generate | ff/src/message_bus/MessageBus.cpp:52-68 | refused beyond 8192 bytes; else the bytes are header and data, and what the object holds is a package if and only if it was too small before or had exactly the right size |
| MsgFraming.LongThenShort | ff/src/message_bus/MessageBus.cpp:52-68 | a long package and then a short one into one object: what it holds is no package |
| MsgFraming.ShortFrame | ff/src/message_bus/MessageBus.cpp:94-114 | a header that claims 0 to 31 bytes, with the right checksum, is taken for such a package; the buffer gets shorter if and only if the claim is not 0 |
| MsgFraming.ZeroFrame | ff/src/message_bus/MessageBus.cpp:94-114 | 32 zero bytes are such a frame and leave the buffer as it was, so that `getPackage` gives an empty package again and again |
| MsgFraming.Fill | ff/src/message_bus/MessageBus.cpp:58-66 | the bytes written field by field are the stamped header and the data |
| DsFraming.HeaderBack | ff/include/ff/DataService.h:124-132 | the seven fields read back |
| DsFraming.ExamplePacket | ff/src/data_service/DataService.cpp:224-242 | a packet without data, byte by byte |
| DsFraming.GeneratedIsPacket | ff/src/data_service/DataService.cpp:224-242 | what `generate` makes of a fresh buffer is a packet with the fields and data given |
| DsFraming.Resynchronises | ff/src/data_service/DataService.cpp:266-297 | behind garbage exactly the packet is taken and exactly the rest kept, if and only if no earlier position reads as the magic number and the garbage is shorter than 2^31 bytes |
| DsFraming.FarPacket | ff/src/data_service/DataService.cpp:270-274 | behind more garbage the position, converted to `int32_t`, is negative, and the packet is thrown away with the whole buffer |
| DsFraming.BrokenIff | ff/src/data_service/DataService.cpp:276-284 | bytes outside the buffer are hashed if and only if the header found claims less than its own 18 bytes and the buffer has as much as it claims |
| DsFraming.ShortPacket | ff/src/data_service/DataService.cpp:276-284 | the magic number and 16 zero bytes are such a buffer |
| DsFraming.WrongHash | ff/src/data_service/DataService.cpp:280-288 | a complete packet with the wrong hash costs its magic number and all in front of it, no more |
| DsFraming.StrayByte | ff/src/data_service/DataService.cpp:250-297 | a single byte 0x66 in front of a packet is such garbage: nothing comes out, the code waits |
| DsFraming.Shrinks | ff/src/data_service/DataService.cpp:266-297 | every attempt that returns, rejects or clears makes the buffer smaller, so the draining loop ends |
| DsFraming.PacketFrames | ff/src/data_service/DataService.cpp:266-297 | without garbage a packet is found whenever it is complete, and waited for until then |
| DsFraming.PacketStream | ff/src/data_service/DataService.cpp:411-427 | packets in a row, cut anywhere, come out in order, and the unfinished tail is kept |
| DsFraming.FindNextMagic | ff/src/data_service/DataService.cpp:250-258 | the first position that reads as the magic number, as an `int32_t`, which is negative from 2^31 on; -1 if none does |
| DsFraming.DsPacketHelper.Append | ff/src/data_service/DataService.cpp:260-264 | the buffer grows by the chunk |
| DsFraming.DsPacketHelper.GetPackage | ff/src/data_service/DataService.cpp:266-297 | waits and keeps, clears, drops up to behind a false magic number, or takes exactly one packet and keeps the rest |
| DsFraming.DsPacketHelper.OnChunk | ff/src/data_service/DataService.cpp:412-416 | appending and taking until none comes is draining, and it ends |
| DsFraming.Generate | ff/src/data_service/DataService.cpp:224-242 | the object holds header and data if and only if it was too small before or had exactly the right size; what it holds is a packet if and only if the hash takes the bytes behind the header for the data |
| DsFraming.LongThenShort | ff/src/data_service/DataService.cpp:224-242 | a long packet and then a short one into one object: the size stays, the data read back is not the short one, and only a collision of the hash makes it a packet |
| MsgServer.SubscribedMeans | ff/src/message_bus/MessageBus.cpp:221-333 | the running definition of a subscription says: the session is open and has registered the id since the last server close |
| MsgServer.SessionMeans | ff/src/message_bus/MessageBus.cpp:314-333 | the session of a connection is the accept that found it closed and has not been closed since |
| MsgServer.ClientIdMeans | ff/src/message_bus/MessageBus.cpp:246 | the id of a session is that of its last registration |
| MsgServer.NoClientId | ff/src/message_bus/MessageBus.cpp:314-321 | and 0 before there is one |
| MsgServer.IdsAre | ff/src/message_bus/MessageBus.cpp:243-250 | the ids of a registration are the 32-bit words behind the header, low byte first |
| MsgServer.RequestGoesTo | ff/src/message_bus/MessageBus.cpp:261-270 | a package of code 2 with even options goes to a connection if and only if its session is open, has registered the id since the last server close, and has the target as its id, if there is a target |
| MsgServer.ResponseGoesTo | ff/src/message_bus/MessageBus.cpp:272-278 | one with odd options if and only if its session is open and has the target as its id |
| MsgServer.AnswerIs | ff/src/message_bus/MessageBus.cpp:242-289 | registrations have code 0 and heart beats code 1, both are answered, with the fields turned round and a new id only for 0, and go to nobody else |
| MsgServer.SessionsApart | ff/src/message_bus/MessageBus.cpp:314-321 | no two connections share a session |
| MsgServer.MessageBusServer.IndexMeans | ff/src/message_bus/MessageBus.cpp:247-250 | the index holds an open session under an id if and only if the history has such a registration since the last server close |
| MsgServer.MessageBusServer.AddClient | ff/src/message_bus/MessageBus.cpp:314-321 | keeps that for an accepted connection; one already known keeps its session |
| MsgServer.MessageBusServer.OnClose | ff/src/message_bus/MessageBus.cpp:305-312 | all subscriptions go, the clients stay |
| MsgServer.MessageBusServer.RemoveClient | ff/src/message_bus/MessageBus.cpp:323-333 | the session leaves the clients and every set of the index |
| MsgServer.MessageBusServer.EraseEverywhere | ff/src/message_bus/MessageBus.cpp:328-330 | it is removed from every set, and nothing else is |
| MsgServer.MessageBusServer.Register | ff/src/message_bus/MessageBus.cpp:248-250 | it joins exactly the sets of the ids named |
| MsgServer.MessageBusServer.Request | ff/src/message_bus/MessageBus.cpp:264-270 | the package goes once to each subscriber of its id that a nonzero target lets through, and to no one else |
| MsgServer.MessageBusServer.Respond | ff/src/message_bus/MessageBus.cpp:272-278 | the package goes once to each client with the target as its id |
| MsgServer.MessageBusServer.OnRegister | ff/src/message_bus/MessageBus.cpp:242-259 | the session takes its client id and its subscriptions, and one answer goes out |
| MsgServer.MessageBusServer.OnMessage | ff/src/message_bus/MessageBus.cpp:261-279 | who gets the package is exactly who should by the history |
| MsgServer.MessageBusServer.OnOther | ff/src/message_bus/MessageBus.cpp:281-289 | a heart beat is answered; any other code does nothing |
| MsgServer.MessageBusServer.OnPackage | ff/src/message_bus/MessageBus.cpp:234-290 | what goes out and what is recorded for a package of any code |
| MsgServer.MessageBusServer.OnClientData | ff/src/message_bus/MessageBus.cpp:221-291 | the packages that the chunk completes are taken out and dealt with one after the other, each by what the history says before it, and the buffer keeps the rest; nothing for an unknown connection |
| MsgServer.MessageBusServer.ServeOne | ff/src/message_bus/MessageBus.cpp:234-290 | one turn of the loop: the next package dealt with, or all of them |
| MsgServer.MessageBusServer.ServeStream | ff/src/message_bus/MessageBus.cpp:221-291 | any cut of a stream of packages, of any length in all, into chunks for which the buffer has room: each of them, in order, goes to exactly those who should get it by the history, nothing else goes out, and nothing stays in the buffer |
| Strings.Find | ff/src/string/String.cpp:134 | the first occurrence from a position on, or none |
| Strings.ReplacedFirst | ff/src/string/String.cpp:133-143 | replacing all occurrences replaces the first and goes on behind it |
| Strings.ReplaceAll | ff/src/string/String.cpp:123-145 | in place, every occurrence from the left without overlap, and nothing that a replacement brings in |
| Strings.TrimIs | ff/src/string/String.cpp:58-84 | trimming takes the blanks at both ends, NUL among them, and nothing else |
| Strings.ReplacedIsEscaped | ff/src/cli/CliPacket.cpp:401 | replacing each quote by a backslash and a quote is escaping |
| CliPackets.RunName | ff/src/cli/CliPacket.cpp:298-311 | letters of a name are collected |
| CliPackets.RunQuoted | ff/src/cli/CliPacket.cpp:313-334 | a quoted text without backslash is read back through its escapes |
| CliPackets.RunPlain | ff/src/cli/CliPacket.cpp:336-357 | so is a value without quotes |
| CliPackets.BodyOfPrinted | ff/src/cli/CliPacket.cpp:243-251 | the parser takes off exactly the closing semicolon of what the printer wrote |
| CliPackets.PrintedParses | ff/src/cli/CliPacket.cpp:241-288 | action and object come back, and the member loop gets exactly the text of the members |
| CliPackets.BackslashLoses | ff/src/cli/CliPacket.cpp:313-334 | a member whose text holds a backslash does not come back, whatever follows it |
| CliPackets.RoundTrip | ff/src/cli/CliPacket.cpp:241-416 | a packet printed in any order of its members parses to itself, its values as text, if and only if no text holds a backslash |
| CliPackets.BackslashLost | ff/src/cli/CliPacket.cpp:401 | the smallest case: a text of one backslash |
| CliPackets.SpaceCounts | ff/src/cli/CliPacket.cpp:302-336 | a space counts inside quotes only |
| CliPackets.SpaceLosesValue | ff/src/cli/CliPacket.cpp:336-361 | a space behind the last value, unless that is quoted, makes it the empty text |
| CliPackets.OpenQuoteLosesLast | ff/src/cli/CliPacket.cpp:313-334 | a quoted text without its closing quote loses its last character |
| CliPackets.EscapeTakes | ff/src/cli/CliPacket.cpp:313-322 | inside quotes a backslash takes the next character as it is |
| CliPackets.FirstStays | ff/src/cli/CliPacket.cpp:348 | of two members with one name the first stays |
| CliPackets.ExamplePrinted | ff/src/cli/CliPacket.cpp:374-416 | a printed packet, character by character |
| CliPackets.RefusedAction | ff/src/cli/CliPacket.cpp:260-264 | an action with a character of another kind is refused |
| CliPackets.WordChars | ff/src/cli/CliPacket.cpp:253-255 | the characters of actions and objects |
| CliPackets.SkipSpaces | ff/src/cli/CliPacket.cpp:258 | skips exactly the space in front |
| CliPackets.ReadWord | ff/src/cli/CliPacket.cpp:260-264 | reads the word in front and tells whether it ends at a space or the end |
| CliPackets.ReadMembers | ff/src/cli/CliPacket.cpp:290-361 | the loop is the state machine, run over the text and finished |
| CliPackets.CliPacket.Parse | ff/src/cli/CliPacket.cpp:241-364 | the fields become what the text says, and are empty on failure |
| CliPackets.CliPacket.ReadRest | ff/src/cli/CliPacket.cpp:271-361 | object and members from the text behind the action |
| CliPackets.CliPacket.ToString | ff/src/cli/CliPacket.cpp:374-416 | the printed text, members in the order of the map |
| CliPackets.CliPacket.AppendItems | ff/src/cli/CliPacket.cpp:389-412 | the members with commas between them, behind what is there |
| CliPackets.CliPacket.PrintItem | ff/src/cli/CliPacket.cpp:391-407 | key, equals sign and escaped value, quoted if it is a text |
| IPs.DecimalBack | ff/src/network/IP.cpp:341-368 | a printed number reads back, without leading zero unless it is 0 |
| IPs.PackIsValue | ff/src/network/IP.cpp:208-227 | moving up to four digits to the right and packing them gives the two bytes of their value |
| IPs.FullAddress | ff/src/network/IP.cpp:138-324 | eight groups are the sixteen bytes they write |
| IPs.Compressed | ff/src/network/IP.cpp:138-324 | `m` groups, a double colon and `k` groups are accepted if and only if `m + k` is at most 7, and at most 6 when either is 0; then the bytes are those of the groups with zeros between (section 2.2 of RFC 4291) |
| IPs.SevenAtOneEnd | ff/src/network/IP.cpp:293-294 | RFC 4291 allows seven groups behind or before a double colon; the code refuses them, since it counts eight colons |
| IPs.MixedAddress | ff/src/network/IP.cpp:138-324 | six groups and four numbers are the sixteen bytes they write, unless the text is longer than 39 characters, which RFC 4291 allows |
| IPs.MixedCompressed | ff/src/network/IP.cpp:138-324 | `m` groups, a double colon, `k` groups and four numbers: exactly which are accepted, and their bytes; the double colon may stand for nothing |
| IPs.OtherCounts | ff/src/network/IP.cpp:138-324 | without a double colon any other number of groups than eight is refused |
| IPs.RefusedStep | ff/src/network/IP.cpp:170-250 | what no address may contain: another character, a fifth digit, a third colon in a row or a second double colon, a colon behind a dot, a fourth dot |
| IPs.DotBytes | ff/src/network/IP.cpp:175-193 | leading zeros before a dot are read, but 0 only as one digit |
| IPs.ScopeIs | ff/src/network/IP.cpp:152-166 | a scope beyond 64 bits is cut at the largest `long`, and every scope to 32 bits |
| IPs.DigitsAre | ff/src/network/IP.cpp:208-227 | the digits of both cases |
| IPs.ExampleTexts | ff/src/network/IP.cpp:341-368 | printed numbers and groups, character by character |
| IPs.V6RoundTrip | ff/src/network/IP.cpp:138-368 | every 16-byte address with any 32-bit scope survives printing and parsing |
| IPs.V4RoundTrip | ff/src/network/IP.cpp:88-136 | every version 4 address does |
| IPs.RoundTrip | ff/src/network/IP.cpp:47-368 | every valid address does, through the order in which `parse` tries the versions |
| IPs.NumbersAre | ff/src/network/IP.cpp:104-132 | a version 4 text that is accepted is four numbers of one to three digits up to 255 with dots between, and nothing else |
| IPs.NumbersRead | ff/src/network/IP.cpp:104-132 | and every such text is accepted, leading zeros or not |
| IPs.BuffersSuffice | ff/src/network/IP.cpp:168-174 | no text that is read overruns the two output buffers, and an accepted count of colons never gives more than sixteen bytes |
| IPs.PackDigits | ff/src/network/IP.cpp:208-227 | the loops that move and pack digits |
| IPs.ReadChars | ff/src/network/IP.cpp:170-250 | the character loop is the state machine |
| IPs.ReadAddress | ff/src/network/IP.cpp:168-313 | with the last digits, the counts and the zeros: the bytes of the address, or none |
| IPs.FindScope | ff/src/network/IP.cpp:152-166 | the percent sign with only digits behind it, if there is one; none in a text of more than 2^31 characters, whose last index is a negative `int` |
| IPs.CheckShape | ff/src/network/IP.cpp:101-115 | the first pass of the version 4 parser |
| IPs.IP.ReadNumbers | ff/src/network/IP.cpp:117-132 | the second pass |
| IPs.IP.ParseV4 | ff/src/network/IP.cpp:88-136 | the object holds exactly the address that the text writes, or none |
| IPs.IP.ParseV6 | ff/src/network/IP.cpp:138-324 | the same for version 6, scope included |
| IPs.IP.Parse | ff/src/network/IP.cpp:47-53 | version 4 first, then version 6; none where neither reads the text |
| IPs.IP.ToString | ff/src/network/IP.cpp:341-368 | the text of the address held, empty for none |
| Payloads.ReadBack | ff/src/buffer/Payload.cpp:87-197 | a value written anywhere in a payload is read back with its type, and the position is behind it |
| Payloads.TypeInFront | ff/src/buffer/Payload.cpp:35-39 | in front of every written value its type is read, whatever stands around it |
| Payloads.ExamplesWritten | ff/src/buffer/Payload.cpp:309-392 | written values byte by byte |
| Payloads.ExampleLengths | ff/src/buffer/Payload.cpp:335-343 | up to 15 the length stands in the flag, and from 16 on behind it |
| Payloads.WrongType | ff/src/buffer/Payload.cpp:87-197 | no reader takes a value of another type, or a number of another width |
| Payloads.NoRoom | ff/src/buffer/Payload.cpp:155-173 | an array that does not fit the buffer of the caller is refused |
| Payloads.RoundTrip | ff/src/buffer/Payload.cpp:87-197 | a list of values, written and read back with matching types, comes back, and reading ends exactly at the end, across the 15-byte inline length, if and only if the length fits 32 bits |
| Payloads.LongText | ff/src/buffer/Payload.cpp:333-352 | a single text is enough for a payload that does not fit |
| Payloads.Appended | ff/src/buffer/Payload.cpp:413-418 | what `append` makes of two payloads reads as the one list behind the other, if and only if the two together fit 32 bits |
| Payloads.SelfFitsIff | ff/src/buffer/Payload.cpp:413-418 | a payload appended to itself is copied inside the room made for it if and only if its 32-bit length is 0, or 2^31 or more, and then it is never doubled |
| Payloads.OneByteToItself | ff/src/buffer/Payload.cpp:413-418 | the smallest payload that is overrun: room for one byte, and two are copied |
| Payloads.TagBack | ff/src/buffer/Payload.cpp:335-343 | type and length read back, in the flag or behind it |
| Payloads.SignedBack | ff/src/buffer/Payload.cpp:175-193 | two's complement of every width reads back |
| Payloads.NumberOverrun | ff/src/buffer/Payload.cpp:175-188 | a number is read beyond the payload if and only if exactly its last byte is missing |
| Payloads.TextOverrun | ff/src/buffer/Payload.cpp:131-153 | a text is, if and only if its length is cut or zero, or more than its closing NUL is missing |
| Payloads.ArrayOverrun | ff/src/buffer/Payload.cpp:155-173 | an array is, if and only if its length is cut, whatever its type, or bytes are missing that fit the buffer |
| Payloads.CutNumber | ff/src/buffer/Payload.cpp:175-188 | the smallest such payload: the flag of a one-byte number |
| Payloads.CutBack | ff/src/buffer/Payload.cpp:87-197 | of every value cut anywhere, what its reader makes: refusal, a read beyond the end, or, for a text without its NUL, the text |
| Payloads.PayloadWriter.Write | ff/src/buffer/Payload.cpp:309-392 | appends the value; an empty array is refused and changes nothing |
| Payloads.PayloadWriter.WriteTag | ff/src/buffer/Payload.cpp:335-343 | appends flag and, beyond 15, the length |
| Payloads.PayloadWriter.WriteNumber | ff/src/buffer/Payload.cpp:375-383 | appends flag and bytes |
| Payloads.PayloadWriter.WriteString | ff/src/buffer/Payload.cpp:334-352 | appends tag, characters and a NUL |
| Payloads.Payload.Append | ff/src/buffer/Payload.cpp:413-418 | the bytes of both, of the other as far as 32 bits of length go; for the payload itself, where the copy fits the room, the bytes copied and zeros behind them |
| Payloads.PayloadReader.ReadFixed | ff/src/buffer/Payload.cpp:175-188 | the bytes of a number of the right type and width, or a refusal that moves nothing |
| Payloads.PayloadReader.ReadString | ff/src/buffer/Payload.cpp:131-153 | a text and the position behind it, or a refusal that moves nothing |
| Payloads.PayloadReader.ReadArray | ff/src/buffer/Payload.cpp:155-173 | an array that fits the caller's buffer, or a refusal that moves nothing |
| Payloads.PayloadReader.Read | ff/src/buffer/Payload.cpp:87-197 | the value wanted and the position behind it, or a refusal that moves nothing |
| Timers.LinkedIn | ff/src/timer/Timer.cpp:132-166 | setting the four pointers around a new task links the longer list in both directions |
| Timers.LinkedOut | ff/src/timer/Timer.cpp:79-91 | setting the two pointers around a task links the shorter list |
| Timers.SortedIn | ff/src/timer/Timer.cpp:141-160 | a task placed before the first that is not earlier keeps the list sorted |
| Timers.PlaceIs | ff/src/timer/Timer.cpp:141-160 | in a sorted list there is one such place, and of tasks with one deadline the newest comes first |
| Timers.Timer.ProcessNewTask | ff/src/timer/Timer.cpp:132-166 | the task goes before the first one that is not earlier, or to the end; the list is well linked |
| Timers.Timer.ProcessNewTasks | ff/src/timer/Timer.cpp:121-130 | the list is well linked, sorted, and holds exactly old and new tasks; none is left to insert |
| Timers.Timer.GetNextWaitMs | ff/src/timer/Timer.cpp:48-55 | the time to the earliest deadline: no task is due sooner and one is due then; -1 for no task |
| Timers.Timer.Unlink | ff/src/timer/Timer.cpp:79-91 | takes one task out of the list, which stays well linked |
| Timers.Timer.Sweep | ff/src/timer/Timer.cpp:72-93 | with a clock reading for each task: exactly the due and the cancelled tasks go, in order, each handed over once, and the rest is well linked, and sorted if it was |
| Timers.Timer.Round | ff/src/timer/Timer.cpp:60-93 | new tasks and then a sweep with one reading, nothing cancelled: what is due is handed over, the rest is kept, sorted and well linked, and no task is lost or doubled |
| Timers.NextIsThere | ff/src/timer/Timer.cpp:90-91 | the successor that the code takes to be there is there at every step if and only if the last task stays or all tasks go |
| Timers.TwoReadings | ff/src/timer/Timer.cpp:78-91 | two clock readings suffice to break that: the first of two tasks not due yet, the last one due |
| Timers.OneReading | ff/src/timer/Timer.cpp:72-93 | with one clock reading and nothing cancelled it always holds, and the sweep removes exactly the due tasks, which stand in front |

## Left out

- TimingWheels.TimingWheel.DoTick: the order in which tasks of one call are enqueued is not stated, because the source keeps a slot in a set ordered by address.
- TimingWheel: the executor threads and the notifications; a task added before the first clock reading of `run`.
- Crc.CrcParameter.constructor: widths below 8 and 64, where a shift of the source is not defined, so that the presets of width 64 have no meaning to prove; the table of reflected bytes is taken to be bit reversal.
- RijndaelCode.CRijndael.EncTables: the tables T1 to T4 are formulas over the substitution box, not the literal numbers of the source. The cipher takes any two boxes; those of the source are in `RijndaelTables.dfy`.
- RijndaelCode.CRijndael.DecTables: the same for T5 to T8 and U1 to U4.
- RijndaelCode.CRijndael.Encrypt: the two arrays are the same or do not overlap, and neither is the chain. The three loops of the source, one for each mode, are one loop whose turn branches on the mode.
- RijndaelCode.CRijndael.Decrypt: the same.
- Md5.MD5Context.MD5Update: inputs are values, shorter than 2^32 - 64 bytes, beyond which the loop counter of the source wraps; the block function is any function.
- Md5.MD5.Update: the same bound.
- TcpSend: the socket is a number of bytes taken or a refusal, and epoll one bit of interest for each entry; receiving, accepting, callbacks, `close`, a `connect` or `listen` that fails, and whether a poll ever comes.
- TcpSend.TcpConnection.OnPollOut: comes for an entry that asks for POLLOUT; every write may come with sends of other threads before it, but no second poll event at the same time, because one thread polls.
- TcpSend.TcpConnection.Connect: a connection whose socket is still registered, for which the source makes a second socket and leaves the entry of the first.
- TcpSend.TcpConnection.Listen: the same.
- ThreadPools: wake-ups and their loss, shutdown, exceptions thrown by tasks, `SimpleThreadPool`. `waitAll` is the condition it waits for.
- Buffers.Buffer.Append: sizes that leave no room for the growth step in 32 bits, where the source wraps; the raw pointer is a sequence of bytes, and a null pointer no bytes.
- Buffers.Buffer.SetData: the same bound.
- Buffers.Buffer.Alloc: the same bound.
- Buffers.Buffer.Resize: the same bound.
- Buffers.Buffer.Read: a reading position behind the size, which `Resize` can leave; the unsigned difference of the source then wraps, and it reads outside its array.
- MsgFraming.MsgBusPackageHelper.OnChunk: buffers in which draining reaches a frame that claims no bytes, with the right checksum, for which the callers of the source read through a null header (`ZeroFrame`); `BusStream` proves that generated packages never lead there.
- MsgServer.MessageBusServer.OnClientData: also no frames that claim fewer bytes than a header, for which the source reads a header beyond the package. The helper of the session is a parameter, and what is sent is recorded, not transmitted.
- MsgServer.MessageBusServer.ServeStream: a chunk longer than what the buffer has room for besides one package.
- MsgServer: callbacks come one at a time; the client side, promises, heart beats by timer and stopping.
- DsFraming.DsPacketHelper.GetPackage: a header that claims less than itself, for which the source hashes memory outside the buffer, is excluded; what lies behind the buffer, where the source reads the rest of a header near the end, is a parameter.
- DsFraming.DsPacketHelper.OnChunk: buffers in which draining reaches such a header.
- DsFraming: the hash is any function of the data, for which `Crc.dfy` stands; requests, answers and JSON of the data service.
- Strings.ReplaceAll: an empty text to search for, for which the source does not end, and the search that ignores case.
- CliPackets.RoundTrip: keys with space, NUL or an equals sign, actions that are no words, and texts with NUL are excluded; `Variant` values are texts or what they print as.
- IPs.IP.Parse: the look-up of names; texts of more than 2^32 characters; the output buffers of the version 6 parser are sequences, and `BuffersSuffice` shows that their sizes are kept to.
- IPs.IP.ParseV6: texts of more than 2^32 characters, for which the index of the source wraps to a place inside the text.
- Payloads.Payload.Append: a payload appended to itself where what is copied does not fit (`SelfFits`), and the source writes beyond its array.
- Payloads.PayloadWriter.Write: texts of 2^32 - 1 bytes or more, whose length the source cuts to 32 bits; longer arrays cannot be passed to it.
- Payloads.PayloadReader.Read: reads outside the payload are excluded; when they come about is `NumberOverrun`, `TextOverrun` and `ArrayOverrun`. Floating point numbers are their bytes; the readers that return pointers, and `print`.
- Payloads.PayloadReader.ReadFixed: the same.
- Payloads.PayloadReader.ReadString: the same.
- Payloads.PayloadReader.ReadArray: the same.
- Timers.Timer.Unlink: the last of several tasks, for which the source follows a null pointer.
- Timers.Timer.Sweep: clock readings or cancellations by which the last task goes while another stays, for the same reason (`NextIsThere`); the wait, repeated tasks, cancellation as a call, task ids and the thread are not modelled, and what is handed to the thread pool is recorded.
- Sockets, files, processes, serial ports, shared memory, compression, databases, settings, logging, command line options, and the parts for Windows.
- Base64, Snowflake, CycleBuffer and List.
