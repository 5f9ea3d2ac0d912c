# Patmos software, modelled and proved

Patmos is a time-predictable multicore. This project models the parts of its C code that carry real
algorithms and proves what they are for: the boot pipeline, the handshake that starts all cores, a
master/worker protocol over one-word-at-a-time DMA, a TTEthernet node, the packet builders and their
checksums, the ARP table, the audio dataflow with its ring effects, and libelf's descriptors and record
translation. `dafny verify dfyconfig.toml` checks everything.

| file | what it holds |
|---|---|
| `bytes.dfy`, `splices.dfy` | bytes, binary digits, overwritten buffer parts, quotients |
| `lzss.dfy` | the byte-at-a-time LZSS decoder over a 1 KiB ring against an unbounded history |
| `crc32.dfy` | the bitwise CRC-32 as polynomial remainder (IEEE 802.3 clause 3.2.9) and its burst detection |
| `download.dfy`, `zero_fill.dfy`, `loader.dfy` | the packet and section state machine, as a function of the byte stream and as the loop itself, reading through the decoder; the zero fill turn by turn |
| `line_format.dfy` | what the bytes of a program on the line mean, place by place |
| `handshake.dfy`, `handshake_progress.dfy` | master and slave boot loaders, one program counter per core, every interleaving, any number of rounds; which states have deadlocked |
| `fixedpoint.dfy` | the fixed-point iteration without 32-bit overflow |
| `mandelbrot.dfy`, `mandelbrot_system.dfy`, `mandelbrot_progress.dfy` | one master/slave channel, the whole system with DMA as single words, and its way to the end |
| `tte_schedule.dfy`, `tte_queue.dfy`, `tte_node.dfy`, `tte_clock.dfy` | dispatch table, per-link ring queue, ticks that walk the table, clock re-centring |
| `checksum.dfy`, `packet_buffer.dfy`, `frames.dfy`, `senders.dfy`, `getters.dfy`, `icmp.dfy`, `frame_reference.dfy` | Internet checksum (section 1 of RFC 1071), byte view of the word buffer, UDP and TCP frames (RFC 768, section 3.1 of RFC 793, section 3.1 of RFC 791), ping replies, and the same frames by the standards' own words |
| `arp_table.dfy` | the ARP table as a bounded map |
| `audio_effects.dfy`, `audio_reference.dfy`, `audio_stream.dfy`, `audio_process.dfy` | delay, chorus and IIR filter as difference equations; when block processing is the effect's stream; the node itself |
| `elf_descriptors.dfy`, `elf_xlate.dfy`, `elf_reference.dfy` | reference counts over archives and members; file/memory translation; the records of the System V ABI it works on |

## How the model stands to the code

- A serial line is an infinite stream of bytes (`nat -> byte`); main memory is a map from word addresses.
- Registers that only shift and exclusive-or (the CRC) are lists of bits; other machine words are integers with
  their wrap-around written out where it can matter.
- Interleavings are sequences of actions, one shared-memory access each; a theorem about a run holds for all of them.
- libelf's structures live in a map from pointers to records; what malloc returns is a parameter.
- Formats and equations that both an operation and its specification rest on are pinned a second time in numbers: byte
  places and known bytes for the line, the ring and the frames, products over 32768 for the effects, complex squares
  for the picture, bytes of weight 256^k for ELF files.
- NoC channels are FIFOs of blocks; after a block is acknowledged or sent, its buffer may hold anything.

Where code and comment disagree, or a plausible promise is false, the model follows the code:

- The compute functions say they ignore the checksum field, but they add its low byte (c/ethlib/ipv4.c:157,
  c/ethlib/udp.c:148). `Frames.IpComputedIgnoresFieldIff` and `Frames.UdpComputedIgnoresFieldIff` give the exact
  condition; the senders clear the field first.
- RFC 768 reserves a checksum field of zero for "none", but the sender emits zero where the sum asks for it:
  `Frames.UdpSendsZeroIff`, `Frames.SomePortSendsZero`.
- The UDP getters and `tcp_get_checksum` read whole words, whose address loses its two low bits. Each getter's contract
  says which bytes it reads for every packet address, and `Getters.WordGettersRightIff` for which addresses that is the
  field; `tcp_get_checksum` returns the window field of an aligned packet. `tcp_get_data` ignores the length of the
  caller's array: `Getters.StaysInRoomIff`.
- The senders write headers by words and payload and checksums by bytes. Off a word boundary the headers lie up to three
  bytes too early and no frame stands at the transmit address: `Senders.UdpSendMac`, `Senders.TcpSend`.
- A ping reply adds 0x0800 to the checksum without end-around carry (c/ethlib/icmp.c:96-99).
  `Icmp.ReplyIsRightIff` says when the reply is right, `Icmp.SomeReplyIsWrong` shows a request answered wrongly.
- Every core clears `master.entrypoint` when it starts (c/bootloader/bootloader.c:63-64). `Handshake.EntryLostIffLate`
  says that the application is started exactly if no core was still before that store when core 0 published the
  download; `Handshake.EntryCanBeLost` is a run that loses it. A slave reads the pointer twice
  (c/bootloader/bootloader.c:126, 131), so it can jump to NULL. `Handshake.CanCallNullIff` gives the exact condition on
  the state in which core 0 publishes, `Handshake.SlaveCallsResult` what the other slaves do,
  `Handshake.SlaveCanJumpToNull` a run.
- The handshake can deadlock: a core that begins its boot code clears the status word others still wait for, and a core
  that returns from the application before core 0 has looked hides its acknowledgement. `HandshakeProgress.CanFinishIff`
  says from which reachable states core 0 can still finish its round, and `HandshakeProgress.AllProgramsCanRun` that all
  cores can run every program.
- The zero fill counts in 32 bits and never ends when a section's memory size exceeds both 2^32 - 4 and its rounded file
  size (c/bootloader/download.c:178-181): `ZeroFillLoop.FillEndsIff`. The model answers `Stuck` there, and
  `ZeroFillLoop.HugeSectionSticks` gives the programs.
- The multiply-and-shift division of the transparent clock is exact up to a first failing value;
  `TteClock.TransClkIsExactIff` gives the condition for every argument, `TteClock.FirstWrongClock` the first failure.
- `tte_schedule_send` accepts a frame at address 0 although 0 marks a free cell. The first-in first-out promise holds if
  and only if that never happens (`TteQueue.FifoIffNoneAtZero`); behind such a frame a ring of two cells or more sends
  nothing any more (`TteQueue.StuckBehindZero`).
- The Mandelbrot master can leave its receive loop if and only if the slaves divide the rows or outnumber them, and then
  from every reachable state: `MandelbrotProgress.EndsIffAllAskedFor`, `MandelbrotProgress.CanAlwaysFinish`. With more
  slaves than rows every share is empty and each slave asked computes row 0, so the picture is right only for a single
  row: `MandelbrotSystem.EveryRowWrittenOnce`, with three slaves and two rows in `MandelbrotProgress.ThreeSlavesTwoRows`.
- With more than 327681 rows some requested points leave the range in which the fixed-point iteration is exact:
  `MandelbrotChannel.PointsOnGridIff`.
- 16-bit filter outputs need a shift of at most one: `AudioEffects.OutputFitsIff`, with coefficients and samples that
  overflow for every larger shift.
- The audio node calls its effect once every S_AMOUNT frames, whatever number of frames that effect handles. The node's
  output is the effect's stream if and only if the calls cover the blocks frame for frame:
  `AudioStream.StreamsIffExact`. A delay fired every second frame sends stale frames: `AudioProcess.DelaySkipsFrames`.
- The ELF store macros take each byte from their source as it is by then. In one buffer `elf32_xlatetof` is right exactly
  when the orders agree or every field reads the same both ways, `elf32_xlatetom` always: `ElfXlate.OneBufferIff`.
- The cast at c/ethlib/tte.c:303 binds before the division, so sizes that do not fit a byte are outside the schedule's
  preconditions; the scan at c/ethlib/arp.c:99 looks at the slot before the index, the model at the index first.

## Model

| member | source | states |
|---|---|---|
| `Lzss.CopyRepeats` | c/bootloader/decompress.c:61-70 | every byte of a back reference repeats the byte its distance before it, overlapping copies included |
| `Lzss.MatchStartsAt` | c/bootloader/decompress.c:61-70 | a match with index i starts copying the latest byte at a place q of the history with (958 + q) % 1024 == i, and copies the low six bits plus three |
| `Lzss.FirstMatch` | c/bootloader/decompress.c:36-44 | from power-up index 958 and above give the cells never written, those below spaces |
| `Lzss.MatchFindsLiteral` | c/bootloader/decompress.c:56-70 | after literals, index (958 + k) % 1024 gives the k-th of the last 1024 |
| `Lzss.FlagBitIs` | c/bootloader/decompress.c:52-56 | bit k of a flag byte, lowest first, is one exactly for a literal |
| `Lzss.FourLetters` | c/bootloader/decompress.c:36-76 | the line bytes 01 41 BE C0 decode to the letter A four times |
| `Lzss.MatchInvertsTokenBytes` | c/bootloader/decompress.c:61-64 | the index and length bits of the two token bytes give back distance and length for every length 3 to 66 and distance 1 to 1024 |
| `Lzss.MarkerIsSet` | c/bootloader/decompress.c:51-52 | bit 8 of the flag word is clear exactly when all eight flags are used up |
| `Lzss.MarkerShifts` | c/bootloader/decompress.c:51-56 | the low bit of the flag word is the current flag and shifting leaves the remaining flags |
| `Lzss.MarkedFlagByte` | c/bootloader/decompress.c:53-54 | a fresh flag byte with 0xFF00 above it stands for exactly its eight bits |
| `Lzss.FlagBitsCover` | c/bootloader/decompress.c:51-60 | the flag bits at hand are the kinds of the next tokens, a new flag byte being read only when one is due |
| `Lzss.RefillDecodes` | c/bootloader/decompress.c:50-71 | one refill expands exactly the next token and leaves the line at the next one |
| `Lzss.DecodesTokens` | c/bootloader/decompress.c:46-76 | for every token list the bytes read are its expansion over the unbounded history and exactly its encoding is consumed |
| `Lzss.DecompressInvertsCompress` | c/bootloader/decompress.c:36-76 | from power-up, with any bytes in the 66 unset cells, decoding the encoding of any token list returns its expansion and stops right behind it |
| `Lzss.OneFlagBytePerEightTokens` | c/bootloader/decompress.c:52-55 | the encoding has one flag byte per eight tokens, one byte per literal and two per copy |
| `Lzss.Decoder.constructor` | c/bootloader/decompress.c:36-44 | both positions are 958 and the ring holds 958 spaces and 66 arbitrary cells, an empty window and no flags |
| `Lzss.Decoder.GetByte` | c/bootloader/decompress.c:46-76 | the ring with its two positions and flag word returns what the unbounded history says, for every state reached; full and empty are never confused |
| `Lzss.Decoder.NextToken` | c/bootloader/decompress.c:51-70 | the refill branch in the ring is the refill of the unbounded decoder and overwrites no unread byte |
| `Lzss.Decoder.CopyLoop` | c/bootloader/decompress.c:65-69 | the masked copy loop appends the back reference to the history |
| `Crc32.UpdateCrc` | c/bootloader/download.c:130-137 | the inner loop is eight bit steps after adding the byte |
| `Crc32.RegisterAppend` | c/bootloader/download.c:130-137 | the register after a concatenation is the register of the second part started from the first's |
| `Crc32.RegisterFeedsBits` | c/bootloader/download.c:130-137 | byte-wise updates equal feeding the message bit by bit, least significant bit of each byte first |
| `Crc32.MessageBitIs` | c/bootloader/download.c:130-131 | message bit 8 i + k is bit k of byte i |
| `Crc32.FourBytesOfOnes` | c/bootloader/download.c:122-137 | four bytes 0xFF have the CRC 0xFFFFFFFF, and no bytes the CRC 0 |
| `Crc32.FeedIsXorThenShift` | c/bootloader/download.c:130-137 | up to 32 message bits may be added to the register at once and shifted through together |
| `Crc32.BitStepInjective` | c/bootloader/download.c:132-136 | a bit step loses nothing |
| `Crc32.ShortStringsDiffer` | c/bootloader/download.c:130-137 | from one register two different strings of at most 32 bits never lead to the same register |
| `Crc32.BurstDetected` | c/bootloader/download.c:118-137 | two messages of one length that differ only within 32 consecutive wire bits have different CRCs |
| `Crc32.FourByteErrorDetected` | c/bootloader/download.c:118-137 | two payloads of one length that differ only inside four consecutive bytes have different CRCs |
| `Crc32.GeneratorIsPoly` | c/bootloader/download.c:104 | the constant is the generator polynomial of IEEE 802.3, reversed |
| `Crc32.CrcIsFrameCheck` | c/bootloader/download.c:118-137 | for every payload the value compared is the frame check sequence: the complemented remainder of the message with its first 32 bits complemented, modulo the generator |
| `Download.AbsorbAppend` | c/bootloader/download.c:139-190 | absorbing a concatenation is absorbing its parts, so chunking of the payload cannot be seen |
| `Download.FieldAbsorbed` | c/bootloader/download.c:139-166 | four big-endian bytes set the current header field and move on to the next |
| `Download.MemsizeAbsorbed` | c/bootloader/download.c:157-186 | the memory size is stored and an empty section is closed at once |
| `Download.DataAbsorbed` | c/bootloader/download.c:167-186 | the data bytes overlay memory as big-endian words, a partial last word padded with zeros, and close the section |
| `Download.SectionFilled` | c/bootloader/download.c:173-181 | the zero fill makes memory the section's data followed by zeros up to the word-rounded memory size |
| `Download.SectionAbsorbed` | c/bootloader/download.c:139-190 | a serialised section loads exactly its contents and counts once |
| `Download.SectionsPrefix` | c/bootloader/download.c:142-190 | no proper prefix of the sections completes their count |
| `Download.ProgramAbsorbed` | c/bootloader/download.c:139-190 | a serialised program sets the entry point and overlays memory with its sections in order |
| `Download.ProgramPrefix` | c/bootloader/download.c:139-206 | no proper prefix of a program looks complete |
| `Download.PacketReceived` | c/bootloader/download.c:118-208 | a whole packet, size, CRC and payload, absorbs its payload and computes its CRC |
| `Download.PacketJudged` | c/bootloader/download.c:194-208 | a packet is accepted exactly when it carries its own CRC; its reply is the low byte of the computed CRC; then the program starts if complete, otherwise the loop waits for the next |
| `Download.FramesReceived` | c/bootloader/download.c:114-210 | from any point between packets, the rest of a program in packets loads it and starts it |
| `Download.DownloadLoadsProgram` | c/bootloader/download.c:82-211 | for every program and every split into CRC-correct packets of 1 to 255 bytes, the entry point is returned and memory is the old one overlaid in order with each section's data and zeros |
| `LineFormat.OneSectionLoads` | c/bootloader/download.c:82-211 | by byte places: size, checksum, entry point, count, file size, address, size in memory and data of a one-section packet load exactly the named words, start the entry point and are answered with the last checksum byte |
| `LineFormat.CrcWordBit` | c/bootloader/download.c:122-137 | bit i of the number compared is the coefficient of x^(31 - i) of the frame check sequence |
| `Download.SplitIsUnobservable` | c/bootloader/download.c:82-211 | two splits of one program give the same result and memory |
| `Download.StreamExplained` | c/bootloader/download.c:114-210 | whatever bytes arrive, while the loop is reading or has started a program, they are CRC-correct packets, skipped zero bytes and at most one packet in progress |
| `Download.StartedOnlyAfterGoodPackets` | c/bootloader/download.c:194-205 | the entry point is returned only after all packets matched, and it is the one exactly those packets carried |
| `ZeroFillLoop.FillEndsIff` | c/bootloader/download.c:178-181 | turn by turn with its 32-bit counter, the fill loop ends if and only if the size is reached at once or is at most 2^32 - 4 |
| `ZeroFillLoop.FlagIsRight` | c/bootloader/download.c:173-181 | the section state machine is stuck exactly where the loop never ends |
| `ZeroFillLoop.EndsFilled` | c/bootloader/download.c:178-181 | where the loop ends, memory has the zeros the recursive form says |
| `ZeroFillLoop.HugeSectionSticks` | c/bootloader/download.c:173-181 | for every entry point, offset and size beyond 2^32 - 4, one packet with an empty section of that size makes `download` never return |
| `Loader.Downloader.constructor` | c/bootloader/download.c:84-104 | the initial variables are the start state of the stream machine |
| `Loader.Downloader.AcceptByte` | c/bootloader/download.c:139-171 | one byte goes into the current field or memory word |
| `Loader.Downloader.FillZeros` | c/bootloader/download.c:177-181 | the fill loop in place, where it ends |
| `Loader.Downloader.FinishSection` | c/bootloader/download.c:173-186 | alignment and zero fill close a section; it reports failure only for a loop that never ends |
| `Loader.Downloader.TakePayload` | c/bootloader/download.c:139-190 | one payload byte, with the partial word cleared at word boundaries |
| `Loader.Downloader.EndPacket` | c/bootloader/download.c:194-207 | final complement, reply byte, refusal, start or next packet |
| `Loader.Downloader.TakeByte` | c/bootloader/download.c:125-193 | one byte inside a packet: CRC field first, then payload and register |
| `Loader.Downloader.Step` | c/bootloader/download.c:118-209 | one turn of the loop is one step of the stream machine |
| `Loader.Downloader.Download` | c/bootloader/download.c:114-211 | the loop over the decompressor's bytes is the stream machine on what the decompressor delivers |
| `Loader.RunFrozen` | c/bootloader/download.c:199-205 | after a return nothing more is read |
| `Loader.StopsReading` | c/bootloader/download.c:199-205 | the result does not depend on what follows the byte at which the loop returned |
| `Loader.CompressedDownloadLoads` | c/bootloader/download.c:106-211 | a program cut into packets, compressed by any compressor, sent over the line and decompressed on the fly is started with its sections in memory |
| `Handshake.StepKeepsInv` | c/bootloader/bootloader.c:62-190 | every single shared access of any core keeps the protocol invariant |
| `Handshake.RunKeepsInv` | c/bootloader/bootloader.c:62-190 | the invariant holds in every state of every interleaving from any leftover memory, for any number of cores and rounds |
| `Handshake.SlaveStartsAfterDownload` | c/bootloader/bootloader.c:87-97 | a slave passes its start wait only after core 0's download of the same round has returned |
| `Handshake.MasterStartsAfterAcks` | c/bootloader/bootloader.c:106-121 | core 0 starts the application only after every slave has acknowledged that round |
| `Handshake.RoundsStayTogether` | c/bootloader/bootloader.c:150-190 | no core is ever more than one round ahead of another and none is behind core 0 |
| `Handshake.LeftoversCleared` | c/bootloader/bootloader.c:62-64 | after core 0's first stores nothing of an earlier run is left in the status word and the entry pointer |
| `Handshake.EntryIsThisRounds` | c/bootloader/bootloader.c:79-131 | a released core that looks up the entry point finds this round's result or NULL, and core 0 runs exactly the result |
| `Handshake.EntryLostIffLate` | c/bootloader/bootloader.c:62-131 | while core 0 looks up, runs and awaits the application, the entry pointer is NULL if a core had yet to make its first two stores when core 0 published it, and the download's result otherwise |
| `Handshake.CallsResultIffNotLate` | c/bootloader/bootloader.c:62-131 | in the round core 0 publishes in, once it is past the call it has called the download's result exactly once if there is one and no core was late, and nothing otherwise |
| `Handshake.SlaveCallsResultIffNotLate` | c/bootloader/bootloader.c:62-131 | with no other core late, a slave calls the result exactly once if there is one and the slave was not late, and nothing otherwise |
| `Handshake.CanCallNullIff` | c/bootloader/bootloader.c:62-131 | in the round core 0 publishes in, a slave can come to call NULL if and only if an entry point is published while another core has yet to clear it, the slave itself has cleared it, and the slave can still be released |
| `Handshake.SlaveCallsResult` | c/bootloader/bootloader.c:126-131 | a slave that found an entry point jumps to the download's result unless some other core was late when core 0 published it |
| `Handshake.SlaveCanJumpToNull` | c/bootloader/bootloader.c:62-131 | a three-core run in which a slave finds the entry point and jumps to NULL |
| `Handshake.EntryCanBeLost` | c/bootloader/bootloader.c:62-126 | a two-core run in which download and acknowledgement succeed and the application is never started |
| `HandshakeProgress.CanFinishIff` | c/bootloader/bootloader.c:62-190 | from every reachable state core 0 can come to the end of its round if and only if no core waits for a status that does not come back and no acknowledgement was lost |
| `HandshakeProgress.StuckForever` | c/bootloader/bootloader.c:87-190 | a core that keeps the round from ending does so in every continuation |
| `HandshakeProgress.AllProgramsCanRun` | c/bootloader/bootloader.c:62-190 | for any number of cores and any list of download results some run has every core call every program once, in order |
| `FixedPoint.FracMul` | c/cmp/mandelbrot_par.c:483-489 | for all arguments the 64-bit product does not overflow and the result is the low 32 bits of the exact floored product, so the product itself wherever that fits, as for every reachable point |
| `FixedPoint.SumOfSquares` | c/cmp/mandelbrot_par.c:477 | the sum of both squares fits 32 bits and is exact |
| `FixedPoint.Advance` | c/cmp/mandelbrot_par.c:472-475 | one iteration is exact and stays in reach as long as the escape test held |
| `FixedPoint.ProductFits` | c/cmp/mandelbrot_par.c:483-489 | products of reachable coordinates fit with room to add two |
| `FixedPoint.NextIsNear` | c/cmp/mandelbrot_par.c:471-475 | the escape test on the sum of squares bounds the next point |
| `FixedPoint.DoIter` | c/cmp/mandelbrot_par.c:465-481 | for every grid point and iteration limit no operation overflows and the result is the escape time of the exact orbit, or the limit |
| `FixedPoint.EscapeTimeIsUnique` | c/cmp/mandelbrot_par.c:465-481 | what the loop promises determines the number it returns |
| `FixedPoint.OrbitSquaresAndAdds` | c/cmp/mandelbrot_par.c:472-475 | as complex numbers the next point is z * z + c, less than one unit off in the real and two in the imaginary part |
| `FixedPoint.EscapedIsFar` | c/cmp/mandelbrot_par.c:471-477 | escaped points are more than 4.0 from zero, and points clearly beyond have escaped |
| `FixedPoint.KnownTimes` | c/cmp/mandelbrot_par.c:465-481 | the origin never escapes, 2 + 2i has after two steps |
| `MandelbrotChannel.GridIs` | c/cmp/mandelbrot_par.c:24-35 | 32 columns from -2 to 1 and rows from -1 that reach 1 |
| `MandelbrotChannel.PixelIs` | c/cmp/mandelbrot_par.c:454-455 | a pixel is the escape time, 0 for points that stay |
| `MandelbrotChannel.SlaveStepKeepsInv` | c/cmp/mandelbrot_par.c:418-463 | every step of a slave, each DMA word on its own, keeps the channel invariant |
| `MandelbrotChannel.WorkingStep` | c/cmp/mandelbrot_par.c:441-461 | a slave with a request computes and transfers the requested row only |
| `MandelbrotChannel.PacketWordKeepsInv` | c/cmp/mandelbrot_par.c:205-215 | each word of a packet, command word last, keeps the invariant |
| `MandelbrotChannel.PacketNotInUse` | c/cmp/mandelbrot_par.c:275-367 | while the master writes into a packet the slave only polls a command word without a command |
| `MandelbrotChannel.RowNotInUse` | c/cmp/mandelbrot_par.c:418-463 | while a slave writes a row the master sees no answer there |
| `MandelbrotSystem.StepKeepsInv` | c/cmp/mandelbrot_par.c:275-463 | every step of the master or of a slave keeps the system invariant |
| `MandelbrotSystem.RunKeepsInv` | c/cmp/mandelbrot_par.c:275-463 | it holds in every state of every interleaving |
| `MandelbrotSystem.LoopExit` | c/cmp/mandelbrot_par.c:320-358 | the receive loop is left only when every slave has answered all it was asked for, and that is all rows unless shares are empty |
| `MandelbrotSystem.EveryRowWrittenOnce` | c/cmp/mandelbrot_par.c:275-367 | when the receive loop has ended, as many rows were output as there are, each with its own picture; each row exactly once if and only if there are no more slaves than rows or just one row; with more slaves it was row 0 every time |
| `MandelbrotSystem.NothingWrittenTwice` | c/cmp/mandelbrot_par.c:275-367 | at any time every output row is its own picture; with no more slaves than rows none was output twice, with more only row 0 was output |
| `MandelbrotSystem.EndsOnlyIfAllAskedFor` | c/cmp/mandelbrot_par.c:275-367 | a run that leaves the receive loop has slaves that divide the rows or outnumber them |
| `MandelbrotProgress.WorkIsDone` | c/cmp/mandelbrot_par.c:418-463 | every step of a slave with a start or a request at hand brings it nearer to its answer |
| `MandelbrotProgress.MasterOn` | c/cmp/mandelbrot_par.c:275-367 | with no slave at work every step of the master brings it nearer to its end |
| `MandelbrotProgress.CanAlwaysFinish` | c/cmp/mandelbrot_par.c:275-463 | whatever has happened, the master can still finish if the slaves divide the rows or outnumber them: no interleaving leads into a dead end |
| `MandelbrotProgress.EndsIffAllAskedFor` | c/cmp/mandelbrot_par.c:275-367 | the receive loop can be left if and only if the number of slaves divides the number of rows or exceeds it |
| `MandelbrotProgress.EveryoneCanStop` | c/cmp/mandelbrot_par.c:360-463 | under the same condition, whatever has happened, the master can finish and every slave stop |
| `MandelbrotProgress.ThreeSlavesTwoRows` | c/cmp/mandelbrot_par.c:305-312 | with three slaves and two rows the master finishes and has output row 0 twice and row 1 never |
| `MandelbrotChannel.PointsOnGridIff` | c/cmp/mandelbrot_par.c:24-35 | every requested point lies where the iteration is exact if and only if there are at most 327681 rows |
| `MandelbrotChannel.ComputePixel` | c/cmp/mandelbrot_par.c:453-456 | the 32-bit iteration at a requested point computes the pixel of the picture |
| `MandelbrotSystem.MailboxesNeverClash` | c/cmp/mandelbrot_par.c:205-463 | in every interleaving no mailbox is overwritten before it is consumed and none is read half-written |
| `TteSchedule.SlotsCounted` | c/ethlib/tte.c:298-310 | the sizes added up at set-up are the number of instants before the end plus one |
| `TteSchedule.MergeStarts` | c/ethlib/tte.c:319-331 | the first entry is the first link with the earliest start |
| `TteSchedule.MergeStep` | c/ethlib/tte.c:333-347 | emitting the earliest next instant, first link first, keeps the merge complete and ordered so far |
| `TteSchedule.MergeFits` | c/ethlib/tte.c:333-347 | there is always room for the next entry |
| `TteSchedule.MergeEnds` | c/ethlib/tte.c:333-347 | when no instant before the end is left, the dummy link at the end completes the table |
| `TteSchedule.FindNext` | c/ethlib/tte.c:334-340 | the scan finds the first link with the smallest next instant |
| `TteSchedule.ScanLinks` | c/ethlib/tte.c:314-331 | the set-up scan copies the starts, finds the first link to fire and counts the slots |
| `TteSchedule.GenerateSchedule` | c/ethlib/tte.c:313-348 | the unbounded loop ends, stays inside both arrays, and the tables list every instant start + k * period below the cluster period exactly once in order, then the dummy link |
| `TteSchedule.ScheduleReads` | c/ethlib/tte.c:313-348 | each entry fires its gap after the one before, at its link's start plus a multiple of its period, ties to the lower link |
| `TteQueue.OfferHolds` | c/ethlib/tte.c:445-457 | a ring that holds some frames refuses exactly when it is full and otherwise holds one more at the end |
| `TteQueue.TickHolds` | c/ethlib/tte.c:459-482 | a tick sends the oldest frame with its own size, if there is one, and the ring holds the others |
| `TteQueue.RingIsQueue` | c/ethlib/tte.c:445-482 | over every run in which nothing at address 0 is accepted the ring accepts, sends and keeps what the bounded queue does |
| `TteQueue.FifoIffNoneAtZero` | c/ethlib/tte.c:445-482 | over every run from an empty ring, accepted frames are those sent followed by those still waiting if and only if none at address 0 was accepted |
| `TteQueue.StuckBehindZero` | c/ethlib/tte.c:445-482 | on a ring of two cells or more a frame accepted behind one at address 0 is sent by no number of ticks |
| `TteQueue.Link.constructor` | c/ethlib/tte.c:298-310 | an empty ring of the link's capacity |
| `TteQueue.Link.ScheduleSend` | c/ethlib/tte.c:445-457 | the function on the arrays does what the ring model says, address 0 included |
| `TteQueue.Link.SendData` | c/ethlib/tte.c:459-468 | takes the frame under the remove place out of the ring and sends it with its own size |
| `TteQueue.Link.Tick` | c/ethlib/tte.c:481-483 | the tick on the arrays does what the ring model says |
| `TteQueue.Link.Drive` | c/ethlib/tte.c:445-485 | so does any interleaving of offers, at any address, and ticks |
| `TteQueue.NothingLostOrReordered` | c/ethlib/tte.c:445-485 | over every interleaving the bounded queue has accepted what it has sent followed by what waits, within capacity |
| `TteQueue.TicksSend` | c/ethlib/tte.c:470-485 | n ticks send the first n waiting frames |
| `TteQueue.TicksDrain` | c/ethlib/tte.c:470-485 | enough ticks send everything accepted |
| `TteNode.SentAtItsInstant` | c/ethlib/tte.c:470-485 | a frame with k others before it is sent at its link's (k+1)-th instant from the table's current place on, whatever is offered meanwhile, and not before |
| `TteNode.TicksMoveOn` | c/ethlib/tte.c:470-485 | every tick moves on by one table entry, up to the end, whatever else happens |
| `TteNode.Node.ScheduleSend` | c/ethlib/tte.c:445-457 | a frame is taken exactly if its link's ring has a free cell, and then waits behind the others |
| `TteNode.Node.ClockTick` | c/ethlib/tte.c:470-485 | a tick on the rings takes the next link from the table, sends its oldest frame and moves the node on by one step |
| `TteClock.MagicDivision` | c/ethlib/tte.c:257-259 | multiplying by 536871 and shifting by 26 divides by 125 if and only if the accumulated error stays below the gap |
| `TteClock.MagicDivisionRange` | c/ethlib/tte.c:257-259 | it is exact below 6100874 |
| `TteClock.MagicDivisionFails` | c/ethlib/tte.c:257-259 | and wrong at 6100874 |
| `TteClock.TransClkIsExactIff` | c/ethlib/tte.c:257-259 | for every transparent clock t the 64-bit conversion is floor(10 t / 8192000) if and only if 10 t does not wrap and the multiplier error is below the gap |
| `TteClock.FirstWrongClock` | c/ethlib/tte.c:257-259 | every t below 39982687847 is converted exactly and that one is not |
| `TteClock.ResyncAccepts` | c/ethlib/tte.c:204-255 | a clock without synchronisation accepts the next frame and is set by it |
| `TteClock.SteadyAccepts` | c/ethlib/tte.c:204-255 | a synchronised clock accepts a frame if and only if it differs from the integration period by less than the precision, and is then set by that frame alone |
| `TteClock.SteadyRunAccepted` | c/ethlib/tte.c:204-255 | every frame of an arbitrarily long steady run is accepted and the error never accumulates |
| `TteClock.RejectedThenAccepted` | c/ethlib/tte.c:204-255 | after a rejected frame the next is always accepted |
| `TteClock.PermanenceCancelsDelay` | c/ethlib/tte.c:225 | a frame held up for the cycles its transparent clock records has the permanence point of an undelayed one, if and only if that clock is converted exactly |
| `TteClock.NodeFollowsMaster` | c/ethlib/tte.c:204-255 | whatever the frame's delay, the node's clock becomes the master's next sending time and the timer the master's time plus the start offset; a synchronised node follows if and only if the master is less than the precision off its period |
| `TteClock.NumberDigit` | c/ethlib/tte.c:210-223 | byte k from the end of a field has weight 256^k |
| `TteClock.Node.HandleIntegrationFrame` | c/ethlib/tte.c:204-255 | the function reads clock and cycle from the frame's bytes and updates time, timer and table place as the clock model says |
| `Checksum.ThreeFoldsSuffice` | c/ethlib/udp.c:155-161 | three folds bring every 32-bit sum to 16 bits and keep its residue modulo 65535, zero only for zero |
| `Checksum.OnesIffMultiple` | c/ethlib/ipv4.c:176-187 | a sum folds to all ones exactly when it is a positive multiple of 65535 |
| `Checksum.ComplementCompletes` | c/ethlib/ipv4.c:158-165 | filling in the complement makes the covered words sum to all ones |
| `Checksum.SameFold` | c/ethlib/udp.c:155-161 | two sums fold alike exactly when they agree modulo 65535 and in being zero |
| `PacketBuffer.SetByteReplaces` | c/ethlib/eth_patmos_io.c:62-70 | mask, shift and or replace one byte of a big-endian word and keep the others |
| `PacketBuffer.ViewSetByte` | c/ethlib/eth_patmos_io.c:62-70 | a byte write changes exactly that byte of the byte view |
| `PacketBuffer.ViewSetWord` | c/ethlib/eth_patmos_io.c:56-59 | a word write changes exactly its four bytes |
| `PacketBuffer.ViewIsBigEndian` | c/ethlib/eth_patmos_io.c:56-83 | the first byte of a word is its most significant one |
| `PacketBuffer.Buffer.Iowr` | c/ethlib/eth_patmos_io.c:56-59 | the word write on the byte view, the two low address bits dropped |
| `PacketBuffer.Buffer.Iord` | c/ethlib/eth_patmos_io.c:73-75 | the word read joins the four bytes of the aligned word |
| `PacketBuffer.Buffer.IowrByte` | c/ethlib/eth_patmos_io.c:62-70 | the byte write on the byte view, low eight bits only |
| `PacketBuffer.Buffer.IordByte` | c/ethlib/eth_patmos_io.c:78-83 | the byte read is the byte of the view |
| `Frames.IpComputedIgnoresFieldIff` | c/ethlib/ipv4.c:150-166 | the computed value ignores the old checksum field if and only if its low byte is zero |
| `Frames.UdpComputedIgnoresFieldIff` | c/ethlib/udp.c:129-163 | the same for the UDP checksum: ignored if and only if the low byte of the field is zero |
| `Frames.IpChecksumIsRight` | c/ethlib/ipv4.c:150-166 | with an empty field the filled-in header checksum makes the header sum to all ones |
| `Frames.TransportChecksumIsRight` | c/ethlib/udp.c:129-163 | the same for the pseudo header, transport header and payload of any length, odd ones padded |
| `Frames.BothChecksumsRight` | c/ethlib/udp.c:281-288 | filling in both checksums leaves both right |
| `Frames.UdpFrameIsRight` | c/ethlib/udp.c:255-292 | every UDP frame carries right IPv4 and UDP checksums |
| `Frames.UdpSendsZeroIff` | c/ethlib/udp.c:284-288 | a sent frame carries a checksum field of zero if and only if the covered words sum to a multiple of 65535 |
| `Frames.SomePortSendsZero` | c/ethlib/udp.c:255-292 | for all addresses, destination port and payload some source port makes it so |
| `Frames.UdpGettersInvert` | c/ethlib/udp.c:51-93 | a sent UDP frame has ports, length, addresses and payload in the places the getters read |
| `Frames.TcpFrameIsRight` | c/ethlib/tcp.c:110-151 | every TCP frame carries right IPv4 and TCP checksums |
| `Frames.TcpGettersInvert` | c/ethlib/tcp.c:48-107 | a sent TCP frame has ports, sequence and acknowledgement numbers, flags, window, lengths and payload in the places the getters read |
| `FrameReference.IpSumCovers` | c/ethlib/ipv4.c:150-156 | the header sum is the RFC 1071 sum of bytes 14 to 33 |
| `FrameReference.TransportSumCovers` | c/ethlib/udp.c:137-154 | for every frame the UDP or TCP sum is the RFC 1071 sum of both addresses, a zero byte, the protocol, the length and the padded segment |
| `FrameReference.RightByTheStandards` | c/ethlib/udp.c:167-204 | what the verify functions test for is, both ways, what the standards ask for |
| `FrameReference.UdpFrameByTheStandards` | c/ethlib/udp.c:255-292 | every frame sent is an IPv4 packet with version, lengths, identification, flags, hops, protocol 17 and addresses in place, and a UDP datagram with both checksums right |
| `FrameReference.TcpFrameByTheStandards` | c/ethlib/tcp.c:110-151 | the same for TCP, protocol 6, with all its fields |
| `Senders.SumWords` | c/ethlib/ipv4.c:152-156 | the checksum loop adds the big-endian words of the frame |
| `Senders.Finish` | c/ethlib/ipv4.c:158-165 | the conditional folds and the complement |
| `Senders.Ipv4ComputeChecksum` | c/ethlib/ipv4.c:150-166 | computes from the buffer what the frame's header demands |
| `Senders.Ipv4VerifyChecksum` | c/ethlib/ipv4.c:169-188 | returns 1 exactly when the header sums to all ones |
| `Senders.UdpComputeChecksum` | c/ethlib/udp.c:129-163 | computes the UDP checksum and touches at most the padding byte |
| `Senders.UdpVerifyChecksum` | c/ethlib/udp.c:167-204 | returns 1 exactly when pseudo header, header and payload sum to all ones |
| `Senders.WriteHeaders` | c/ethlib/udp.c:260-276 | the word writes lay down MAC and IPv4 header and source port at the word boundary at or before the address, nothing else |
| `Senders.UdpSendMac` | c/ethlib/udp.c:255-292 | the buffer then shows the UDP frame if and only if the address is a word boundary; at any other, which bytes stand there |
| `Senders.SeenIs` | c/ethlib/udp.c:260-280 | before the checksums every header byte stands as many bytes early as the address is off a word boundary, the payload in its place |
| `Senders.UdpShownIff` | c/ethlib/udp.c:255-292 | off a word boundary no buffer, addresses or payload make it the frame, since the type field is another |
| `Senders.UdpSendThenVerify` | c/ethlib/udp.c:167-292 | both verify functions accept every frame sent from a word boundary |
| `Senders.TcpComputeChecksum` | c/ethlib/tcp.c:154-195 | computes the TCP checksum and touches at most the padding byte |
| `Senders.TcpSend` | c/ethlib/tcp.c:110-151 | the buffer then shows the TCP frame if and only if the address is a word boundary; at any other, which bytes stand there |
| `Senders.TcpShownIff` | c/ethlib/tcp.c:110-151 | the same for every TCP frame |
| `Getters.UdpGetSourcePort` | c/ethlib/udp.c:51-55 | for every packet address the 16-bit field it reads: the source port, or as many bytes earlier as the address is unaligned |
| `Getters.UdpGetDestinationPort` | c/ethlib/udp.c:58-62 | likewise the destination port |
| `Getters.UdpGetPacketLength` | c/ethlib/udp.c:65-69 | likewise the length field |
| `Getters.UdpGetChecksum` | c/ethlib/udp.c:72-76 | likewise the checksum field |
| `Getters.UdpGetDataLength` | c/ethlib/udp.c:79-83 | the length field less the header, in 16 bits |
| `Getters.UdpGetData` | c/ethlib/udp.c:87-93 | the copy loop fills the array with the payload and touches nothing else |
| `Getters.UdpSendThenGet` | c/ethlib/udp.c:51-292 | whatever is sent, from any address, the getters read back from there: both ports, length and payload |
| `Getters.WordGettersRightIff` | c/ethlib/udp.c:51-76 | the bytes a word-reading getter returns are the field in every frame if and only if the packet is on a word boundary, two bytes behind one for the TCP checksum |
| `Getters.TcpGetDataLength` | c/ethlib/tcp.c:92-96 | IPv4 length less both headers, in 16 bits |
| `Getters.TcpGetChecksum` | c/ethlib/tcp.c:85-89 | for every packet address the field it reads: the checksum only two bytes behind a word boundary |
| `Getters.TcpGetData` | c/ethlib/tcp.c:100-107 | copies exactly as many payload bytes as the headers announce to where the caller's array begins, whatever room is stated, and returns their number |
| `Getters.StaysInRoomIff` | c/ethlib/tcp.c:100-107 | the bytes behind the stated room survive for every memory and payload if and only if the headers announce no more than that |
| `Getters.TcpSendThenGet` | c/ethlib/tcp.c:48-151 | whatever is sent from a word boundary the getters read back, except the checksum, for which they give the window |
| `Getters.Ipv4GetSourceIp` | c/ethlib/ipv4.c:110-116 | the copy loop yields the source address |
| `Getters.Ipv4GetDestinationIp` | c/ethlib/ipv4.c:119-125 | the copy loop yields the destination address |
| `Icmp.ReplyBytes` | c/ethlib/icmp.c:68-102 | which bytes a reply changes and to what |
| `Icmp.ReplyKeepsIpSum` | c/ethlib/icmp.c:85-90 | the header checksum that is never recomputed stays right for requests addressed to us |
| `Icmp.ReplySum` | c/ethlib/icmp.c:91-99 | the ICMP sum changes only by a carry lost in the 16-bit addition |
| `FrameReference.IcmpSumCovers` | c/ethlib/icmp.c:91-99 | the ICMP sum is the RFC 1071 sum of the message from its type on |
| `Icmp.ReplyIsRightIff` | c/ethlib/icmp.c:91-99 | for every payload length the reply to a right request is right if and only if the request's checksum field is below 0xF800 |
| `Icmp.SomeReplyIsWrong` | c/ethlib/icmp.c:91-99 | a request to our address, right in length, header and ICMP checksum, whose reply is wrong |
| `Icmp.CopyFrame` | c/ethlib/icmp.c:72-78 | the copy loop into a separate buffer |
| `Icmp.SwapAddresses` | c/ethlib/icmp.c:79-90 | the two swap loops exchange the addresses and put in our own, byte by byte in place |
| `Icmp.BuildPingReply` | c/ethlib/icmp.c:68-102 | the buffer then holds the reply, both in place and in a separate buffer, and nothing else changed |
| `Icmp.ProcessReceived` | c/ethlib/icmp.c:105-118 | answers exactly the echo requests addressed to us and leaves the buffer alone otherwise |
| `ArpTable.SizeIsUsedCount` | c/ethlib/arp.c:57-62 | the map has as many pairs as the table has used slots |
| `ArpTable.FreedRepresents` | c/ethlib/arp.c:79-89 | freeing the slot of an address removes exactly its pair |
| `ArpTable.FilledRepresents` | c/ethlib/arp.c:105-113 | filling a free slot with a new address adds exactly its pair |
| `ArpTable.Table.constructor` | c/ethlib/arp.c:57-62 | initialisation empties the map whatever the slots held |
| `ArpTable.Table.Search` | c/ethlib/arp.c:65-76 | finds an address exactly when the map has it, with its MAC |
| `ArpTable.Table.Delete` | c/ethlib/arp.c:79-89 | removes the pair of that address only and says whether there was one |
| `ArpTable.Table.Store` | c/ethlib/arp.c:105-113 | writing a slot adds the pair and drops the one the slot held |
| `ArpTable.Table.Insert` | c/ethlib/arp.c:92-116 | afterwards the pair is found and every other mapping is kept, except slot 0's when eight other addresses filled the table; no address ever has two used slots |
| `AudioEffects.Weighted` | c/libaudio/dsp_algorithms.c:44-47 | a 16 by 16 bit product never wraps in 32 bits |
| `AudioEffects.OutputFitsIff` | c/libaudio/dsp_algorithms.c:49-63 | for all coefficients and samples the stored output is the scaled accumulator, nothing cut off, if and only if the shift is at most one |
| `AudioEffects.CombFilter1` | c/libaudio/dsp_algorithms.c:453-479 | two taps, saturation and scaling, exact in 32 bits and 16 bits |
| `AudioEffects.CombFilter2` | c/libaudio/dsp_algorithms.c:482-511 | three taps, likewise |
| `AudioEffects.PushHolds` | c/libaudio/audio.c:520-527 | writing under the pointer and moving it down keeps the ring a record of the past in order |
| `AudioEffects.SeenAt` | c/libaudio/dsp_algorithms.c:456-461 | the cell d above the pointer is the sample d steps ago |
| `AudioEffects.Delay.Process` | c/libaudio/audio.c:557-575 | y[n] comes from x[n] and y[n - (L - 1)], saturated |
| `AudioEffects.RunDelay` | c/libaudio/audio.c:531-575 | the difference equation at every sample of every stream, silence before the start |
| `AudioEffects.Chorus.Process` | c/libaudio/audio.c:509-529 | y[n] comes from x[n], x[n - d1] and x[n - d2] with the two periodic modulation tables |
| `AudioEffects.RunChorus` | c/libaudio/audio.c:474-529 | the equation at every sample for any modulation within the ring |
| `AudioEffects.FilterIIR2` | c/libaudio/dsp_algorithms.c:37-66 | the accumulator loop never wraps for any coefficients and samples, and one cell is written |
| `AudioEffects.PartialIsWeigh` | c/libaudio/dsp_algorithms.c:41-48 | the loop over the three-cell rings is the second-order equation, its A[2] term meeting y[n-3] |
| `AudioEffects.OutputIsExact` | c/libaudio/dsp_algorithms.c:37-66 | with A[2] = 0 and a shift of at most one the stored sample is the saturated equation at lags 0 to 2, nothing cut off |
| `AudioEffects.Filter.Process` | c/libaudio/audio.c:295-323 | one filter step on the histories, with the band-pass and band-reject blends |
| `AudioEffects.RunFilter` | c/libaudio/audio.c:295-323 | the equation at every sample from any initial ring contents |
| `AudioReference.DelayLine` | c/libaudio/audio.c:531-575 | at every sample and in both channels y[n] is direct x[n] + feedback y[n - (L - 1)] over 32768, clamped, up to one unit of rounding |
| `AudioReference.ChorusLine` | c/libaudio/audio.c:474-529 | likewise g0 x[n - d1] + g1 x[n - d2] + g2 x[n] |
| `AudioReference.OutputIs` | c/libaudio/dsp_algorithms.c:37-66 | with a shift of zero or one the section's output is its six-coefficient equation over 32768 or 16384, clamped, up to one unit |
| `AudioReference.BlendSeparates` | c/libaudio/audio.c:304-318 | what the section passes unchanged leaves the band-pass and stays in the band-reject output, what it turns over the other way round, and the two add up to the input |
| `AudioStream.StreamSplits` | c/libaudio/audio.c:1050-1058 | running an effect over a concatenation is running it over the parts |
| `AudioStream.TilingStreams` | c/libaudio/audio.c:1050-1058 | calls of the effect that cover a part frame for frame leave the effect's stream in the write buffer |
| `AudioStream.MissedIsStale` | c/libaudio/audio.c:1017-1446 | a frame that no call writes is sent as the write buffer held it, whatever the effect |
| `AudioStream.ExactStreams` | c/libaudio/audio.c:1017-1446 | at exact rates a run sends the effect's frame-by-frame output and leaves its state, in all three cases |
| `AudioStream.UnevenFails` | c/libaudio/audio.c:776-793 | block sizes that do not divide each other lose or invent frames, whatever the effect |
| `AudioStream.StreamsIffExact` | c/libaudio/audio.c:764-793 | for all effects, inputs and write buffers a run is the effect's stream if and only if one block size divides the other and the calls cover the smaller block frame for frame |
| `AudioStream.ExactMeansOwnWidth` | c/libaudio/audio.c:776-793 | where all sizes divide each other this means that the firing size is the number of frames the effect handles |
| `AudioStream.BlocksAreUnique` | c/libaudio/audio.c:1017-1446 | a stream divides into blocks of one size in one way, so stream and block size determine every block sent |
| `AudioProcess.Node.constructor` | c/libaudio/audio.c:764-793 | the rate set-up for all sizes whose calls stay within a block |
| `AudioProcess.Node.Fire` | c/libaudio/audio.c:238-251 | one call of an effect: as many frames as that effect handles, from one place to another |
| `AudioProcess.Node.FireAll` | c/libaudio/audio.c:1054-1057 | one inner loop: one call every s frames, for all s; what no call writes stays |
| `AudioProcess.Node.ProcessEqual` | c/libaudio/audio.c:1017-1163 | one block in, the write buffer with the calls woven in sent, for all sizes |
| `AudioProcess.Node.ProcessInputLarger` | c/libaudio/audio.c:1178-1313 | one block in, ns blocks sent part by part, acknowledged only after the last frame was read, for all sizes |
| `AudioProcess.Node.ProcessOutputLarger` | c/libaudio/audio.c:1315-1446 | nr blocks in, woven side by side into one block, for all sizes |
| `AudioProcess.Node.Process` | c/libaudio/audio.c:1017-1446 | one run for all sizes, every block received acknowledged once and only after it was read; at exact rates everything sent so far is the effect's output on everything received so far |
| `AudioProcess.Play` | c/libaudio/audio.c:1017-1446 | at exact rates a node turns its input blocks into the effect's stream, so sizes are unobservable and frames conserved |
| `AudioProcess.DelaySkipsFrames` | c/libaudio/audio.c:1066-1070 | a delay node fired every second frame sends frame 1 as its write buffer held it, for every input |
| `AudioProcess.EchoDetermined` | c/libaudio/audio.c:557-575 | the delay equation has one solution, the stream a delay node sends |
| `AudioProcess.ChainIsOneEffect` | c/libaudio/audio.c:1017-1446 | two nodes in a row are one node of the combined effect |
| `ElfDescriptors.RetainKeeps` | c/libelf/begin.c:245-253 | a further handle keeps all counts right |
| `ElfDescriptors.NewRootKeeps` | c/libelf/begin.c:277-294 | a new file descriptor keeps all counts right |
| `ElfDescriptors.AddKeeps` | c/libelf/begin.c:360-368 | linking a new member keeps counts, lists and nesting right |
| `ElfDescriptors.ReleasedHasNoMembers` | c/libelf/end.c:82-85 | a descriptor whose count reaches zero has no handle and no member pointing to it |
| `ElfDescriptors.ReleaseRootKeeps` | c/libelf/end.c:99-117 | releasing a file keeps the rest consistent |
| `ElfDescriptors.ReleaseMemberKeeps` | c/libelf/end.c:85-98 | unlinking and releasing a member leaves exactly one reference of its archive to drop |
| `ElfDescriptors.NothingLeaks` | c/libelf/end.c:74-118 | in every consistent state each allocated descriptor is there for a handle on it or on a member below it |
| `ElfDescriptors.Library.FindMember` | c/libelf/begin.c:311-319 | the scan finds the open member with that base if there is one |
| `ElfDescriptors.Library.BeginMember` | c/libelf/begin.c:277-369 | the open descriptor of that member with one more count, or a new one linked in front; no two members share a base |
| `ElfDescriptors.Library.BeginFile` | c/libelf/begin.c:277-294 | a new descriptor of its own |
| `ElfDescriptors.Library.Memory` | c/libelf/begin.c:390-417 | a descriptor for a caller's image exactly when a version is set and there is an image |
| `ElfDescriptors.Library.Begin` | c/libelf/begin.c:223-388 | exactly which requests are served, and one handle more or nothing changed; counts equal handles plus members afterwards |
| `ElfDescriptors.Library.UnlinkFrom` | c/libelf/end.c:88-95 | the pointer walk takes exactly that member out of the list |
| `ElfDescriptors.Library.Drop` | c/libelf/end.c:82-117 | one reference less, with the recursive release upwards; it terminates and releases nothing that has a handle |
| `ElfDescriptors.Library.End` | c/libelf/end.c:74-118 | one handle less; the remaining count is returned; counts equal handles plus members afterwards |
| `ElfXlate.StoreLoad32` | c/libelf/byteswap.h:37-65 | storing what was loaded, signed or not, restores the bytes in either order |
| `ElfXlate.LoadStore32` | c/libelf/byteswap.h:37-65 | loading what was stored gives the word back |
| `ElfXlate.LoadStoreSigned32` | c/libelf/byteswap.h:41-65 | the same for every signed word |
| `ElfXlate.InPlaceIff` | c/libelf/byteswap.h:46-65 | storing a word in its own place, each byte taken from it as it is by then, is right if and only if the orders agree or the word reads the same both ways |
| `ElfXlate.InPlaceHalfIff` | c/libelf/byteswap.h:49-52 | the same for a half word: the orders agree or its two bytes do |
| `ElfXlate.AllInPlaceIff` | c/libelf/32.xlatetof.c:61-88 | records of any layout and number written over themselves come out as in a buffer of their own if and only if the orders agree or every field of every whole record reads the same both ways |
| `ElfXlate.OneBufferIff` | c/libelf/32.xlatetof.c:372-438 | with one buffer for both sides, translating to memory is always right, translating to the file exactly under that condition |
| `ElfXlate.MoveRecordMeans` | c/libelf/32.xlatetof.c:139-197 | a moved record has the same field values in its new order, and moving back restores every byte |
| `ElfXlate.RoundTrip` | c/libelf/32.xlatetof.c:61-88 | for every record layout, both orders and any count, there and back is the identity on whole records |
| `ElfXlate.RecordMoves` | c/libelf/32.xlatetof.c:61-88 | each record of the result has the field values of the record at the same place |
| `ElfXlate.MoveAllSize` | c/libelf/32.xlatetof.c:64-87 | the translated size is the source size without a partial record |
| `ElfXlate.CopyRecord` | c/libelf/32.xlatetof.c:139-197 | the member-by-member copy, a store reading its value again for every byte, moves the record and nothing else, in one buffer too |
| `ElfXlate.Translate` | c/libelf/32.xlatetof.c:61-88 | the size pass without destination agrees with the size written, and the destination then starts with the translation |
| `ElfXlate.Xlate` | c/libelf/32.xlatetof.c:372-425 | exactly which calls succeed, which error the others give, what is written, in one buffer or two, and that nothing is touched on failure |
| `ElfXlate.ThereAndBack` | c/libelf/32.xlatetof.c:430-438 | memory to file and back into other memory restores every whole record whenever both buffers are large enough |
| `ElfReference.LayoutsAreRight` | c/libelf/32.xlatetof.c:139-197 | the translation table has the offsets, widths and sizes of the ABI's records |
| `ElfReference.XlateKeepsMeaning` | c/libelf/32.xlatetof.c:313-438 | for every record type, record and field the number written means in the file, by its encoding, what it means in memory, by the host's order, and back |
| `ElfReference.WordToFile` | c/libelf/32.xlatetof.c:325-438 | a word v goes to the file as bytes v / 256^k, front to back under encoding 1, back to front under 2, on every host |
| `ElfReference.HalfToFile` | c/libelf/32.xlatetof.c:325-438 | the same for a half word |
| `ElfReference.WordFromFile` | c/libelf/32.xlatetof.c:325-438 | and such bytes come back as v |
| `ElfReference.AnswerIs` | c/libelf/32.xlatetof.c:380-415 | the exact condition of each error and of success, for every call |

## Left out

- Device registers, UART and Ethernet controller polling, timers, interrupts, inline assembly, printing, emulators and demonstration programs.
- libmp, libnoc, the FAT and SD library and the corethread worker; the audio model uses FIFOs in place of libmp's channels.
- That the timing delays (c/bootloader/bootloader.c:57-60, 73-76) keep the boot handshake out of its dead ends; an application that writes the status words; the copy into the instruction scratchpad.
- `download` reading from the Ethernet controller instead of the serial line; sections at unaligned offsets or wrapping around the address space are outside the load theorem.
- Mandelbrot: the master fills a packet in its own mailbox in one step; 32 columns.
- `tcp_verify_checksum`, which checks nothing, and the connection states of TCP.
- Getters.TcpSendThenGet: word boundaries only; at other addresses `Senders.TcpSend` leaves no frame to read.
- Senders.UdpSendThenVerify: promises nothing off a word boundary, where no frame stands.
- UDP length fields below the header size and frames beyond 65535 bytes; `udp_send`, which adds ARP resolution to `udp_send_mac`.
- ICMP requests shorter than their headers, and receive and transmit buffers that overlap without coinciding.
- ARP requests and replies on the wire.
- TTEthernet: logging variants and their PI controller, packet preparation, arming the timer, interrupts between the steps of one call; sizes beyond a byte.
- AudioEffects.RunDelay: frames instead of separate channel arrays; gains and ring length are parameters, the sine tables and filter coefficients come from floating-point set-up that is not modelled.
- AudioProcess.Play: one receive channel, no timeouts, NoC on both sides; mixing several inputs, copying to several outputs, the latency wait and the codec interface are not modelled. Calls that reach beyond a block, for a firing size below the effect's own number of frames, are excluded by the precondition.
- AudioProcess.Node.constructor: excludes firing sizes below the effect's own number of frames, whose calls read and write beyond a block.
- Vibrato, tremolo, wah-wah, overdrive and distortion.
- ElfDescriptors.Library.Begin: archive headers, file sizes and reads are parameters; `elf_next` and `elf_rand`, which move an archive's offset, memory mapping, section data and symbol tables are not modelled.
- ElfXlate.Xlate: buffers that overlap without coinciding; missing descriptors, which are refused before anything else, version records and 64-bit types are not modelled.
- PTP offset arithmetic, Dhrystone, and the packet-type dispatch of the other loaders.
