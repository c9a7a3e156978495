# Verified model of the hybrid light/RF network

A gateway sends packets to nodes over visible light and over RF. Packets for the light link are Reed-Solomon
encoded by the transmitter's kernel driver, put on the line bit by bit by a PRU program, decoded bit by bit by the
node's PRU program into a shared-memory ring, and corrected by the node's kernel driver. The node reports what it has
received in a bit-packed status report; the gateway's RF path is a chain of queues behind a token bucket.

The modules follow that path:

- `BitXor`, `GaloisField`, `FieldLaws`, `Sums`, `Polynomials`, `ModularArithmetic`, `DriverField`: the field GF(2^m) built from
  the shift register, for any symbol size and any primitive polynomial, and the algebra the codec rests on.
- `RsCode`, `Generator`, `Recurrences`, `ErrorLocator`, `Forney`: the code, its minimum distance, and the theory behind
  Berlekamp-Massey, Chien and Forney.
- `RsControl`, `Encoder`, `Syndromes`, `BerlekampMassey`, `Chien`, `Correction`, `Decoder`, `Codec`: the programs, on arrays and in place,
  each proved against that theory. The result is `Decoder.DecodeRs`: bounded-distance correction for every code.
- `LinkCoding`, `RxPru`, `RxProgram`, `RxRing`, `TxPru`, `Link`: the two PRU programs, their framing, and the ring as a two-process
  system under every interleaving.
- `PhyDriver`, `EndToEnd`: the drivers around the codec, and a damaged packet from sender to parse.
- `TxPool`, `TxPoolSplit`, `VlcDevice`: the transmitter's buffer pool and queue, as a step system, with releases taken apart, and as linked lists
  refining it.
- `ReceiveWindow`, `StatusReport`: the sliding window over every arrival history, and the report that describes it.
- `PacketQueue`, `RfPipeline`, `Gateway`: the bounded queues, the RF path as a step system, and the thread bodies refining it.

`dafny verify dfyconfig.toml` checks everything.

Where the code and its comments differ, the model follows the code:

- rs_init accepts every polynomial whose register is back at 1 after nn turns, not only primitive ones (`AcceptedNotPrimitive`). `InitRs` states that test
  exactly; validity of the result is stated for primitive polynomials, which the interface comment demands.
- num_err in pru_phy_decoding is unsigned, so a failed decode (-74) is not an early return: it marks the packet with the
  count 2^32 - 74 (`ProcessFrame`).
- The comment in the Chien search says lambda[0] is always 0; the code and the model use 1.
- A packet refused by the radio is popped and lost, and tbf_queue_length keeps counting it. With LIMIT 1 a single refusal stops the
  RF path for good (`OneRefusal`, `StallsForGood`); from every other state it can make progress (`StallExact`).
- The word emitter does not stop at sixteen bits from every register setting. `CallEnds` gives the exact condition, and `EveryCallSixteen` shows
  that the program meets it in every run.
- rcv_seq is not always the least missing number: a slide skips missing numbers (`SlideExample`), and may leave it on a received one until the
  next arrival (`RestsOnReceived`). `AckIsLeastMissing` gives the exact condition on the history, `SlideSkips` the guard of the branch.
- The receive window's inner loop has no bound of its own. It leaves the array exactly when no number from rcv_seq on is missing (`LoopLeavesNow`); that
  cannot happen while some number of the array's last window is missing (`GapBelowLast`), and does at once or at the next arrival when none is
  (`LoopLeavesArray`, `ArrayExample`).
- vlc_release_buffer makes its wake-up test after the push and outside the lock. If vlc_tx takes the buffer again in between, the test can wake the queue on
  an empty pool (`RaceExample`); `TestExact` gives the exact condition. `TxPool` and `VlcDevice` take the release as one step, which the timer handler is as long
  as vlc_tx does not run inside it (`NoGetNoRace`).
- The transmitter PRU is built with twenty trailing bytes more than the receiver counts. What follows a frame on the line then decides whether the next one is
  received: `SurplusExact` gives the condition, `SurplusExample` bytes that break it.

Conventions: symbols, bytes and bits are natural numbers below 2^m, 256 and 2; exclusive-or and shifts are defined on naturals. Masks and
truncations in the code are written out. Lookup tables are sequences once rs_init has built them, since nothing changes
them later. The syndrome flag syn_error is a boolean. That the iterations of the gateway's threads and the driver's operations on its pool and queue are
atomic is an assumption: the driver's locks are off by default (flag_lock is 0), and the gateway holds its locks only around single queue
operations. In the ring nothing of the kind is assumed: every raw bit, every access to a shared index and every copied byte is a step of its own. The line is taken to
wait for the receiver: while FINAL waits for room in a full ring the shift register goes on and its bits are lost, which is not modelled.

## Model

| member | source | states |
|---|---|---|
| `GaloisField.ExpInjective` | node (rf)_ourvlc/reed_solomon.c:105-112 | for a primitive polynomial the register visits nn different values before it repeats |
| `GaloisField.ExpSurjective` | node (rf)_ourvlc/reed_solomon.c:105-112 | and it visits every nonzero symbol, so logarithms exist for all of them |
| `FieldLaws.PolyMulIsMul` | node (rf)_ourvlc/reed_solomon.c:103-112 | shift-and-reduce multiplication modulo the field polynomial is multiplication through logarithms, for every pair of symbols |
| `DriverField.ByteFieldPrimitive` | node (rf)_ourvlc/ourvlc-1.c:35-36 | 0x11d with eight-bit symbols is primitive: its register returns to 1 after 255 turns and not before |
| `DriverField.AcceptedNotPrimitive` | node (rf)_ourvlc/reed_solomon.c:121-123 | x^4 + x^3 + x^2 + x + 1 with four-bit symbols passes the test of rs_init and is not primitive |
| `RsControl.RsModnn` | node (rf)_ourvlc/rslib.h:100-107 | the folding loop ends and yields x mod nn for every x >= 0; negative x comes back unchanged |
| `RsControl.TableMulIsPolyMul` | node (rf)_ourvlc/reed_solomon.c:100-120 | alpha_to[(index_of[a] + index_of[b]) mod nn] is the polynomial product of nonzero a and b |
| `RsControl.FillTables` | node (rf)_ourvlc/reed_solomon.c:100-112 | the tables are inverse bijections when the polynomial is primitive, with the log-of-zero entries; sr ends at the nn-th power |
| `ModularArithmetic.Bezout` | node (rf)_ourvlc/reed_solomon.c:125-128 | why the search below can succeed: an inverse exists modulo any coprime number |
| `RsControl.FindIprim` | node (rf)_ourvlc/reed_solomon.c:125-128 | for prim coprime to nn the search stops before step prim with iprim * prim = 1 mod nn |
| `RsControl.TimesRoot` | node (rf)_ourvlc/reed_solomon.c:132-147 | one in-place pass from the top multiplies the polynomial so far by (x + alpha^root) |
| `RsControl.FormGenpoly` | node (rf)_ourvlc/reed_solomon.c:130-150 | genpoly is the index form of the product of (x + alpha^((fcr+i) prim)) over all i < nroots |
| `RsControl.InitRs` | node (rf)_ourvlc/reed_solomon.c:199-247 | None exactly when a parameter is out of range or the register does not close after nn turns; otherwise, for a primitive polynomial, everything encoding and decoding rely on |
| `Generator.GenPolyRoots` | node (rf)_ourvlc/reed_solomon.c:130-147 | each of the nroots consecutive powers is a root of the generator polynomial |
| `Generator.GenPolyNonzero` | node (rf)_ourvlc/reed_solomon.c:130-150 | no coefficient of the generator polynomial is zero when nroots < nn and prim is coprime to nn |
| `Encoder.GenpolyEntry` | VLC TX1 (Eth)_ourvlc/encode_rs.c:38-51 | so no genpoly entry is the log of zero |
| `Encoder.FeedbackProduct` | VLC TX1 (Eth)_ourvlc/encode_rs.c:38-51 | and the unguarded sums of logarithms in the encoder always mean field products |
| `Polynomials.RootCount` | node (rf)_ourvlc/decode_rs.c:178-199 | a nonzero polynomial with n coefficients has fewer than n roots |
| `Polynomials.Vandermonde` | node (rf)_ourvlc/decode_rs.c:178-249 | nonzero weights on w distinct points cannot annul their first w power sums |
| `RsCode.MinimumWeight` | VLC TX1 (Eth)_ourvlc/encode_rs.c:35-52 | BCH bound: a codeword with at most nroots nonzero symbols is zero |
| `RsCode.MinimumDistance` | VLC TX1 (Eth)_ourvlc/encode_rs.c:35-52 | two different codewords of equal length differ in at least nroots + 1 symbols |
| `Generator.LfsrEval` | VLC TX1 (Eth)_ourvlc/encode_rs.c:35-52 | what the register holds at every root after any data from any starting parity |
| `Generator.EncodingIsCodeword` | VLC TX1 (Eth)_ourvlc/encode_rs.c:31-53 | data followed by the parity from a zero register vanishes at every generator root |
| `Encoder.InvertedData` | VLC TX1 (Eth)_ourvlc/encode_rs.c:36-36 | the inversion mask is as good as inverting the data beforehand |
| `Encoder.EncodeSymbol` | VLC TX1 (Eth)_ourvlc/encode_rs.c:36-51 | one symbol through the parity array in place is one step of the shift register |
| `Encoder.EncodeRs` | VLC TX1 (Eth)_ourvlc/encode_rs.c:31-53 | the length test with -ERANGE, the whole register over the data, and a codeword when par starts at zero |
| `Codec.EncodingsFarApart` | VLC TX1 (Eth)_ourvlc/encode_rs.c:35-52 | encodings of two different blocks of equal length differ in at least nroots + 1 symbols |
| `Codec.ParityUnique` | VLC TX1 (Eth)_ourvlc/encode_rs.c:31-53 | the encoding is the only codeword that starts with the data |
| `Syndromes.FormSyndromes` | node (rf)_ourvlc/decode_rs.c:48-78 | syn[i] is the received word evaluated at root fcr + i |
| `Syndromes.ToIndexForm` | node (rf)_ourvlc/decode_rs.c:80-85 | the index form stands for the same values, and the error flag says whether any is nonzero |
| `Recurrences.RecurrencesAgree` | node (rf)_ourvlc/decode_rs.c:115-169 | Massey's theorem: recurrences of lengths la and lb valid below n agree at n if la + lb <= n |
| `Recurrences.BmKeep` | node (rf)_ourvlc/decode_rs.c:135-139 | zero discrepancy: the invariant survives the shift of b |
| `Recurrences.BmUpdate` | node (rf)_ourvlc/decode_rs.c:140-150 | nonzero discrepancy with 2 el > r: the invariant survives the correction, at the same length |
| `Recurrences.BmJump` | node (rf)_ourvlc/decode_rs.c:151-161 | nonzero discrepancy with 2 el <= r: the invariant survives with length r + 1 - el and b = lambda / discr |
| `Recurrences.ShortestUnique` | node (rf)_ourvlc/decode_rs.c:115-169 | a shortest recurrence of length el with 2 el <= nroots is unique, coefficient by coefficient |
| `BerlekampMassey.Discrepancy` | node (rf)_ourvlc/decode_rs.c:125-135 | the discrepancy is the convolution of lambda with the syndromes |
| `BerlekampMassey.UpdateT` | node (rf)_ourvlc/decode_rs.c:141-150 | t = lambda - discr x b |
| `BerlekampMassey.ScaleB` | node (rf)_ourvlc/decode_rs.c:157-161 | b = lambda / discr, in index form |
| `BerlekampMassey.ShiftB` | node (rf)_ourvlc/decode_rs.c:137-139 | b = x b in nroots + 1 slots |
| `BerlekampMassey.Iterate` | node (rf)_ourvlc/decode_rs.c:124-169 | every step keeps lambda[0] = 1, degree <= el <= r, the recurrence on syndromes el..r-1, no shorter recurrence, and a b that loses no needed term |
| `BerlekampMassey.FindLocator` | node (rf)_ourvlc/decode_rs.c:95-169 | for any syndromes: lambda is a shortest recurrence of all of them |
| `ErrorLocator.LocatorRecurrence` | node (rf)_ourvlc/decode_rs.c:118-169 | the error locator polynomial is a recurrence as long as the number of errors |
| `ErrorLocator.RecurrenceVanishes` | node (rf)_ourvlc/decode_rs.c:118-169 | a recurrence with enough valid indices vanishes at every error locator |
| `ErrorLocator.ShortestLocates` | node (rf)_ourvlc/decode_rs.c:118-169 | with at most nroots/2 errors the shortest recurrence has exactly the inverse error locators as roots, and its degree is the number of errors |
| `Chien.LocatorToIndex` | node (rf)_ourvlc/decode_rs.c:171-177 | index form of lambda and its degree |
| `Chien.SearchStep` | node (rf)_ourvlc/decode_rs.c:182-188 | after i turns the registers hold the terms at x^i and q is lambda(x^i) |
| `Chien.ChienSearch` | node (rf)_ourvlc/decode_rs.c:178-199 | every root is recorded once with its position, in order, without overrunning root and loc, whether or not the search stops early |
| `Decoder.CountIsDistance` | node (rf)_ourvlc/decode_rs.c:178-207 | the number of roots found is the number of symbol errors |
| `Correction.FormOmega` | node (rf)_ourvlc/decode_rs.c:208-221 | omega is syndromes times lambda modulo x^deg, in index form |
| `Correction.EvaluateOmega` | node (rf)_ourvlc/decode_rs.c:228-233 | num1 is omega at the root |
| `Correction.EvaluateDerivative` | node (rf)_ourvlc/decode_rs.c:235-244 | den is the formal derivative of lambda at the root |
| `Forney.ForneyFormula` | node (rf)_ourvlc/decode_rs.c:223-249 | at an error the derivative and omega are nonzero and error * derivative = locator * omega |
| `Decoder.CorrectionIsError` | node (rf)_ourvlc/decode_rs.c:227-249 | num1 * num2 / den is the error value |
| `Correction.CorrectErrors` | node (rf)_ourvlc/decode_rs.c:227-262 | each correction is applied once, inside the message only |
| `Decoder.SearchOutcome` | node (rf)_ourvlc/decode_rs.c:171-207 | what the search finds: the degree of the locator if it has that many nonzero zeros, failure otherwise |
| `Decoder.OneDecides` | node (rf)_ourvlc/decode_rs.c:115-207 | the outcome of one shortest recurrence is that of every one at most half as long as the syndromes are many |
| `Decoder.DecodeRs` | node (rf)_ourvlc/decode_rs.c:41-269 | whatever is received, on its syndromes: the result is the degree of a shortest recurrence if that has as many nonzero zeros, and -EBADMSG otherwise, for every shortest recurrence of at most half their number; each data symbol is corrected by the value at the zero that points at it or stays, at most as many as the count and none otherwise; every codeword within nroots/2 changed symbols is restored exactly and the count is the number of changed symbols |
| `Codec.RestoredSymbols` | node (rf)_ourvlc/decode_rs.c:41-269 | what restoring means for the data symbols |
| `Codec.RoundTrip` | node (rf)_ourvlc/decode_rs.c:41-269 | the decoder on the encoder's own output returns 0 and changes nothing |
| `Codec.NoisyTransfer` | node (rf)_ourvlc/decode_rs.c:41-269 | data sent through the encoder and received with at most nroots/2 symbols changed is recovered, with the exact count |
| `LinkCoding.RawOfCodeBytes` | node (rf)_node1/RXPRU/RXPRU.p:147-174 | decoding the line code gives back the bytes |
| `LinkCoding.RawBytesLocal` | node (rf)_node1/RXPRU/RXPRU.p:153-174 | raw damage in the sixteen bits of one byte leaves the other bytes alone |
| `LinkCoding.RawBit` | node (rf)_node1/RXPRU/RXPRU.p:153-174 | bit j of a decoded value is decided by the first raw bit of its own pair |
| `LinkCoding.OnePairOneBit` | node (rf)_node1/RXPRU/RXPRU.p:153-174 | a wrong pair alters at most one data bit: every other bit of the decoded value stays, and so does that one unless the first raw bit of the pair changed |
| `RxProgram.Receiver.constructor` | node (rf)_node1/RXPRU/RXPRU.p:17-75 | the start state |
| `RxProgram.Receiver.OnBit` | node (rf)_node1/RXPRU/RXPRU.p:93-278 | the register program on one raw bit is the bit function |
| `RxProgram.Receiver.Feed` | node (rf)_node1/RXPRU/RXPRU.p:82-102 | raw bits one after the other take the program where the bit function goes |
| `RxProgram.Receiver.TryPublish` | node (rf)_node1/RXPRU/RXPRU.p:280-291 | the publishing loop, once around: the write index stored, no other byte changed, the detector reset |
| `RxPru.FourHighs` | node (rf)_node1/RXPRU/RXPRU.p:109-251 | four high bits bring the receiver from any state before the body to the synchronised one, and nothing is written |
| `RxPru.IdleHighs` | node (rf)_node1/RXPRU/RXPRU.p:109-130 | any number of high bits keeps it there |
| `RxPru.Preamble` | node (rf)_node1/RXPRU/RXPRU.p:109-145 | three alternating bytes from a synchronised detector reach the delimiter |
| `RxPru.PreambleExact` | node (rf)_node1/RXPRU/RXPRU.p:109-145 | over any raw bits: a synchronised detector goes on hunting until, and leaves exactly when, the last 24 raw bits are three alternating bytes |
| `RxPru.RawBody` | node (rf)_node1/RXPRU/RXPRU.p:147-278 | any raw bits keep the receiver in step through the body |
| `RxPru.OpeningReceived` | node (rf)_node1/RXPRU/RXPRU.p:109-242 | preamble, delimiter and length take a synchronised receiver into the body, at the write index |
| `RxPru.FrameReceived` | node (rf)_node1/RXPRU/RXPRU.p:109-278 | after preamble, delimiter and length, any raw body is stored byte for byte as it decodes |
| `RxPru.FrameRoundTrip` | node (rf)_node1/RXPRU/RXPRU.p:109-278 | a correctly sent frame is stored exactly |
| `RxPru.LengthRefused` | node (rf)_node1/RXPRU/RXPRU.p:210-251 | a well-coded length other than 74 sends the receiver back to hunting with a low as last bit, and writes nothing |
| `RxPru.DelimiterRefused` | node (rf)_node1/RXPRU/RXPRU.p:183-199 | a byte that differs from 0xA3 is refused at its first wrong bit, with the raw bit just read as last bit, and nothing is written |
| `RxPru.EqualPairRefused` | node (rf)_node1/RXPRU/RXPRU.p:153-163 | two equal raw bits before the body send the receiver back to hunting |
| `Link.UnitReceived` | node (rf)_node1/RXPRU/RXPRU.p:109-278 | quiet bits, then a frame with any raw body, from a synchronised receiver |
| `Link.ReceiveUnit` | node (rf)_node1/RXPRU/RXPRU.p:93-278 | the same done by the register program on its memory |
| `Link.EraseBit` | node (rf)_node1/RXPRU/RXPRU.p:93-278 | no raw bit looks at the read index, so a slot released in mid-frame changes nothing |
| `Link.StreamPublished` | node (rf)_node1/RXPRU/RXPRU.p:109-291 | in every run of receiver and kernel thread whose raw bits begin a stream of any number of frames with any raw bodies: the frames published are those of the line in order and as they decode, the thread has got the first of them, and a frame whose last bit has come is published or waits in FINAL |
| `Link.FramesStored` | node (rf)_node1/RXPRU/RXPRU.p:109-291 | in every such run correctly sent frames, any number, back to back or with highs or other quiet bits between, are stored and delivered byte for byte in order |
| `Link.QuietExact` | node (rf)_node1/RXPRU/RXPRU.p:109-251 | bits followed by four highs leave a synchronised receiver as it was if and only if no opening of a frame is found in them |
| `Link.OpeningNotQuiet` | node (rf)_node1/RXPRU/RXPRU.p:109-242 | bits that begin with an opening do not |
| `RxRing.StepKeeps` | node (rf)_node1/RXPRU/RXPRU.p:219-291 | the ring invariant is kept by every raw bit, by the test and the store of FINAL, by each of the consumer's three loads, each copied byte and each release, in any interleaving |
| `RxRing.RunInv` | node (rf)_node1/RXPRU/RXPRU.p:219-291 | so it holds in every state of every run |
| `RxRing.NeverBlocked` | node (rf)_node1/RXPRU/RXPRU.p:219-291 | no access ever leaves the ring: each process can always take its next step |
| `RxRing.FinalIsTestPublish` | node (rf)_node1/RXPRU/RXPRU.p:280-291 | one pass of FINAL is the test step, followed by the publishing step if there is room |
| `RxRing.RoomExact` | node (rf)_node1/RXPRU/RXPRU.p:280-283 | FINAL finds room exactly when the frame would not be the sixtieth outstanding one |
| `RxRing.LoadsOldest` | node (rf)_ourvlc/ourvlc-1.c:331-342 | with nothing outstanding two loads bring the consumer back to the top; otherwise three bring it to the oldest frame |
| `RxRing.Delivers` | node (rf)_ourvlc/ourvlc-1.c:342-397 | from there its own steps alone deliver that frame and free the slot |
| `RxRing.RingSafe` | node (rf)_ourvlc/ourvlc-1.c:331-397 | indices on 100-byte slots in [4, 6004), at most 59 frames outstanding, every published frame 100 bytes with length 74, frames delivered once each and in order, outstanding frames intact |
| `RxRing.UnreadUntouched` | node (rf)_node1/RXPRU/RXPRU.p:219-278 | no raw bit changes an unread frame |
| `RxRing.Resynchronises` | node (rf)_node1/RXPRU/RXPRU.p:109-251 | from every reachable state before a body, four high bits bring the receiver back in step |
| `TxPru.GetValue` | VLC TX1 (Eth)_vlc_tx/TXPRU/TXPRU.p:139-301 | from every state but an even-counted preamble past its first byte: exactly sixteen bits, no pair split, alignment kept |
| `TxPru.MissesSixteen` | VLC TX1 (Eth)_vlc_tx/TXPRU/TXPRU.p:139-301 | from those states the counter never reads sixteen, so the condition of GetValue is exact |
| `TxPru.CallEnds` | VLC TX1 (Eth)_vlc_tx/TXPRU/TXPRU.p:139-301 | a call of GETVALUE ends if and only if the state is one of GetValue's |
| `TxPru.OneBitBeforeDelimiter` | VLC TX1 (Eth)_vlc_tx/TXPRU/TXPRU.p:151-187 | a register setting from which it would not: one preamble bit left |
| `TxPru.RunAligned` | VLC TX1 (Eth)_vlc_tx/TXPRU/TXPRU.p:79-127 | no run of the program from START gets to such a setting, whatever its calls, resets, index checks and writes to its memory |
| `TxPru.EveryCallSixteen` | VLC TX1 (Eth)_vlc_tx/TXPRU/TXPRU.p:79-127 | so every call the program makes ends after exactly sixteen bits, in whole passes |
| `TxPru.PacketSent` | VLC TX1 (Eth)_vlc_tx/TXPRU/TXPRU.p:151-297 | a packet in memory appears on the line as its frame and four highs; the read index in shared memory is the one behind it, every other byte is as it was, and the emitter is ready again |
| `TxPru.PacketsInTurn` | VLC TX1 (Eth)_vlc_tx/TXPRU/TXPRU.p:87-96 | any number of packets in turn, each read where the one before it stored the read index |
| `Link.PacketsAcrossLink` | VLC TX1 (Eth)_vlc_tx/TXPRU/TXPRU.p:151-297 | packets in the transmitter's memory, any number, each sent with any trailing-byte count not below the receiver's and with no opening in the surplus, arrive and are delivered byte for byte in order in every run, and each emitter is ready for the next one |
| `Link.OwnCountLoaded` | VLC TX1 (Eth)_vlc_tx/TXPRU/TXPRU.p:243-248 | with the receiver's own count there is no surplus and no condition |
| `Link.SurplusExact` | VLC TX1 (Eth)_vlc_tx/TXPRU/TXPRU.p:243-248 | with a larger count, as the emitter is built, the condition is exactly that the surplus bytes hold no opening |
| `Link.SurplusExample` | VLC TX1 (Eth)_vlc_tx/TXPRU/TXPRU.p:243-248 | a surplus beginning with the bytes 00 0a 30 04 a0 holds one |
| `PhyDriver.InitCodec` | node (rf)_ourvlc/ourvlc-1.c:506-511 | the codec both drivers ask for, with its parameters, is granted and valid |
| `PhyDriver.WritePacket` | VLC TX1 (Eth)_ourvlc/ourvlc-1.c:368-408 | one-block packets: the bytes put in PRU memory are the encoding of the packet, nothing else changes |
| `PhyDriver.CorrectFrame` | node (rf)_ourvlc/ourvlc-1.c:352-373 | the decode call on the receive buffer with the parity split off: near packets restored with the exact count, at most ret bytes changed, none when ret is 0 or a failure |
| `PhyDriver.MarkBuffer` | node (rf)_ourvlc/ourvlc-1.c:376-384 | node id and error count written over a corrected packet |
| `PhyDriver.ProcessFrame` | node (rf)_ourvlc/ourvlc-1.c:340-388 | a frame near an encoding is passed up as that packet, marked if anything was corrected; a frame that fails to decode is passed up as it came, marked with 2^32 - 74; any other as a correction of at most ret bytes marked with ret; which of these it is follows from the syndromes of the frame; a bad length passes nothing |
| `PhyDriver.MarkKeeps` | node (rf)_ourvlc/ourvlc-1.c:376-384 | marking changes the node id, unless it is the dummy packets', and the first four payload bytes, which become the count; nothing else |
| `PhyDriver.DamageDistance` | node (rf)_node1/RXPRU/RXPRU.p:253-278 | the stored frame differs from the one sent in at most the bytes whose raw bits were damaged |
| `PhyDriver.TransmitToVlc` | VLC TX1 (Eth)_vlc_tx/main.c:231-247 | the sender's layout: length, node id, transmitter id, sequence number, data |
| `PhyDriver.ParsesBack` | node (rf)_node1/node_packet.c:23-37 | the node's parse of those bytes gives the five values back |
| `PhyDriver.DamagedPacketParsed` | node (rf)_node1/node_packet.c:23-37 | with at most eight of the 98 bytes damaged the node parses the packet that was sent, field by field, with the mark and the count of the bytes corrected |
| `EndToEnd.SendAndReceive` | VLC TX1 (Eth)_ourvlc/ourvlc-1.c:368-408 | the same from the sender's packet over layout, encoder, emitter, damaged line and receiver |
| `EndToEnd.DeliveredPacketParsed` | node (rf)_ourvlc/ourvlc-1.c:331-397 | over whole runs: every frame the kernel thread has got whose raw bits were damaged in at most eight bytes parses to the packet that was sent |
| `TxPool.StepKeeps` | VLC TX1 (Eth)_ourvlc/ourvlc-1.c:145-221 | every get, fill, enqueue, dequeue, encode and release keeps the partition, the flow control and the order |
| `TxPool.PoolSafe` | VLC TX1 (Eth)_ourvlc/ourvlc-1.c:145-221 | after any run: each buffer in one place; stopped exactly when the pool is empty unless exiting, so a running queue finds a buffer; exiting only once told to; payloads leave in arrival order unchanged |
| `TxPool.ExitNeverWakes` | VLC TX1 (Eth)_ourvlc/ourvlc-1.c:165-177 | after flag_exit is set a stopped queue stays stopped |
| `TxPoolSplit.HalvesAreRelease` | VLC TX1 (Eth)_ourvlc/ourvlc-1.c:164-177 | push and wake-up test of a release without a step between them are the release step |
| `TxPoolSplit.TestExact` | VLC TX1 (Eth)_ourvlc/ourvlc-1.c:169-177 | with steps between them the test leaves vlc_tx safe if and only if it was not raced: the buffer taken again, its next field cleared and the queue stopped since |
| `TxPoolSplit.SplitSafe` | VLC TX1 (Eth)_ourvlc/ourvlc-1.c:145-221 | in every run without a raced test: partition and order kept, a running queue finds a buffer, between releases stopped exactly when the pool is empty |
| `TxPoolSplit.NoGetNoRace` | VLC TX1 (Eth)_ourvlc/ourvlc-1.c:145-177 | no test is raced if vlc_tx takes no buffer between a push and its test |
| `TxPoolSplit.RaceExample` | VLC TX1 (Eth)_ourvlc/ourvlc-1.c:145-221 | a run from the start with two buffers in which it does, and the test wakes the queue on an empty pool |
| `VlcDevice.SetupPool` | VLC TX1 (Eth)_ourvlc/ourvlc-1.c:98-115 | the chain of new buffers |
| `VlcDevice.FindLast` | VLC TX1 (Eth)_ourvlc/ourvlc-1.c:193-201 | the walk ends at the last packet |
| `VlcDevice.Device.constructor` | VLC TX1 (Eth)_ourvlc/ourvlc-1.c:335-349 | the device at start |
| `VlcDevice.Device.GetTxBuffer` | VLC TX1 (Eth)_ourvlc/ourvlc-1.c:145-162 | on the linked lists: one get step, without meeting an empty pool |
| `VlcDevice.Device.FillBuffer` | VLC TX1 (Eth)_ourvlc/ourvlc-1.c:213-215 | the packet filled outside both lists |
| `VlcDevice.Device.EnqueuePkt` | VLC TX1 (Eth)_ourvlc/ourvlc-1.c:179-205 | one enqueue step: the packet behind the last one |
| `VlcDevice.Device.DequeuePkt` | VLC TX1 (Eth)_ourvlc/ourvlc-1.c:351-366 | one dequeue step, null on an empty queue |
| `VlcDevice.Device.EncodePkt` | VLC TX1 (Eth)_ourvlc/ourvlc-1.c:394-395 | the parity written into a dequeued packet leaves both lists alone |
| `VlcDevice.Device.ReleaseBuffer` | VLC TX1 (Eth)_ourvlc/ourvlc-1.c:164-177 | one release step with its wake-up |
| `VlcDevice.Device.VlcTx` | VLC TX1 (Eth)_ourvlc/ourvlc-1.c:207-221 | a packet offered to a running queue is accepted behind all earlier ones |
| `VlcDevice.Device.TimerTurn` | VLC TX1 (Eth)_ourvlc/ourvlc-1.c:416-420 | the oldest packet leaves and its buffer returns to the front of the pool |
| `ReceiveWindow.FirstGap` | node (rf)_node1/main.c:289-291 | where the inner loop stops |
| `ReceiveWindow.GapBelowLast` | node (rf)_node1/main.c:289-291 | it stops at most one past the largest number and inside the array, while some number of the last window of the array has not arrived |
| `ReceiveWindow.LoopLeavesNow` | node (rf)_node1/main.c:289-291 | at one arrival the loop leaves the array if and only if no number from rcv_seq on is missing |
| `ReceiveWindow.LoopLeavesArray` | node (rf)_node1/main.c:289-295 | once all of them have, the loop runs out of the array now or at the next arrival, whatever that is |
| `ReceiveWindow.ArrayExample` | node (rf)_node1/main.c:289-295 | the numbers 400000 to 499999 in order: after the last one the next arrival, whatever it is, drives the loop out of the array |
| `ReceiveWindow.ProcessKeeps` | node (rf)_node1/main.c:273-295 | one arrival keeps marks, largest number, window width and the acknowledged range right |
| `ReceiveWindow.Run` | node (rf)_node1/main.c:273-295 | after every history in one epoch: marks from rcv_seq on exactly the received numbers, last_rcv_seq the largest, 0 <= last - rcv + 1 <= 100000 |
| `ReceiveWindow.Monotone` | node (rf)_node1/main.c:273-295 | rcv_seq and last_rcv_seq never decrease |
| `ReceiveWindow.AckNumber` | node (rf)_node1/main.c:280-295 | rcv_seq is the least missing number at or above the floor last - 99999, except that right after a slide it may rest on a received floor |
| `ReceiveWindow.AckIsLeastMissing` | node (rf)_node1/main.c:280-295 | it is the least missing number of all if and only if every number below the floor of the history has arrived |
| `ReceiveWindow.SlideSkips` | node (rf)_node1/main.c:293-295 | the guard of the slide: when it holds a missing number falls below the window, otherwise the number points at a missing one |
| `ReceiveWindow.SlideExample` | node (rf)_node1/main.c:293-295 | after the single packet 100000 the number is 1 while 0 is missing |
| `ReceiveWindow.RestsOnReceived` | node (rf)_node1/main.c:293-295 | after 1 and 100000 the number is 1, which has arrived |
| `ReceiveWindow.NoSlideLeastMissing` | node (rf)_node1/main.c:280-295 | without slides it is the least missing number and every mark is exact |
| `ReceiveWindow.OrderFree` | node (rf)_node1/main.c:273-295 | without slides the whole window depends only on which numbers arrived |
| `ReceiveWindow.SettledOrderFree` | node (rf)_node1/main.c:273-295 | with slides too, everything a report shows depends only on which numbers arrived, once the number points at a missing cell |
| `ReceiveWindow.UnslidOrderFree` | node (rf)_node1/main.c:273-295 | in particular whenever the last arrival does not take the branch that slides |
| `ReceiveWindow.NarrowNeverSlides` | node (rf)_node1/main.c:293-295 | numbers below 100000 never slide the window |
| `ReceiveWindow.NodeStatus.constructor` | node (rf)_node1/node.c:3-14 | the initial window |
| `ReceiveWindow.NodeStatus.ProcessData` | node (rf)_node1/main.c:273-295 | the loop body on the array, ending inside it |
| `StatusReport.PackByte` | node (rf)_node1/main.c:404-421 | one byte of the pattern: first bit in the top position, zeros past the end |
| `StatusReport.PackPattern` | node (rf)_node1/main.c:398-423 | the packed pattern in the buffer, the rest of the buffer untouched |
| `StatusReport.WriteReport` | node (rf)_node1/status_report_packet.c:17-62 | the whole report, field by field |
| `StatusReport.ConvertToString` | node (rf)_node1/status_report_packet.c:17-62 | the report of a packet structure in its 1000-byte buffer |
| `StatusReport.SendReport` | node (rf)_node1/main.c:386-432 | the report of the window behind the Ethernet header, with transmitters counted from 1 and their qualities |
| `StatusReport.UnpackByte` | gateway (eth)_gateway/status_report_packet.c:37-47 | the bits of one byte, down to the last one wanted |
| `StatusReport.GenerateFromString` | gateway (eth)_gateway/status_report_packet.c:17-60 | the parser gives the meaning of any bytes as long as they say, negative lengths included |
| `StatusReport.IntRoundTrip` | gateway (eth)_gateway/status_report_packet.c:24-29 | a C int survives its four bytes, negative or not |
| `StatusReport.RoundTrip` | gateway (eth)_gateway/status_report_packet.c:17-60 | parsing a written report gives back id, number, length, every bit and every entry |
| `StatusReport.ReportExact` | node (rf)_node1/main.c:386-432 | after any arrival history the gateway reads the acknowledgement number and length of the window, bit k is 1 exactly when number ACK + k was received, and link entry i is transmitter i + 1 with its quality |
| `PacketQueue.Queue.constructor` | gateway (eth)_gateway/packet_queue.c:3-17 | an empty queue; a limit of zero or less becomes 65535 |
| `PacketQueue.Push` | gateway (eth)_gateway/packet_queue.c:28-50 | appends, or refuses a full queue or a missing argument and changes nothing |
| `PacketQueue.Pop` | gateway (eth)_gateway/packet_queue.c:52-61 | takes the oldest, null when empty |
| `PacketQueue.IsEmpty` | gateway (eth)_gateway/packet_queue.c:63-72 | empty, with a missing queue counting as not empty |
| `RfPipeline.StepKeeps` | gateway (eth)_gateway/main.c:306-326 | the invariant is kept by every thread iteration |
| `RfPipeline.MoveRfKeeps` | gateway (eth)_gateway/main.c:309-323 | the push into the bucket's queue always finds room |
| `RfPipeline.Run` | gateway (eth)_gateway/main.c:306-326 | the invariant after every run: gn equals the queue size, r the RF queue plus what was ever dropped at it, tbf_queue_length the bucket's queue plus the refused packets, 0 <= n_token <= BURST |
| `RfPipeline.InOrder` | gateway (eth)_gateway/main.c:543-612 | per node, packets reaching the radio are an in-order subsequence of those generated, each used once, and every packet is accounted for |
| `RfPipeline.GeneratedExactly` | gateway (eth)_gateway/main.c:575-593 | from the actions alone: node i's packets are exactly the payloads offered while its queue had room, in order, with the numbers 0, 1, 2, ... modulo MAX_SEQ_NUMBER |
| `RfPipeline.NumbersIncrease` | gateway (eth)_gateway/main.c:583-584 | packets of a node carry the numbers 0, 1, 2, ... modulo MAX_SEQ_NUMBER, so within one epoch those reaching the radio are increasing and none comes twice |
| `RfPipeline.ResultsCounted` | gateway (eth)_gateway/main.c:552-559 | transmissions delivered and failed are those the radio took and refused |
| `RfPipeline.DivertedCounted` | gateway (eth)_gateway/main.c:693-719 | packets dropped and sent to the light link are those the schedule steps say |
| `RfPipeline.Lossless` | gateway (eth)_gateway/main.c:680-705 | the path is one exact FIFO if and only if no packet was dropped or sent to the light link |
| `RfPipeline.TokenBound` | gateway (eth)_gateway/main.c:528-560 | in any segment transmissions <= tokens at hand + ticks <= BURST + ticks |
| `RfPipeline.TokensExact` | gateway (eth)_gateway/main.c:528-560 | tokens are spent by successful transmissions alone, one each, and gained by ticks that find room alone |
| `RfPipeline.TicksFill` | gateway (eth)_gateway/main.c:528-538 | ticks alone fill the bucket one by one up to BURST and change nothing else |
| `RfPipeline.StallExact` | gateway (eth)_gateway/main.c:306-326 | the radio gets nothing in any run from a state if and only if tbf_queue_length is LIMIT with an empty queue |
| `RfPipeline.StallsForGood` | gateway (eth)_gateway/main.c:306-326 | such a state is never left |
| `RfPipeline.RefusalsStall` | gateway (eth)_gateway/main.c:543-560 | at most LIMIT transmissions ever fail, and that many lead to it: a failed one keeps its place in tbf_queue_length |
| `RfPipeline.OneRefusal` | gateway (eth)_gateway/main.c:543-560 | from the start, one packet refused by the radio is enough |
| `RfPipeline.RoundSends` | gateway (eth)_gateway/main.c:306-326 | from every other state one turn of each thread hands a packet to the radio |
| `Gateway.RfPath.GeneratePacket` | gateway (eth)_gateway/main.c:575-596 | generate_packet on linked queues is the generate step |
| `Gateway.RfPath.SchedulePacket` | gateway (eth)_gateway/main.c:680-705 | schedule_packet is the schedule step |
| `Gateway.RfPath.TransmitRf` | gateway (eth)_gateway/main.c:306-326 | transmit_rf is the move step |
| `Gateway.RfPath.TbfTransmit` | gateway (eth)_gateway/main.c:543-560 | tbf_transmit is the transmit step |
| `Gateway.RfPath.RefillToken` | gateway (eth)_gateway/main.c:528-538 | add_token is the token step |
| `Gateway.RfPath.Execute` | gateway (eth)_gateway/main.c:793-801 | any interleaving of iterations takes the linked queues where the step system goes |
| `Gateway.Setup` | gateway (eth)_gateway/main.c:766-776 | the queues main sets up are a start state |

## Left out

- Erasures, caller-supplied syndromes and the correction buffer of the decoder: the drivers pass none; decoding with len = 0 is out of contract as well.
- Any claim about received words farther than nroots/2 from every codeword, beyond the return code and untouched data: the decoder may return 0 or a wrong codeword there.
- RsControl.InitRs: field generation by gffunc instead of a polynomial, the list of shared control structures and allocation failure are not modelled; prim must be coprime to nn, since otherwise the search for iprim has no end.
- Int overflow in the codec: sums and products of indices fit a C int for symbol sizes up to 15 bits; the model uses unbounded integers.
- PhyDriver.WritePacket: packets of more than one block are not modelled, because only one block's parity is sent and an exact multiple of the block size gives a zero-length last block.
- Link.PacketsAcrossLink: the trailing-byte count is a parameter of the emitter, since the transmitter program is built with SEQ_NUMBER_LENGTH 24 and the receiver with 4; how the larger count moves the read index past the driver's packets belongs to the transmit-side ring.
- The transmit-side ring between driver and PRU, and resets of the emitter to the preamble while idle: the two sides disagree on the packet size as built.
- TxPru.PacketSent: the counter r18, which PACKET_END overwrites while sending the gap, is kept at its value, since BACK_TO_PREAMBLE resets it before it is read.
- EndToEnd.SendAndReceive: the length field must arrive intact, because the receiver compares it before any correction.
- VlcDevice.Device.ReleaseBuffer: the wake-up test after the unlock is part of the same step; `TxPoolSplit` has the two apart.
- VlcDevice.SetupPool: allocation failure is the number of buffers it is asked for; an empty pool with a started queue is excluded at the start.
- ReceiveWindow.NodeStatus.ProcessData: one epoch, until all of the last 100000 numbers of the array have arrived; wrap-around is not handled by the node, and past that point the code reads outside its array.
- StatusReport.SendReport: the report must fit the buffer; a window of more than about eight thousand numbers does not fit the 1024 bytes of the node's buffer. Link quality is an integer parameter.
- Gateway.RfPath.SchedulePacket: the scheduler's choice is a parameter, since its result is overwritten by a test setting; the state table of packets, unsched_seq and the light-link queue are not modelled.
- Gateway.RfPath.GeneratePacket: one packet per iteration and node, as configured; payload and radio result are parameters.
- PacketQueue.Pop: a missing queue is excluded, since the code would read through the null pointer.
- The gateway's handling of acknowledgements and timeouts, whose thread is not started.
- Sockets, addresses, ioctl, procfs, module loading, delays, device trees and the second codec in rs.c.
