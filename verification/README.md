# Verified model of the VFS495 fingerprint stack

A Dafny model of the parts of vfs495-linux whose behaviour is decided by the code itself, with proofs of
what they keep. `dafny verify dfyconfig.toml` checks everything.

| files | what they model |
|---|---|
| Bridge, BridgeRuns, BridgeProcess | the event-driven bridge: D-Bus handlers, worker threads, capture processes and the file cap.pgm as a transition system under any interleaving, and the same as a mutable object |
| Cbc, Records, KeyDerivation, Pkcs1, Handshake | the SSLv3 client: record encryption with its chained IV and sequence number, key derivation, PKCS#1 padding, flights and the Finished transcript |
| Descramble, Scanner, Driver | the native driver: column table, line decoding, magic-byte scan, row list, activation protocol |
| Lines, Statistics, Segment, Resample | swipe reconstruction: record stream, gap bridging and longest run, resampling by displacement |
| Text, Handoff | the image from harvested dump through PGM to the socket frame |
| Base | bytes, fixed-width fields, hash functions |

## How to read it

- **Bridge.** A step is one shared access. `state["gen"] += 1` is one step because only the main thread
  writes `gen`. The gate on line 54 of bridge.py is two steps, as it is two dictionary reads. With that
  granularity a stale delivery, of the scan of a withdrawn request, is possible in two windows: line 83
  falls between the two reads of the gate (`StaleDeliveryExists`), or the withdrawal of line 81 falls
  between the gate and the delivery (`LateStaleDeliveryExists`); in both runs the scan goes to the next
  request. `DeliveryIsGated` shows that there is no third window. `DeliveryFreshness` says exactly which
  deliveries are fresh: those that still find the generation their own and `wanted` true. So the test of
  line 54 is the right one, but would have to be made together with the delivery. Workers are kept in a
  list and any number could be live; that at most one is, is proved. System calls may fail at every point
  where the program has a handler or a `finally`. A capture process reports success only after it wrote its
  output (capture.py, lines 31-33). `PollBusy` is `Popen.poll` answering None for an ended process because
  the worker, in `wait`, holds its lock.
- **Driver.** `Device.Serve` plays any order of calls that libfprint and the capture machine may make. What
  the unwritten reading state puts into the buffer is the parameter of `CallRead`.
- **Crypto.** MD5 and SHA-1 are arbitrary functions of fixed output size, the block cipher is any pair of
  functions inverse on 16-byte blocks. The receiver, the PKCS#1 decoder, the record parser and
  `PeerAccepts` are specifications; the repository only has the sender. `StandardMac`, `Expanded` and
  `ExpectedFinished` are written after RFC 6101, apart from the sender's functions. The peer is what the protocol
  notes describe, not the sensor firmware, which answers with an alert.
- **Randomness** (client random, premaster, padding bytes), the sensor's reply, harvested memory and
  captured buffers are parameters. The padding stream is a finite list with enough non-zero bytes, where
  the program draws from an endless source.
- **Reals** stand for floating point in the reconstruction. Novelty is non-negative because the program
  clips it.

## Where code and documentation differ

- docs/SSL_PROTOCOL.md:42-43 lists the record length in the MAC; the code (tools/ssl_session.py:71-76) and
  the same document's status section leave it out. The model follows the code.
- docs/SSL_PROTOCOL.md:36-37 writes the Finished tag as 'CLNT'; the code hashes its four bytes in the other
  order, as the document's status section says.
- docs/SSL_PROTOCOL.md:26 has the RSA result byte-reversed on output; the code sends it big-endian.
- `encrypt_record` advances the sequence number and the IV before it packs the length, so a record that is
  too long is not sent but still puts the sender out of step (`SslState.EncryptRecord`).
- `dev_close` frees the kept rows without resetting `lines_recorded` (driver/vfs495.c:258-259), so a device
  closed with rows pending keeps a counter that is too high (`Device.Close` has the exact condition,
  `Device.ClosedWithRow` such a device).
- Section 7.2.1 of RFC 8017 wants at least eight padding bytes; the code does not check (`StandardBlock` has
  the exact condition, `ShortPaddingExists` a failing length). A 2048-bit modulus leaves enough room.

## Model

| member | source | states |
|---|---|---|
| BridgeRuns.CapturingIsALock | packaging/vfs495-fprint/usr/lib/vfs495-fprint/bridge.py:72-77 | in every reachable state at most one worker is live, and `capturing` is set exactly while one is live or the main thread is about to start one |
| BridgeRuns.DeliveryIsGated | packaging/vfs495-fprint/usr/lib/vfs495-fprint/bridge.py:47-83 | every delivery has a spawn, a first read and a passed gate of the same worker and attempt before it; its request had been withdrawn since the spawn if and only if a cancellation fell between the two reads of the gate or a withdrawal between gate and delivery, if and only if the two conditions of line 54 no longer hold at the delivery |
| BridgeRuns.DeliveryFreshness | packaging/vfs495-fprint/usr/lib/vfs495-fprint/bridge.py:54-63 | no withdrawal since the spawn if and only if, at the delivery, `gen` is the worker's own and `wanted` is true; equivalently if and only if `gen` is its own and line 83 is not still to come |
| BridgeRuns.GuardIsExact | packaging/vfs495-fprint/usr/lib/vfs495-fprint/bridge.py:54 | at any point of a run and for any live worker, both conditions of line 54 read together say exactly that its request has not been withdrawn since its spawn |
| BridgeRuns.GateDetectsWithdrawal | packaging/vfs495-fprint/usr/lib/vfs495-fprint/bridge.py:54 | at a passed gate, the request has been withdrawn since the spawn if and only if `gen` is not the worker's own at the second read |
| BridgeRuns.StaleDeliveryExists | packaging/vfs495-fprint/usr/lib/vfs495-fprint/bridge.py:54 | a concrete run of 28 steps in which withdrawal and new request fall between the two reads, and the old scan is delivered to the new request |
| BridgeRuns.LateStaleDeliveryExists | packaging/vfs495-fprint/usr/lib/vfs495-fprint/bridge.py:54-63 | a concrete run of 28 steps in which both reads find the request standing, withdrawal and new request fall between gate and delivery, and the old scan is delivered to the new request |
| BridgeRuns.GenMovesByCancel | packaging/vfs495-fprint/usr/lib/vfs495-fprint/bridge.py:75-83 | while a worker stays live, the generation moves only by a cancellation |
| BridgeRuns.DeliversItsOwnScan | packaging/vfs495-fprint/usr/lib/vfs495-fprint/bridge.py:53-63 | the delivered scan was written by the capture process of the delivering worker's current attempt, has at least 80 rows, and is what last.pgm holds |
| BridgeRuns.RemovesOnlyItsOwnFile | packaging/vfs495-fprint/usr/lib/vfs495-fprint/bridge.py:57-70 | a worker moves or deletes only a cap.pgm of its own, and file and `proc` are gone before `capturing` drops |
| BridgeRuns.CancelSignalsCapture | packaging/vfs495-fprint/usr/lib/vfs495-fprint/bridge.py:35-45 | a cancellation signals a process if and only if the last worker had recorded it when `proc` was read and, of the same attempt, it still runs when it is polled; then it is that process |
| BridgeRuns.PollSignalsRunning | packaging/vfs495-fprint/usr/lib/vfs495-fprint/bridge.py:42-43 | the poll of a recorded process goes on to line 43 if and only if that process runs |
| BridgeRuns.SignalsComeFromPolls | packaging/vfs495-fprint/usr/lib/vfs495-fprint/bridge.py:42-45 | line 43 is reached only for the polled process, running or ended while its worker still waits for it; line 45 follows line 43 and nothing else |
| BridgeRuns.CancelMissesUnrecorded | packaging/vfs495-fprint/usr/lib/vfs495-fprint/bridge.py:33-45 | a concrete run in which a cancellation between lines 33 and 35 signals nothing and leaves the capture process running |
| BridgeRuns.SignalsHitOnlyStaleWorkers | packaging/vfs495-fprint/usr/lib/vfs495-fprint/bridge.py:40-45 | whenever line 43 or 45 is reached, the target is the last worker, every worker's generation is out of date, and only the last one can have a process |
| BridgeRuns.QuietMeansClean | packaging/vfs495-fprint/usr/lib/vfs495-fprint/bridge.py:67-70 | with the main thread idle and no live worker, `proc` is empty, `capturing` is false, there is no cap.pgm and no process |
| BridgeRuns.TwoCapturesAtMost | packaging/vfs495-fprint/usr/lib/vfs495-fprint/bridge.py:52-53 | a worker starts at most two captures in any run |
| BridgeRuns.OneCaptureAfterCancel | packaging/vfs495-fprint/usr/lib/vfs495-fprint/bridge.py:52-55 | once its generation has been passed, a worker starts at most one more capture |
| BridgeRuns.OneDeliveryAtMost | packaging/vfs495-fprint/usr/lib/vfs495-fprint/bridge.py:62-65 | a worker delivers at most once in any run |
| BridgeRuns.DeliveriesWithinSpawns | packaging/vfs495-fprint/usr/lib/vfs495-fprint/bridge.py:72-77 | up to any point of a run there are no more deliveries than spawned workers |
| BridgeRuns.WorkerTerminates | packaging/vfs495-fprint/usr/lib/vfs495-fprint/bridge.py:47-70 | a worker and its capture processes take at most 23 steps, whatever the others do |
| BridgeRuns.WorkerNeverStuck | packaging/vfs495-fprint/usr/lib/vfs495-fprint/bridge.py:36 | a live worker can take its next line or waits for a process that can end |
| Bridge.RunKeepsInv | packaging/vfs495-fprint/usr/lib/vfs495-fprint/bridge.py:18 | the invariant that ties flags, generations, worker records, `proc` and the file together holds in every state of every run |
| Bridge.StepKeepsInv | packaging/vfs495-fprint/usr/lib/vfs495-fprint/bridge.py:31-83 | each shared access of any actor keeps that invariant |
| BridgeProcess.Process.Run | packaging/vfs495-fprint/usr/lib/vfs495-fprint/bridge.py:31-83 | the mutable bridge under any schedule takes exactly the enabled picks, in order, and ends where they lead; its history is a run, so every result above applies to it |
| Bridge.RunIsPlayed | packaging/vfs495-fprint/usr/lib/vfs495-fprint/bridge.py:31-83 | every run is what its own steps as a schedule play, so `Run` reaches every interleaving |
| BridgeProcess.Process.Dispatch | packaging/vfs495-fprint/usr/lib/vfs495-fprint/bridge.py:85-90 | a started verification, a pending scan or finger-needed turning true reach `on_needed`, finger-needed turning false reaches `on_not_needed`, any other signal reaches nothing; no other state changes |
| BridgeProcess.Process.RunCapture | packaging/vfs495-fprint/usr/lib/vfs495-fprint/bridge.py:31-38 | run through, it leaves the result of its own process at the gate, with that process's output as the file |
| BridgeProcess.Process.HandleCapture | packaging/vfs495-fprint/usr/lib/vfs495-fprint/bridge.py:54-66 | run through, a withdrawn or outdated worker gives up, a failed or short capture is retried once, a tall one is sent |
| BridgeProcess.Process.CaptureAndDeliver | packaging/vfs495-fprint/usr/lib/vfs495-fprint/bridge.py:47-70 | run through, a current worker sends exactly the scan of the first of two rounds that does not fail, if that is tall enough, an outdated one nothing, and either way flag, file and process slot are clear |
| BridgeProcess.Process.OnNeeded | packaging/vfs495-fprint/usr/lib/vfs495-fprint/bridge.py:72-77 | run through, a request while capturing only sets `wanted`; otherwise it reserves, bumps the generation and starts one worker with it |
| BridgeProcess.Process.OnNotNeeded | packaging/vfs495-fprint/usr/lib/vfs495-fprint/bridge.py:79-83 | run through, a withdrawal takes back a standing request and, while capturing, leaves every worker out of date; it signals the recorded process exactly when that runs, and reports which |
| Records.SslState.constructor | tools/ssl_session.py:61-69 | the six parts of the 136-byte key block, put together in order, are the key block; both counters start at 0 |
| Records.SslState.EncryptRecord | tools/ssl_session.py:78-87 | a record is framed exactly when the data has at most 65499 bytes; sequence number and IV advance even when it is not; a sequence number over 64 bits changes nothing |
| Records.SslState.EncryptRecords | tools/ssl_session.py:78-87 | any list of calls, one after the other, sends exactly `SendAll` of the list, the function of the stream results below, or fails with its error; a failing call leaves the state the program leaves, moved on if the record was too long; a list that is sent leaves the sender of `ChainIsOneCbc` |
| Records.FitsExactly | tools/ssl_session.py:81-87 | the ciphertext fits the 16-bit length exactly for data of at most 65499 bytes |
| Records.SendsExactlyWhenAllFit | tools/ssl_session.py:78-87 | a list of records is sent exactly when every one fits and the sequence numbers stay in 64 bits |
| Records.RecordStreamRoundTrip | tools/ssl_session.py:71-87 | a peer with the same keys, IV and sequence number parses, decrypts, unpads and MAC-checks the bytes of any sent list back to that list (section 5.2.3 of RFC 6101, with a MAC that leaves out the length) |
| Records.RecordOnTheWire | tools/ssl_session.py:71-87 | a record byte by byte: type, 3, 0, big-endian length; decrypted, the data, the 20-byte MAC written out as in section 5.2.3.1 of RFC 6101 without the length, and 1 to 16 padding bytes that all hold their number less one |
| Records.MacIsStandard | tools/ssl_session.py:71-76 | the MAC equals that separate definition, for every key, sequence number and record |
| Records.MacBindsKey | tools/ssl_session.py:71-76 | two different keys of one length with the same MAC of a record give a SHA-1 collision |
| Records.MacBindsRecord | tools/ssl_session.py:71-76 | two different (sequence number, type, data) triples with the same MAC give a SHA-1 collision, so leaving the length out of the MAC loses nothing |
| Records.RecordStreamInjective | tools/ssl_session.py:78-87 | two lists of records never have the same bytes |
| Records.ChainIsOneCbc | tools/ssl_session.py:84-86 | the ciphertexts of any run of records are one CBC encryption, under the first IV, of the padded bodies in a row; the stored IV is the last block of that |
| Cbc.EncryptChains | tools/ssl_session.py:84-86 | encrypting on from the last ciphertext block equals encrypting in one go |
| Cbc.EncryptBlock | tools/ssl_session.py:84-85 | block k of the recursive cipher is the textbook one: the encryption of plain block k xor ciphertext block k-1 |
| Cbc.DecryptInvertsEncrypt | docs/SSL_PROTOCOL.md:44-45 | decrypting a chained message gives it back, for any invertible block cipher |
| Cbc.XorByteBits | tools/ssl_session.py:84-85 | a bit of the exclusive or is set exactly where the two bytes differ |
| Cbc.XorCancels | tools/ssl_session.py:84-85 | xor with the same bytes twice is the identity |
| KeyDerivation.ComputePrf | tools/ssl_session.py:27-33 | the loop returns exactly nbytes bytes, byte k being byte k % 16 of block k / 16, and fails exactly beyond 3056 bytes |
| KeyDerivation.PrfIsPrefix | tools/ssl_session.py:27-33 | a shorter request is a prefix of a longer one |
| KeyDerivation.MasterSecretBlocks | docs/SSL_PROTOCOL.md:29-31 | 48 bytes are the three digests with the salts A, BB and CCC |
| KeyDerivation.PrfIsStandard | tools/ssl_session.py:27-33 | up to nine blocks, the derivation equals section 6.2.2 of RFC 6101 with its salts A, BB, CCC and so on written out, seeded by the two randoms in order |
| Pkcs1.PaddedBlock | tools/ssl_session.py:39-45 | the padding is the first k-3-len(msg) non-zero bytes of the random stream, in order |
| Pkcs1.BlockRoundTrip | tools/ssl_session.py:40-45 | the block has k bytes exactly when len(msg)+3 <= k, and its first zero byte after the second recovers the message (section 7.2.1 of RFC 8017) |
| Pkcs1.StandardBlock | tools/ssl_session.py:39-45 | a decoder as in section 7.2.2 of RFC 8017, which wants eight padding bytes, accepts the block if and only if len(msg)+11 <= k |
| Pkcs1.ShortPaddingExists | tools/ssl_session.py:39-45 | a 48-byte message under a 58-byte modulus: seven padding bytes, so a block that fits and is readable but that the standard refuses |
| Pkcs1.BlockBelowModulus | tools/ssl_session.py:37-46 | a block that fits is below any modulus of its length whose top byte is not zero |
| Pkcs1.PowerLaws | tools/ssl_session.py:46 | the power function is 1 at 0, the base at 1, and turns sums of exponents into products |
| Pkcs1.RsaEncryptReversed | tools/ssl_session.py:36-48 | fails exactly for a zero modulus; the result has the modulus length and encodes the power modulo the little-endian modulus |
| Handshake.TunnelRoundTrip | tools/ssl_session.py:103-104 | a tunnelled payload is read back exactly when it fits the 16-bit length |
| Handshake.FlightRoundTrip | tools/ssl_session.py:141-167 | a flight is cut back into exactly its records |
| Handshake.HelloKeepsFrame | tools/ssl_session.py:132-136 | patching the random leaves the template one well-formed record, and the peer reads the new random out of it |
| Handshake.FinishedRecord | tools/ssl_session.py:151-161 | the Finished record is the first encrypted record under the derived keys, 69 bytes |
| Handshake.KeyExchange | tools/ssl_session.py:138-141 | the ClientKeyExchange holds the RSA image of the padded premaster; fails exactly for a zero or too long modulus |
| Handshake.OpenSession | tools/ssl_session.py:131-167 | for a good template and any proper ServerHello, a peer that re-derives keys and transcript from the bytes it sees, with key derivation, MAC and Finished hashes written out as in RFC 6101, accepts the Finished message; the second flight is 3 + (k+9) + 6 + 69 bytes for a k-byte modulus, so 265+6+69 for 256; the failures are exactly a zero modulus and lengths that do not fit |
| Handshake.FinishedBindsTranscript | tools/ssl_session.py:51-57 | two different transcripts with the same Finished value give an MD5 collision and a SHA-1 collision |
| Handshake.FinishedBindsMaster | tools/ssl_session.py:51-57 | two different master secrets of one length with the same Finished value over the same messages give an MD5 collision and a SHA-1 collision |
| Handshake.FinishedIsStandard | tools/ssl_session.py:155-159 | the Finished message equals section 5.6.9 of RFC 6101 written out, pads 48 and 40, MD5 before SHA-1, the client tag as bytes 54 4e 4c 43 |
| Handshake.DerivesSameKeys | tools/ssl_session.py:150-152 | master secret and key block are those expansions, with the randoms swapped for the key block |
| Handshake.TunnelBytes | tools/ssl_session.py:103-104 | the tunnel header is 0x11 and the length, low byte first |
| Handshake.FlightsRead | tools/ssl_session.py:156-167 | the peer extracts the ClientHello, ServerHello, ClientKeyExchange and Finished payloads from the tunnelled bytes |
| Handshake.ReadersAccept | tools/ssl_session.py:156-161 | a Finished record over the concatenated messages is accepted by whoever read those messages |
| Descramble.TableIsBijection | driver/vfs495_descramble.inc:4-27 | the table and its inverse are permutations of 0..263: every output column is written exactly once |
| Descramble.Table | driver/vfs495_descramble.inc:4-27 | the table's 264 literal entries follow the closed form |
| Descramble.DescrambleInverts | driver/vfs495.c:60-63 | gathering a descrambled line through the table gives the payload back |
| Descramble.MainImageIsReversed | driver/vfs495.c:148-149 | the 200 kept columns are the first 200 payload bytes backwards |
| Descramble.DecodeLine | driver/vfs495.c:44-66 | accepts exactly lines of 272 bytes in 8-bit mode; then the whole output is the descrambled payload whatever was in the buffer, else the buffer is untouched |
| Scanner.AcceptedLinesAreDisjoint | driver/vfs495.c:142-158 | accepted lines have a header, lie within the buffer, come in order and never overlap |
| Scanner.EveryHeaderIsCovered | driver/vfs495.c:142-158 | anything that passes the header test is accepted or starts inside an accepted line |
| Scanner.ScanResynchronises | driver/vfs495.c:135-159 | for any interleaving of frames and junk, the scan accepts exactly the frames if and only if no junk position passes the header test |
| Scanner.ScanByBytes | driver/vfs495.c:135-159 | the scan of every buffer, by its bytes alone: which five tests make a line, which 200 bytes are kept and in which order, and where it goes on |
| Scanner.ScanOfOneLine | driver/vfs495.c:44-66 | a buffer of 272 bytes with the fixed bytes of a header: one row exactly for 01 or fe and the 8-bit mode, with its pixels reversed |
| Scanner.FramedBufferScans | driver/vfs495.c:135-159 | then the rows are those of the frames, in order |
| Driver.Device.ProcessCapture | driver/vfs495.c:135-159 | the list grows by exactly the scanned rows of the buffer, in stream order when read backwards; the counter stays its length, and the ledger of accepted lines stays balanced |
| Driver.Device.SubmitImage | driver/vfs495.c:110-127 | under 200 rows nothing changes; otherwise all pending rows are handed over oldest first, and list and counter are reset; the ledger stays balanced |
| Driver.Device.Serve | driver/vfs495.c:110-286 | over any legal order of activations, deactivations, states, reads and completions, errors included: accepted lines are the scans of the processed buffers, pending rows and submissions are those of the captures one by one, every accepted line is in one image or pending, the notices are those of the activation protocol, and every deactivation is answered once or still owed |
| Driver.Device.Close | driver/vfs495.c:252-263 | closing frees rows and buffer but keeps both counters; the device stays consistent if and only if no rows are pending and no bytes are buffered, the latter being so whenever no capture runs |
| Driver.Device.ClosedWithRow | driver/vfs495.c:252-263 | a concrete device that captures one blank line, completes and is closed: the list is empty and `lines_recorded` is 1 |
| Driver.Device.ActivateRunState | driver/vfs495.c:161-217 | the first state reports the activation, the last one scans a buffer that is there and not empty and submits; only that one touches the rows |
| Driver.Device.Capture | driver/vfs495.c:265-275 | one undisturbed activation is reported once, processes its bytes, submits, and leaves no buffer and no running loop |
| Driver.Device.ActivateComplete | driver/vfs495.c:219-233 | the buffer is dropped; a waiting deactivation gets the error, otherwise an error is a session error |
| Driver.CompletionIsReported | driver/vfs495.c:219-286 | over any legal sequence of calls, the end of a capture is reported with its error to the deactivation asked for while it ran; if none was, an error is a session error and success is silent |
| Driver.Device.Deactivate | driver/vfs495.c:277-286 | a running loop defers the answer, an idle device answers at once |
| Driver.LedgerBalances | driver/vfs495.c:110-159 | over any list of captured buffers, the submitted images and the pending rows together are all accepted lines, in order, once each; every image has at least 200 rows |
| Driver.PendingIsShort | driver/vfs495.c:115-119 | after each processed capture fewer than 200 rows are pending |
| Driver.DeactivationsAreAnswered | driver/vfs495.c:219-286 | over any legal sequence of calls every deactivation is answered exactly once |
| Lines.Load | tools/reconstruct.py:22-32 | the reader loop yields the whole records from the front of the file |
| Lines.TruncatedFileDecodes | tools/reconstruct.py:22-32 | from any byte-prefix of an encoded file, exactly the rows it wholly contains |
| Lines.WholeRowsIsExact | tools/reconstruct.py:25-31 | the number of rows read is the largest whose encoding fits the prefix |
| Lines.Harvester.Stop | runtime/harvest_lines.py:10-25 | after every hit the file encodes the previous plausible buffers as the memory has them one hit later, and `n` counts them |
| Lines.HarvestedLine | runtime/harvest_lines.py:10-25 | the line of a plausible hit, byte by byte: its buffer after the 8-byte header, as the memory has it one hit later |
| Lines.HarvestedCount | runtime/harvest_lines.py:17-23 | one line for every hit but the last whose width is in 1..4096 |
| Lines.EncodedBytes | runtime/harvest_lines.py:22 | a line is stored as its length, low byte first, and its bytes |
| Lines.HarvestedFileLoads | runtime/harvest_lines.py:10-25 | the reader gets back exactly the harvested rows, or those whole in a truncated file |
| Segment.BridgeGaps | tools/reconstruct.py:59-69 | the in-place loop turns on exactly the cells of gaps of at most `bridge` cells between on cells |
| Segment.GapsLeftAreLong | tools/reconstruct.py:59-69 | every gap left was a gap before and is longer than `bridge` |
| Segment.BridgingIsIdempotent | tools/reconstruct.py:59-69 | bridging again changes nothing |
| Segment.LongestRun | tools/reconstruct.py:70-80 | the leftmost of the longest on-runs, (0, 0) if nothing is on |
| Segment.LongestIsUnique | tools/reconstruct.py:70-80 | that description has one answer |
| Segment.BestSegment | tools/reconstruct.py:54-81 | the leftmost longest run of the gap-closed cells more than 35 percent of the way from median to maximum, widened by 20 within the swipe; the run is not empty exactly when the maximum exceeds the median, and then begins and ends above that level; an empty energy fails |
| Segment.ThresholdMarks | tools/reconstruct.py:56-57 | a cell is on if and only if 20 (energy - median) > 7 (maximum - median) |
| Segment.WindowHoldsRun | tools/reconstruct.py:81 | the window lies in 0..n, contains the run, and adds 20 rows per side unless the swipe ends |
| Segment.FoundIffAboveMedian | tools/reconstruct.py:56-57 | a run is found if and only if the maximal energy exceeds the median |
| Segment.RunEndsOnFinger | tools/reconstruct.py:57-80 | a found run begins and ends on rows whose energy is above that level |
| Statistics.SortPermutes | tools/reconstruct.py:56 | the median is taken of a permutation of the values |
| Statistics.MedianIsMiddle | tools/reconstruct.py:56 | of any sorted order of the values the median is the middle one, or halfway between the two middle ones |
| Statistics.MedianBetween | tools/reconstruct.py:56 | the median lies between any bounds of the values |
| Resample.ChosenMeetsTarget | tools/reconstruct.py:91-93 | each chosen row is the first at or past its target, by at most its own movement |
| Resample.ClipIsNoOp | tools/reconstruct.py:92 | in exact arithmetic the clip never acts |
| Resample.ChosenInOrder | tools/reconstruct.py:91-93 | chosen rows start at the first, never go back, and end at the total displacement |
| Resample.StepsAreUniform | tools/reconstruct.py:85-93 | consecutive rows are total/(m-1) apart, up to the largest single movement |
| Resample.RowCount | tools/reconstruct.py:88-90 | the row count is in 64..1200 |
| Resample.RowCountDivides | tools/reconstruct.py:88-90 | the divisor exists and is positive, and the row count is the whole number of times it goes into the total, cut to 64..1200 |
| Resample.StillSwipe | tools/reconstruct.py:84-90 | a swipe whose movements sum to less than 0.000001 is returned unchanged; any other has the row count asked for, or 64 to 1200 |
| Resample.PositiveKeepsAll | tools/reconstruct.py:89 | the divisor's list holds every positive movement as often as it occurs, and nothing else |
| Resample.ResampledTo | tools/reconstruct.py:91-93 | the same as the next for any row count from 2 on |
| Resample.ResampledSwipe | tools/reconstruct.py:84-93 | each row k of the m in the result is the first input row whose displacement reaches total k/(m-1), and the first is the first |
| Handoff.AssembledHarvester.Stop | packaging/vfs495-fprint/usr/lib/vfs495-fprint/harvest_assembled.py:8-21 | a plausible image replaces the dump by its two sizes and pixels; any other hit changes nothing |
| Handoff.ConvertsDump | packaging/vfs495-fprint/usr/lib/vfs495-fprint/capture.py:28-32 | a plausible dump is converted exactly when it has at least 8 pixels |
| Handoff.BridgeReadsPgm | packaging/vfs495-fprint/usr/lib/vfs495-fprint/bridge.py:22-25 | the bridge reads back width, height and pixels of a written PGM; extra pixels are cut, missing ones go unnoticed |
| Handoff.PgmBytes | packaging/vfs495-fprint/usr/lib/vfs495-fprint/capture.py:32-33 | the written header as bytes, width before height |
| Handoff.ConvertsAnyDump | packaging/vfs495-fprint/usr/lib/vfs495-fprint/capture.py:28-33 | a dump of any two sizes and any number of pixels: refused under 16 bytes, else converted, extra pixels cut |
| Handoff.OtherMagicRefused | packaging/vfs495-fprint/usr/lib/vfs495-fprint/match.py:45-47 | neither reader takes another second magic character than 5 |
| Handoff.OneLineHeader | packaging/vfs495-fprint/usr/lib/vfs495-fprint/match.py:48-53 | with all three header numbers on one line the matcher reads the image and the bridge refuses the file |
| Handoff.ReadPgm | packaging/vfs495-fprint/usr/lib/vfs495-fprint/match.py:45-54 | the token loop equals the recursive header reader |
| Handoff.MatchReadsCommentedPgm | packaging/vfs495-fprint/usr/lib/vfs495-fprint/match.py:45-54 | any comment lines after the magic and after the dimensions are ignored and the same image is read |
| Handoff.DumpReachesSocket | packaging/vfs495-fprint/usr/lib/vfs495-fprint/bridge.py:22-63 | from a plausible dump over the PGM file and the row test to the socket: something is sent if and only if the dump has at least 80 rows, and then the frame is the dump byte for byte |
| Handoff.ReadersAgree | packaging/vfs495-fprint/usr/lib/vfs495-fprint/match.py:45-54 | of any converted dump, the bridge and the matcher read the same width, height and pixels |
| Handoff.DumpBytes | packaging/vfs495-fprint/usr/lib/vfs495-fprint/harvest_assembled.py:16-21 | the dump byte by byte: width, then height, each in four bytes, lowest first, then the pixels |
| Handoff.PlausibleEdges | packaging/vfs495-fprint/usr/lib/vfs495-fprint/harvest_assembled.py:8-21 | which sizes are plausible, at the edges of the limits |
| Text.ParseIntForms | packaging/vfs495-fprint/usr/lib/vfs495-fprint/match.py:53 | `int` takes a sign and single underscores between digits, and nothing empty or dangling |
| Text.ParseIntInverts | packaging/vfs495-fprint/usr/lib/vfs495-fprint/capture.py:32 | a printed number is read back by `int` |

## Left out

- Any claim that a request is eventually served: a request that arrives while a cancelled worker unwinds is
  coalesced, and giving up leaves `wanted` true.
- What an earlier bridge process leaves behind: the model starts without a cap.pgm and without capture processes.
  A capture process runs in a session of its own (bridge.py, lines 33-34), so it may outlive a bridge and
  write the file while the next bridge runs. `DeliversItsOwnScan`, `RemovesOnlyItsOwnFile` and `QuietMeansClean`
  depend on its absence.
- That a cancellation frees the sensor at once, which is false: `CancelSignalsCapture` has the exact condition,
  `CancelMissesUnrecorded` a run in which nothing is signalled.
- The effect of signals on processes, and partial writes: a process may end at any time with any failing code.
- Failure of thread start and of makedirs (lines 48 and 77 of bridge.py), which are outside the `try`, and
  failure of unlink on a file that exists.
- BridgeProcess.Process.OnNeeded: covers the handler without interleaved worker steps; interleavings are covered by the runs.
- BridgeProcess.Process.RunCapture: covers the attempt without interleaved steps; interleavings are covered by the runs.
- BridgeProcess.Process.HandleCapture: covers the attempt without interleaved steps; interleavings are covered by the runs.
- BridgeProcess.Process.CaptureAndDeliver: covers the worker without interleaved steps; interleavings are covered by the runs.
- BridgeProcess.Process.OnNotNeeded: covers the handler without interleaved worker steps; interleavings are covered by the runs.
- Driver.Device.ProcessCapture: does not model overflow of the `gint` counter or of `i + 272` near the end of the address range.
- Driver.Device.Capture: covers an activation that no deactivation interrupts and that ends without error; `Serve` has the other orders.
- What a device whose counter went wrong over `dev_close` hands to libfprint afterwards.
- The driver's unwritten states (patch upload, session, data read) and `fpi_assemble_lines`, which is not part of this repository.
- Lines.Harvester.Stop: does not model a faulting memory read, which leaves the script's state as it was.
- Handoff.AssembledHarvester.Stop: does not model a faulting memory read, which the script ignores.
- Handoff.ReadPgm: requires a header with three tokens, because on a truncated one the loop never ends.
- The conversion of rows to floating point, ragged row lengths, and the numeric filters (preprocess, novelty, finger_energy, normalize).
- Resample.ResampledSwipe: covers the row count the program computes, the only one it uses; negative explicit row counts are not modelled.
- Cryptographic strength, the inside of MD5, SHA-1 and AES, and RSA decryption.
- USB, D-Bus, sockets, gdb and libfprint beyond their inputs and outputs; command lines, logging, enroll and score reporting.
