# SecurePipe in Dafny

SecurePipe carries sensor readings from an Arduino node over a UART to an ESP32, which numbers, seals and
frames them and sends them over TCP to a gateway. The gateway cuts each connection's bytes into frames,
authenticates them, checks the device against a whitelist, rejects replays with one guard shared by all
connections, and publishes what is left. A simulator stands in for the ESP32.

This project models the protocol logic of the gateway, the two sketches and the simulator, and proves what
it is for:

* whatever peers send, over any number of connections, in any interleaving and at any clock readings, every
  published reading was sealed by a key holder for an allowed device, and no device's number is published
  twice (the sentinel zero excepted);
* the guard's bounded state answers exactly the question about its unbounded history, and the exact
  conditions under which its protection ends;
* the CRC loops compute a polynomial remainder, and which transmission errors it detects at every length: all
  bursts of at most sixteen bits, all odd errors, and two wrong bits unless 32767 divides their distance;
* framing, headers, payloads, UART frames and the whitelist text read back as what was written, and what every
  byte stream, every buffer and every whitelist text means, the malformed ones included: which bytes end a
  connection and how, which event reports a refused frame, which devices a text allows;
* of the frames of a sender that may crash between any two operations, the guard accepts exactly those that
  take the lead: in time, and numbered above all its frames that came in time before. This holds over any
  number of connections and in every interleaving, as long as nobody else seals in the sender's name, and each
  accepted frame becomes one reading or is still in flight. Frames that arrive in order and in time are never rejected; two
  handlers that hold frames of one device can reverse them, and the earlier frame is then lost;
* every measured value reaches the dashboard unchanged and in order.

`dafny verify dfyconfig.toml` checks the whole project.

## Files

| file | contents |
|---|---|
| `Words.dfy` | machine words, big-endian bytes, two's complement |
| `Crc16.dfy` | the CRC loops, their bit-serial specification, linearity, residue |
| `CrcTheory.dfy` | the CRC as a polynomial remainder; bursts and odd errors |
| `CrcWords.dfy` | the register as a function on machine words |
| `CrcOrder.dfy` | the order of x modulo the generator; two and three wrong bits |
| `Divisibility.dfy` | divisibility and the gcd |
| `Frames.dfy` | frame parser, header printer |
| `SensorPayloads.dfy` | the eight plaintext bytes of a reading |
| `Framing.dfy` | cutting a byte stream into frames |
| `Resync.dfy` | how long the reader stays out of step |
| `Replay.dfy` | the replay guard as a class with its history |
| `ReplayRuns.dfy` | whole runs of the guard |
| `Registry.dfy` | the whitelist and its text |
| `Gateway.dfy` | one frame and one connection, imperatively |
| `Concurrency.dfy`, `ConcurrencyTheorems.dfy` | all connections at once, as a transition system |
| `SensorNode.dfy` | the Arduino sketch |
| `Esp32.dfy` | the ESP32 sketch |
| `UartLoss.dfy` | the ESP32's UART reader when bytes are lost anywhere |
| `SenderMachine.dfy` | counter, flash and wire, operation by operation |
| `SenderRuns.dfy` | the sender under crashes, composed with the guard |
| `SenderAtGateway.dfy` | the sender's frames at the gateway among arbitrary other arrivals |
| `HonestUnderLoad.dfy` | the same at the lock of the concurrent gateway, and what becomes of the frames that took it |
| `Simulator.dfy` | the simulator and its run at the guard |
| `SimulatorAtGateway.dfy` | its run at the gateway among arbitrary other arrivals |
| `EndToEnd.dfy` | from the Arduino to the published reading |

## How the model is built

* Code that updates state in place is imperative here: the guard, the gateway and the two sketches are
  classes whose methods are proved against functions on values (`VerdictOn` and `Checked`, `Process`,
  `Serve`, `RawFrame`, `Header`, ...). The theorems are about those functions.
* Authenticated encryption is ideal (sections 2.1 and 2.2 of RFC 5116): a `Vault` maps (nonce, associated
  data, ciphertext with tag) to the plaintext of everything that key holders have sealed, and nothing else
  opens.
* The concurrent gateway is a transition system. A handler's step is what it does between two points where
  another handler may run; the locked check is one step and publishing a later one. Peers choose every byte,
  and the clock is an arbitrary input of each check.
* Statements about limits, windows and offsets use numbers, so that they do not depend on the code's constants.
* Bytes and words are bounded integers; the CRC register is a `bv16` in the loops and sixteen bits in the
  specification. Increments of 32-bit counters wrap explicitly.

## Where the code and its comments differ

The model follows the code.

* `src/protocol/replay.rs:31-32` describes one guard per connection, called before decryption. The guard is
  shared (`src/main.rs:57-60`) and called after decryption (`src/transport/tcp.rs:206-223`).
* `src/protocol/replay.rs:85` speaks of five seconds of clock skew. Both directions allow 30 seconds.
* `src/protocol/replay.rs:5` and `docs/SECURITY.md:19` promise increasing sequence numbers per device.
  `last_sequence_nr == 0` (`src/protocol/replay.rs:98`) means both "nothing seen" and "zero seen", so a zero
  can follow a zero. `ReplayRuns.AcceptanceKeepsStrict` says exactly which accepted frames keep the promise,
  in terms of what can be seen before the call, `ReplayRuns.StrictUnlessZeros` says the same of whole
  histories, `ReplayRuns.AcceptedAgain` says exactly when an accepted frame is accepted again, in any run, and
  `ReplayRuns.SameFrameAcceptedTwice` gives a run in which one is although nothing was forgotten.
* `docs/SECURITY.md:96-98` says that a connection can fall out of step for good after a damaged magic. For
  the 59-byte frames of both senders it recovers after exactly 59 headers, unless one of those blocks starts
  with the magic by chance, and has then lost 35 frames (`Resync.SensorFramePeriod`,
  `Resync.DamageCosts35Frames`); for other lengths `Resync.RealignmentPossible` says exactly from which
  offsets it can recover.

## Model

| member | source | states |
|---|---|---|
| Words.ToBeFromBe | src/protocol/frame.rs:108-111 | big-endian printing undoes big-endian reading |
| Words.ReadU32 | src/protocol/frame.rs:108-109 | the u32 read is the one whose four big-endian bytes these are |
| Words.ReadU64 | src/protocol/frame.rs:110 | the u64 read is the one whose eight big-endian bytes these are |
| Words.ReadI32 | src/protocol/frame.rs:216 | the signed value read is the one whose two's-complement bytes these are |
| Words.U32RoundTrip | src/protocol/frame.rs:158-162 | every u32 survives the wire |
| Words.U64RoundTrip | src/protocol/frame.rs:161 | every u64 survives the wire |
| Words.I32RoundTrip | arduino/esp32_sender/esp32_sender.ino:433-436 | every signed value survives the wire, negatives included |
| Words.OctetsOfToBe | arduino/esp32_sender/esp32_sender.ino:512-538 | the shift-and-mask expressions of the sketches give the bytes of `to_be_bytes` |
| Crc16.AbsorbByte | src/protocol/frame.rs:234-241 | one turn of the outer loop on the machine word is one step of the bit-level specification |
| Crc16.ShiftWord | src/protocol/frame.rs:236-240 | both branches of the inner loop are the register's shift step |
| Crc16.FeedShifts | src/protocol/frame.rs:234-241 | up to sixteen message bits may be xored in first and shifted out afterwards |
| Crc16.ContinueIsFeed | src/protocol/frame.rs:231-244 | the byte-at-a-time loops equal the bit-serial divider on the message bits |
| Crc16.ContinueConcat | src/protocol/frame.rs:231-244 | the CRC of a concatenation continues from the CRC of its first part |
| Crc16.FeedBitsLinear | src/protocol/frame.rs:235-241 | the register is linear over xor, in its start value and in the message |
| Crc16.FeedBitsInjective | src/protocol/frame.rs:235-241 | no two start values lead to one final value |
| Crc16.Residue | src/protocol/frame.rs:218-224 | a received CRC matches if and only if the register over data and CRC ends at zero |
| Crc16.WordBytesRoundTrip | src/protocol/frame.rs:218 | reading and printing the two CRC bytes undo each other |
| CrcTheory.DivisionStep | src/protocol/frame.rs:235-241 | one clock of the register is one step of the long division by x^16 + x^12 + x^5 + 1 |
| CrcTheory.QuotientUnique | src/protocol/frame.rs:231-244 | the leading coefficients of a multiple of the divisor determine the quotient |
| CrcTheory.CrcIsRemainder | src/protocol/frame.rs:231-244 | the CRC, and nothing else, is the remainder of the preset message divided by the generator |
| CrcTheory.BurstLeavesResidue | src/protocol/frame.rs:235-241 | no error burst of at most sixteen bits is divisible by the generator, at any length |
| CrcTheory.FeedParity | src/protocol/frame.rs:236-240 | each clock changes the register's parity by the parity of the bit fed |
| CrcTheory.OddErrorLeavesResidue | src/protocol/frame.rs:235-241 | no error of odd weight is divisible by the generator, at any length |
| CrcTheory.ErrorReachesRegister | src/protocol/frame.rs:231-244 | the CRCs of two messages differ by what the register makes of their difference |
| CrcTheory.CorruptionNoticed | src/protocol/frame.rs:220-224 | a corrupted message passes the CRC comparison if and only if the error pattern leaves the register at zero |
| CrcTheory.ErrorDetected | src/protocol/frame.rs:220-224 | every burst of at most sixteen bits and every odd number of flipped bits fails the comparison, at every message length |
| CrcOrder.OrderOfX | src/protocol/frame.rs:235-241 | x^d is 1 modulo the generator if and only if d is a multiple of 32767 |
| CrcOrder.TwoBitErrors | src/protocol/frame.rs:220-224 | at every message length two wrong bits pass the comparison if and only if their distance is a multiple of 32767 |
| CrcOrder.FewErrorsDetected | src/protocol/frame.rs:220-224 | up to 32767 bits, CRC included, every error of one, two or three bits fails the comparison |
| Frames.HeaderAsAad | src/protocol/frame.rs:155-166 | the appended buffer is the 35-byte header |
| Frames.HeaderFields | src/protocol/frame.rs:22-30 | where each field lies in the header |
| Frames.ParsePrint | src/protocol/frame.rs:90-145 | parsing undoes printing, whatever bytes follow |
| Frames.PrintParse | src/protocol/frame.rs:90-166 | for every accepted buffer the authenticated header is the one received, and header, payload and tag are its first `total_len` bytes |
| Frames.ParseAcceptsPrinted | src/protocol/frame.rs:90-145 | a buffer is accepted if and only if it begins with a printed frame |
| Frames.ParseErrors | src/protocol/frame.rs:90-128 | every refusal of the parser, in order: shorter than 51 bytes, not 53 50, version not 1, declared length above 512, shorter than declared |
| Frames.HeaderInjective | src/protocol/frame.rs:153-166 | equal header bytes mean equal fields, so authenticating the bytes authenticates the fields |
| SensorPayloads.ComputeCrc16 | src/protocol/frame.rs:231-244 | the gateway's loop computes the specified CRC |
| SensorPayloads.ParsePrint | src/protocol/frame.rs:207-227 | every sensor type, signed value and unit survives the payload |
| SensorPayloads.PrintParse | src/protocol/frame.rs:207-227 | an accepted plaintext begins with the printed payload of the reading it yields |
| SensorPayloads.PayloadBytes | src/protocol/frame.rs:36-41 | where each field lies in the eight bytes |
| SensorPayloads.ParseErrors | src/protocol/frame.rs:207-224 | every refusal: shorter than eight bytes, or a CRC in bytes 6 and 7 that is not that of the first six |
| SensorPayloads.CorruptPayloadRefused | src/protocol/frame.rs:220-224 | a payload hit by a burst of at most sixteen bits, by an odd number of bit errors, or by two of them, is refused |
| Framing.ActionsInOrder | src/transport/tcp.rs:91-153 | the loop terminates on every finite stream; dropped headers and handed slices are contiguous, disjoint and in stream order; nothing follows a refusal |
| Framing.ActionsOfPrefix | src/transport/tcp.rs:91-153 | what a prefix of the stream causes is a prefix of what the stream causes |
| Framing.PreChecksDischargeParser | src/transport/tcp.rs:102-152 | every buffer handed over is exactly one frame long, its body fits in 528 bytes, and only an unsupported version can still be refused by the parser |
| Framing.ReadPrinted | src/transport/tcp.rs:91-153 | a printed frame at the read position is taken whole |
| Framing.ActionsOfPrinted | src/transport/tcp.rs:91-153 | printed frames are cut apart exactly where they were joined |
| Framing.FramingRoundTrip | src/transport/tcp.rs:91-153 | on any printed frames with payloads of at most 512 bytes the loop hands over exactly those frames, in order, and does nothing else |
| Framing.FirstAction | src/transport/tcp.rs:92-152 | from the bytes at any position: the loop waits if and only if fewer than 35 bytes are there, or a body of at most 512 is cut short; drops 35 bytes if and only if they do not begin with 53 50; refuses if and only if the declared length is above 512; and otherwise hands over one frame |
| Resync.BoundaryAgain | src/transport/tcp.rs:103-112 | reading k headers from a frame boundary ends on one if and only if k is a multiple of L / gcd(35, L) |
| Resync.RealignmentPossible | src/transport/tcp.rs:103-112 | from a given offset some number of headers leads to a boundary if and only if gcd(35, L) divides the offset; fewer than a period then suffice |
| Resync.DropsExactly | src/transport/tcp.rs:92-112 | the loop drops the next k headers if and only if they are there and none of them starts with the magic |
| Resync.RecoveryFromDamage | src/transport/tcp.rs:103-112 | unless a block read meanwhile starts with the magic, a damaged magic costs exactly one period of headers: off every boundary before, at a boundary after |
| Resync.RecoveryFromMisalignment | src/transport/tcp.rs:103-112 | the first boundary ahead of any offset, if there is one, is fewer than a period of headers away, and unless a block before it starts with the magic the reader drops exactly those |
| Resync.FramesAfterRecovery | src/transport/tcp.rs:91-153 | after the dropped headers every whole frame ahead is handed over |
| Resync.DamageCosts35Frames | src/transport/tcp.rs:91-153 | in a stream of 59-byte frames one damaged magic costs that frame and the 34 after it; every frame before and every later one is handed over, and a stream that ends sooner ends with dropped headers |
| Resync.SensorFramePeriod | src/transport/tcp.rs:103-112 | for 59-byte frames the period is 59 headers, the length of 35 frames, and every offset can realign |
| Replay.ReplayGuard.constructor | src/protocol/replay.rs:38-42 | a new guard knows no device |
| Replay.ReplayGuard.Check | src/protocol/replay.rs:49-72 | accepts if and only if the frame is fresh with respect to the device's whole history, records exactly the accepted frames, and leaves no trace of a rejected one |
| Replay.ReplayGuard.CheckAndUpdate | src/protocol/replay.rs:56-71 | the in-place update, entry creation before the checks included, yields the specified map |
| Replay.ReplayGuard.RemoveDevice | src/protocol/replay.rs:118-120 | forgets one device and no other |
| Replay.SequenceDecided | src/protocol/replay.rs:96-107 | comparing with the last number decides the question about every number accepted before |
| Replay.NonceDecided | src/protocol/replay.rs:109-114 | the cache holds exactly the nonces of the last 64 acceptances |
| Replay.ChecksDecideFreshness | src/protocol/replay.rs:56-61 | the three bounded checks pass if and only if the frame is timely, above every positive number accepted before, and carries none of the last 64 accepted nonces |
| Replay.ClockVerdict | src/protocol/replay.rs:74-94 | for every state: stale if and only if more than 30 seconds old, future if and only if more than 30 seconds ahead, each error with the distance |
| Replay.RememberExtends | src/protocol/replay.rs:63-69 | the update yields the bounded state of the extended history |
| Replay.CheckedStands | src/protocol/replay.rs:49-72 | one check keeps the map and the histories of all devices in step |
| ReplayRuns.HistoryInvariant | src/protocol/replay.rs:49-72 | in every run, removals and restarts included, a device's state is its last number and its last min(64, n) nonces in order, and its history is zeros, then strictly increasing numbers, timely, with no nonce repeated within 64 acceptances |
| ReplayRuns.AcceptanceMeansFresh | src/protocol/replay.rs:49-72 | in every reachable state a frame is accepted if and only if it is fresh with respect to the whole history |
| ReplayRuns.VerdictExplained | src/protocol/replay.rs:49-114 | every verdict in every run: the clock decides first, then a positive number accepted before that is not smaller, then the last 64 accepted nonces; in time within 30 seconds, above them all and with another nonce the frame is accepted |
| ReplayRuns.PositivesBounded | src/protocol/replay.rs:96-107 | the last number bounds how many positive numbers were accepted |
| ReplayRuns.ReplayNeedsZeroAndEviction | src/protocol/replay.rs:66-69 | a frame is accepted again only with number zero and after at least 64 other acceptances |
| ReplayRuns.AcceptedAgain | src/protocol/replay.rs:74-114 | in every run, removals and restarts included, an accepted frame is accepted again if and only if it is within 30 seconds, its nonce is not among the last 64 the guard remembers, and either the last accepted number is zero or the guard has forgotten the frame and accepted only smaller numbers since |
| ReplayRuns.AcceptanceKeepsStrict | src/protocol/replay.rs:96-107 | an accepted frame keeps its device's numbers strictly increasing if and only if it is not numbered zero or the guard has no entry for the device |
| ReplayRuns.ZeroFramesAccepted | src/protocol/replay.rs:96-100 | any number of zero-numbered frames with distinct nonces is accepted |
| ReplayRuns.SameFrameAcceptedTwice | src/protocol/replay.rs:96-100 | a run in which one frame is accepted twice by a guard that forgot nothing |
| ReplayRuns.ClockWindow | src/protocol/replay.rs:74-94 | whatever was forgotten in between, two acceptances of one frame are at most 60 seconds apart |
| ReplayRuns.DeviceIndependence | src/protocol/replay.rs:56-71 | the verdicts on a device's frames and its final state are those of a guard that saw only that device's events |
| ReplayRuns.RejectedFramesErasable | src/protocol/replay.rs:56-61 | deleting any rejected frames from a run changes no other verdict and not the final state |
| ReplayRuns.RunningMaxima | src/protocol/replay.rs:96-114 | among timely frames numbered from 1, with nonces not recently used under another number, the accepted ones are precisely the strict running maxima of the delivered numbers |
| ReplayRuns.LargestNumberLocksOut | src/protocol/replay.rs:102-104 | once 0xFFFFFFFF is accepted nothing more is, until the device is forgotten |
| Registry.ParseBody | src/protocol/registry.rs:74-80 | a decimal or hexadecimal numeral with any leading zeros is read as its id |
| Registry.TrimItem | src/protocol/registry.rs:46 | trimming removes exactly the space around an item |
| Registry.IdsOfJoin | src/protocol/registry.rs:44-47 | splitting, trimming and reading a printed list gives exactly its ids |
| Registry.WhitelistRoundTrip | src/protocol/registry.rs:41-71 | any nonempty printed list configures a registry that allows a device if and only if it is listed |
| Registry.ParseNames | src/protocol/registry.rs:74-80 | a text is read as an id if and only if it is a nonempty decimal numeral, or a hexadecimal one after 0x or 0X, either with a plus sign, of that value |
| Registry.AllowedBy | src/protocol/registry.rs:41-71 | for every value of the variable: a device is allowed if and only if the value is unset or blank, or one of its comma-separated pieces, apart from space around it, names the device |
| Registry.MalformedAddsNothing | src/protocol/registry.rs:44-47 | an empty or malformed further piece changes nothing |
| Gateway.ReadFrame | src/transport/tcp.rs:92-150 | one turn's reads are the specified step |
| Gateway.OversizedEndsConnection | src/transport/tcp.rs:123-140 | a declared length above 512 ends the connection at once, whatever bytes follow, with exactly one more event, that length in it and in the exit, and guard and readings unchanged |
| Gateway.ServeTurn | src/transport/tcp.rs:91-153 | each turn of the connection in terms of the bytes at its position |
| Gateway.ConnectionEnds | src/transport/tcp.rs:91-153 | a connection ends closed, cut short or refused if and only if the bytes where its loop stops are fewer than 35, a body cut short, or a declared length above 512 |
| Gateway.SealedOfBytes | src/transport/tcp.rs:169-176 | what is opened is the frame's own bytes: the first 35 as associated data, the rest as ciphertext with tag, bytes 23 to 34 as nonce |
| Gateway.EventOfFrame | src/transport/tcp.rs:170-223 | for every well-formed frame, registry and guard: a bad tag is reported if and only if the frame was not sealed, whatever the whitelist; an unknown device if and only if it was sealed and is not listed; a replay, with its reason, if and only if it was sealed, is listed and is not fresh; and nothing if and only if it is accepted |
| Gateway.EventOfBytes | src/transport/tcp.rs:159-166 | a parse error is reported, with the parser's error, if and only if the parser refuses the bytes; a reported frame changes neither guard nor readings |
| Gateway.GatewayState.constructor | src/main.rs:52-62 | the gateway starts with an empty guard and nothing published |
| Gateway.GatewayState.ProcessFrame | src/transport/tcp.rs:157-264 | the imperative pipeline changes guard, readings and events as specified, in the order parse, open, whitelist, replay, payload |
| Gateway.GatewayState.HandleConnection | src/transport/tcp.rs:87-154 | the imperative loop serves a whole connection as specified and ends for the specified reason |
| Gateway.RefusedFramesErasable | src/transport/tcp.rs:159-222 | deleting every frame that failed parser, tag, whitelist or replay check changes neither what is published nor the guard |
| Concurrency.BackedStep | src/transport/tcp.rs:157-264 | every step keeps: frames past the tag check are sealed frames of allowed devices |
| Concurrency.GuardStep | src/transport/tcp.rs:208-223 | every step keeps: the shared guard's state is that of the acceptances so far, whose numbers rise per device |
| Concurrency.ConservedStep | src/transport/tcp.rs:208-263 | every step keeps: each acceptance is published, dropped or in flight, exactly once |
| Concurrency.LogStep | src/transport/tcp.rs:208-263 | every step keeps: readings are those of accepted frames, in acceptance order within a connection |
| Concurrency.InvariantHolds | src/transport/tcp.rs:59-264 | the four invariants hold after every run |
| ConcurrencyTheorems.PublishedReadingsAuthentic | src/transport/tcp.rs:157-264 | every published reading carries the device, number, time and first eight plaintext bytes of a frame that a key holder sealed, for an allowed device |
| ConcurrencyTheorems.AtMostOnce | src/transport/tcp.rs:206-263 | no device's number from 1 on is published twice, over all connections |
| ConcurrencyTheorems.AcceptancesConserved | src/transport/tcp.rs:208-263 | accepted frames are published readings, frames dropped for a bad payload and frames in flight, each once, with at most one in flight per connection |
| ConcurrencyTheorems.ConnectionInOrder | src/transport/tcp.rs:208-263 | one connection's readings of a device come out in strictly increasing number, from 1 on |
| ConcurrencyTheorems.LogOrderIsAcceptanceOrder | src/transport/tcp.rs:208-263 | two readings of a device stand in the order of their numbers if and only if they were published in the order of their acceptance |
| ConcurrencyTheorems.PublishKeepsOrder | src/transport/tcp.rs:263 | publishing keeps a device's log sorted if and only if none of its numbered frames accepted later has been published already |
| ConcurrencyTheorems.UncontendedLogSorted | src/transport/tcp.rs:208-263 | in a run in which no frame of a device is accepted while another of its frames is in flight, its readings come out sorted over all connections |
| ConcurrencyTheorems.LogCanBeOutOfOrder | src/transport/tcp.rs:208-263 | the counterexample to an ordered log: any two genuine frames of one device can be published in reverse by two connections |
| ConcurrencyTheorems.UndisturbedHandlerIsProcess | src/transport/tcp.rs:157-264 | a handler that is not interrupted does what the sequential pipeline does |
| ConcurrencyTheorems.ReadStep | src/transport/tcp.rs:92-152 | a handler's read step in terms of the bytes at its position: waits, drops a header, refuses a declared length above 512 and ends, or takes one frame |
| ConcurrencyTheorems.VerifyStep | src/transport/tcp.rs:170-204 | a handler with a well-formed frame reports a bad tag before it looks at the whitelist |
| ConcurrencyTheorems.VerifyRefusedBytes | src/transport/tcp.rs:159-166 | and reports a parse error if and only if the parser refuses the bytes |
| ConcurrencyTheorems.DisconnectStep | src/transport/tcp.rs:94-100 | a handler ends with its peer's connection if and only if it waits for bytes that are not there |
| SensorNode.ComputeCrc16 | arduino/sensor_node/sensor_node.ino:191-200 | the Arduino's loop, with a one-byte counter, computes the specified CRC for every length that counter can hold |
| SensorNode.FrameBytes | arduino/sensor_node/sensor_node.ino:168-185 | where each field lies in the ten bytes |
| SensorNode.Node.SendFrame | arduino/sensor_node/sensor_node.ino:168-185 | the buffer filled in place and written is the ten-byte UART frame of the reading |
| SensorNode.Node.Report | arduino/sensor_node/sensor_node.ino:110-133 | a failed measurement sends and counts nothing; any other counts one and sends one frame |
| Esp32.ComputeCrc16 | arduino/esp32_sender/esp32_sender.ino:616-629 | the ESP32's loop computes the specified CRC for every length its counter can hold |
| Esp32.ValidateRawFrame | arduino/esp32_sender/esp32_sender.ino:414-425 | validation checks start byte, end byte and CRC |
| Esp32.ValidFramesArePrinted | arduino/esp32_sender/esp32_sender.ino:414-425 | a UART frame is valid if and only if it is the one the Arduino prints for its own reading |
| Esp32.RawFrameReading | arduino/esp32_sender/esp32_sender.ino:431-437 | the ESP32 decodes the reading the Arduino printed |
| Esp32.IntakeUndoesPrinting | arduino/esp32_sender/esp32_sender.ino:211-217 | over a lossless UART every reading is taken in, unchanged and in order |
| UartLoss.NeverRealigns | arduino/esp32_sender/esp32_sender.ino:211-217 | bytes lost anywhere in the stream: every frame before the gap is taken, then the block that spans the gap if it passes validation, then, if the loss was whole frames' worth, every later frame, and otherwise, to the end of the stream, only blocks that join the end of one frame to the beginning of the next |
| UartLoss.LossSilences | arduino/esp32_sender/esp32_sender.ino:414-425 | after a loss anywhere that is no multiple of ten bytes, of the Arduino's distance frames those before the gap are taken, then at most the one block that spans the gap, then nothing ever; that block cannot pass if the loss begins with a frame or is 1, 2, 3, 4 or 7 bytes long modulo ten |
| UartLoss.GapCanPass | arduino/esp32_sender/esp32_sender.ino:414-425 | the block that spans the gap can pass: two distances and five lost bytes from which the reader takes a distance that was never measured |
| Esp32.CorruptRawFrameDiscarded | arduino/esp32_sender/esp32_sender.ino:414-425 | a UART frame hit anywhere in its ten bytes by a burst of at most sixteen bits, by an odd number of bit errors, or by two of them, is discarded |
| Esp32.Sender.BuildPayload | arduino/esp32_sender/esp32_sender.ino:489-501 | the buffer filled in place is the payload the gateway's parser undoes |
| Esp32.Sender.BuildHeader | arduino/esp32_sender/esp32_sender.ino:507-542 | the buffer filled in place is the header the gateway authenticates |
| Esp32.Sender.ProcessAndSendDirect | arduino/esp32_sender/esp32_sender.ino:658-697 | counts up, then saves, then sends or gives up, in this order, as a run of the crash machine that ends in the sketch's own counter, flash and wire; seals the reading's payload under the header, and sends that frame or, without encryption, none |
| Esp32.Sender.ProcessAndSend | arduino/esp32_sender/esp32_sender.ino:431-483 | the same, in the same order, for the reading decoded from a UART frame |
| Esp32.Sender.Loop | arduino/esp32_sender/esp32_sender.ino:209-221 | takes ten bytes if there are ten; a valid frame is sealed and sent under the next number, an invalid one costs no number |
| SenderRuns.SenderInvariantHolds | arduino/esp32_sender/esp32_sender.ino:659-660 | whatever crashes between any two operations, flash is never behind the wire, and the wire strictly increases |
| SenderRuns.WireStrictlyIncreases | arduino/esp32_sender/esp32_sender.ino:439-440 | the numbers one sender puts on the wire strictly increase from above the saved counter, across crashes and reboots, while the counter does not wrap |
| SenderRuns.SketchNeverRepeats | arduino/esp32_sender/esp32_sender.ino:439-482 | the frames a sketch wrote carry strictly increasing numbers, whatever crashes and reboots it went through, and between any two of its operations flash was not behind the wire |
| SenderRuns.NextNumberIncreases | arduino/esp32_sender/esp32_sender.ino:659 | after any such run the next number keeps the order if and only if the counter is below 0xFFFFFFFF or nothing was sent |
| SenderRuns.NewIsFresh | src/protocol/replay.rs:49-72 | in every run, removals and restarts included, a timely frame above, and with another nonce than, everything its device delivered before is accepted |
| SenderRuns.ReplayIsRejected | src/protocol/replay.rs:96-107 | a frame delivered before in honest traffic is rejected |
| SenderRuns.HonestTrafficSorted | src/protocol/replay.rs:49-72 | in honest traffic a frame is accepted if and only if it is new, and if and only if it is no replay |
| SenderRuns.FirstArrivalAccepted | arduino/esp32_sender/esp32_sender.ino:403-407 | over a lossy in-order channel, with replays interleaved and the guard made to forget at any point, every frame of a crashing sender is accepted the first time it arrives |
| SenderRuns.NoHonestFrameRejected | arduino/esp32_sender/esp32_sender.ino:403-407 | while nothing is forgotten, such a frame is accepted if and only if it arrives for the first time |
| SenderRuns.AcceptedIfLeads | src/protocol/replay.rs:49-72 | in every run, removals and restarts included, whatever the order and the clock readings, a frame of a sender that numbers upwards is accepted if and only if it is in time and numbered above every frame its device delivered in time since the guard last forgot it |
| SenderAtGateway.GatewayIsGuard | src/transport/tcp.rs:157-264 | on arrivals of any bytes whatever the gateway's guard is the guard run on what authenticates, and its log the readings of what that run accepts |
| SenderAtGateway.OpensOnlySealed | src/transport/tcp.rs:170-189 | what opens in a device's name is one of the frames sealed under a header that names it |
| SenderAtGateway.ReadingsOfLeaders | src/transport/tcp.rs:157-264 | among arbitrary other arrivals, as long as nobody else seals in the device's name, and in whatever order and however often its sender's frames arrive, its published readings are those of the frames that arrive in time and numbered above all that arrived in time before, unchanged and in this order |
| SenderAtGateway.OneReadingPerFrame | src/transport/tcp.rs:157-264 | over a channel that may lose and repeat but keeps the crashing sender's order, first arrivals in time, the device's published readings are those of its frames that arrive, each once, in the order of first arrival |
| HonestUnderLoad.GuardIsLockRun | src/transport/tcp.rs:206-223 | over every interleaving the shared guard is the guard run on the frames that took the lock, in lock order, and the acceptances are that run's |
| HonestUnderLoad.LeadersPassTheLock | src/transport/tcp.rs:206-223 | over any number of connections and every interleaving one of the sender's frames is accepted if and only if it takes the lock in time and numbered above all its frames that took the lock in time before, and the device's acceptances are those frames, in this order |
| HonestUnderLoad.HonestFramesPassTheLock | src/transport/tcp.rs:206-223 | in interleavings in which a crashing sender's frames first take the lock in its order and in time, its acceptances are the frames that take the lock for the first time, each once |
| HonestUnderLoad.OvertakenFrameRefused | src/transport/tcp.rs:206-223 | outside of those a first arrival can be refused: any two genuine frames of one device, held by two handlers, can take the lock in reverse, and the earlier, timely one is then reported as a replay |
| HonestUnderLoad.LockedAccounted | src/transport/tcp.rs:206-223 | over every interleaving each frame that took the lock was accepted or reported as a replay, once |
| HonestUnderLoad.AcceptedPublishedAsMeant | src/transport/tcp.rs:208-263 | in every interleaving each accepted frame of the sender is published once, as the reading its sender sealed in it, or is still in flight; none is dropped |
| Simulator.BuildFrame | src/simulator.rs:79-115 | a frame in the gateway's format, byte for byte, whose nonce repeats the number's bytes, the low four bytes of the time and the device's bytes |
| Simulator.Run | src/simulator.rs:41-77 | the main loop writes frames 1, 2, 3, ... and in replay mode frame 1 again after frame 5, and hands the cipher each turn's temperature under that turn's own header |
| Simulator.RunFrameFields | src/simulator.rs:25-47 | a run's frames are those of device 1, numbered by their turn |
| Simulator.TemperatureValue | src/simulator.rs:49 | every frame's temperature: 20.00 at each multiple of ten, 0.37 more per frame up to the ninth, and less than 20.00 once the number no longer fits an i32 |
| Simulator.TemperatureCycle | src/simulator.rs:49 | the temperatures repeat every ten frames within 20.00 to 23.33 degrees, and fall below 20.00 once the number no longer fits an i32 |
| Simulator.NonceSpellsNumber | src/simulator.rs:85-89 | equal nonces mean equal numbers and devices |
| Simulator.NonceRepeats | src/simulator.rs:85-89 | two nonces are equal if and only if number and device are and the times agree modulo 2^32 |
| Simulator.RunsShareNonce | src/simulator.rs:41-89 | two runs share a nonce if and only if they built some frame number at times that agree modulo 2^32 |
| Simulator.RunIsHonest | src/simulator.rs:45-76 | every frame of a run is new but the replayed one; nonce distinctness is proved, not assumed |
| Simulator.OnlyTheReplayIsRejected | src/simulator.rs:66-73 | of a run that the guard sees alone, in order and in time, it accepts every frame except the replayed one |
| SimulatorAtGateway.RunPublished | src/simulator.rs:41-77 | whatever else arrives in between, as long as nobody else seals in its name, a run that arrives in order and in time is published as one reading per turn, each with its own temperature, in order, replay mode or not |
| EndToEnd.ServePrinted | src/transport/tcp.rs:91-153 | serving a connection that brings printed frames is processing those frames |
| EndToEnd.OneReading | src/transport/tcp.rs:157-264 | one genuine, fresh frame becomes one reading and no event |
| EndToEnd.UnconfiguredGatewayPublishes | src/protocol/registry.rs:57-69 | a gateway configured from an unset variable publishes a genuine frame, at most 30 seconds off, of any device it has no state of |
| EndToEnd.ReadyAccepts | src/protocol/replay.rs:49-72 | a guard that knows no number of a sender from n on accepts frame n and is ready for n + 1 |
| EndToEnd.GenuineFramesPublished | src/transport/tcp.rs:157-264 | consecutive genuine frames are all published, in order, without an event |
| EndToEnd.SendAll | arduino/esp32_sender/esp32_sender.ino:189-222 | run over the UART bytes of any readings, the sketch sends consecutively numbered frames, one per reading, and hands the cipher each reading's payload under its frame's own header |
| EndToEnd.SendDirectly | arduino/esp32_sender/esp32_sender.ino:197-207 | in direct sensor mode, with the power going off before any of the transmissions, the sketch sends the frames of an undisturbed one: one per reading, consecutively numbered, each reading's payload under its frame's own header |
| EndToEnd.SensorToDashboard | arduino/esp32_sender/esp32_sender.ino:431-483 | every measured triple goes through Arduino frame, UART, ESP32, seal, connection, framing, opening, guard and payload parser and is published unchanged, in order, with consecutive numbers |

## Left out

- AES-256-GCM and the calls into `ring` and mbedTLS (`src/crypto/aes_gcm.rs:61-114`): foreign code; only an ideal interface is kept, and results of encryption are inputs.
- Tokio, sockets and spawning: a connection is a finite byte sequence with a read position; I/O errors other than end of file are not part of this model.
- Read timeouts and liveness: a handler may wait forever, as it may in the code.
- Capacity and lag of the broadcast channels (`src/main.rs:47-50`): the logs of readings and events only grow.
- HTTP API, event stream and dashboard (`src/api/routes.rs`): plumbing.
- Display strings, `value_f32`, log and error texts: a published reading keeps the raw fields they are computed from.
- Environment and command-line access: the whitelist and the simulator's replay flag are inputs.
- Unicode: whitelist text is a sequence of characters; its trimming knows Unicode's White_Space characters.
- The ultrasonic measurement and its conversion from floating point (`arduino/sensor_node/sensor_node.ino:110-162`): the converted value, or its absence, is an input.
- WiFi portal, NTP, display, GPIO and UART hardware: inputs and outputs only. One loss of consecutive UART bytes, anywhere, is modelled; several are not.
- Direct sensor mode and reconnecting (`arduino/esp32_sender/esp32_sender.ino:190-208`): `EndToEnd.SendDirectly` makes its transmissions; the polling interval and the infrared sensor's two values are not modelled.
- Factory reset (`arduino/esp32_sender/esp32_sender.ino:240-245`) and flash failures: a reset clears the counter, after which the gateway rejects the sender until the counter has caught up; saving is atomic and durable here.
- Incomplete TCP writes (`arduino/esp32_sender/esp32_sender.ino:593-597`): a frame is sent whole or, in `SenderMachine`, not at all.
- Randomness of the ESP32's nonces: distinctness is a hypothesis where it is needed.
- All devices share one key (`docs/SECURITY.md:85-89`): that nobody else seals in a device's name is a hypothesis where it is needed.
- Endless loops are modelled by their finite prefixes: the simulator's `main`, the sketches' `loop`, the listener.
- Replay.DeviceState: a value inside the guard's map, written back after each update; the mutable reference into the map is not modelled.
- SenderRuns.WireStrictlyIncreases: excludes counting up from 0xFFFFFFFF, which sends zero; `NextNumberIncreases` and `ReplayRuns.LargestNumberLocksOut` say exactly what then happens.
- Resync.RecoveryFromDamage: supposes that no block read on the way starts with the magic by chance, which `DropsExactly` shows to be necessary: the reader takes such a block for a header.
- Resync.RecoveryFromMisalignment: the same supposition, for the blocks before the first boundary.
- Resync.DamageCosts35Frames: the same supposition.
