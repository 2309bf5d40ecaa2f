# Keyboard firmware engines, verified

This project models the parts of the firmware that are pure logic: the inter-half link and its 5 V handshake, the
CDC protocol and its radio bridge, the scan and key-timing engines, the mouse filters and emission, the CCID driver,
and the OpenPGP applet with its data-object store. Hardware, clocks, flash, radio, the USB stack and cryptography appear
as inputs: a clock reading, a level read, an acknowledgement, the outcome of a hook.

The source keeps its state in static variables and works on them in place. Each engine therefore comes in two parts: a
class (or a method on arrays) with the source's own variables, loops and branches, whose postconditions tie the new state
to a function of the old one; and lemmas about that function, over every input and every run. Where such a function is a
machine of its own, a second account of it is proved from the history of inputs alone, in the protocol's own bytes and
numbers: `CrcDivision` for the checksum, `LinkHistory` for the handshake, `CfgBridgeRuns` for reassembly, `TapHoldFate`
for the tap/hold engine, `OpenPgpHistory` and `OpenPgpAnswers` for the applet. `dafny verify dfyconfig.toml` checks
everything.

## How the modules fit together

| source | functions and theorems | in-place form |
|---|---|---|
| `main/comm/cdc/cdc_binary_protocol.c` | `Crc8`, `CrcDivision`, `KsProtocol`, `KsHandoff` | `KsReceiver`, `KsResponse` |
| `main/comm/cdc/cdc_binary_cmds.c` | `Bigrams` | `Bigrams` |
| `main/comm/link/link_frame.h` | `LinkFrame` | `LinkFrame` |
| `main/comm/rf/rf_packet.h` | `HalfBitmap` | `HalfBitmap` |
| `main/comm/link/link_handshake.h` | `LinkHandshake`, `LinkHistory` | `LinkHandshake.Machine` |
| `main/comm/rf/cfg_bridge.c` | `CfgBridge`, `CfgBridgeRuns` | `CfgBridge.Accumulator` |
| `main/input/matrix_flag.h`, `main/input/matrix_scan.c` | `MatrixHandoff`, `MatrixMerge` | `MatrixScan` |
| `components/espressif__keyboard_button/keyboard_button.c` | `Debounce` | `KeyboardButton` |
| `main/input/tap_hold.c` | `TapHold`, `TapHoldLimits`, `TapHoldMods`, `TapHoldTaps`, `TapHoldFate` | `TapHoldEngine` |
| `main/input/leader.c` | `Leader` | `LeaderKey` |
| `main/app/mouse_task.c` | `MouseFilter`, `MouseEmitter` | `MouseFilter`, `MouseEmitter` |
| `main/security/ccid.c` | `Ccid` | `CcidDriver` |
| `main/security/openpgp_card.c` | `Tlv`, `OpenPgpCard`, `OpenPgpRuns`, `OpenPgpHistory`, `OpenPgpAnswers`, `OpenPgpWire` | `Tlv`, `OpenPgpApplet` |
| `main/security/openpgp_do.c` | `DoStore` | `DoStore.Store` |
| `main/security/apdu.c` | `ApduParser` | `ApduParser` |

`Wrappers` and `Bits` hold what several of them share.

## Where the code and its documentation differ

- The comment at main/app/mouse_task.c:142-145 says the smoothing has unit DC gain and only redistributes distance. It
  does not: without motion the state stops at exactly 6/256 of a count per sample (or -6/256), so after almost any gesture
  the pointer goes on drifting. `MouseFilter.RestsOnlyAtZero` gives the exact condition under which it stops (the state is
  0), `MouseFilter.SettlesAtSix` where it settles, and `MouseFilter.OneCountDrifts` a one-count gesture that starts it.
- main/input/matrix_flag.h:35-41 concedes a theoretical race in which a signal is lost. The signal may be overwritten, but
  nothing is lost: the cells were written before it and are read after the clear (`MatrixHandoff.NothingIsLost`).
- The comment at main/input/matrix_scan.c:49-62 promises that the merge of the remote half leaves the local keys in place.
  The only build with a remote half, the left Niphargus half (sdkconfig.defaults.niphar_left:2 and :45), has no display
  (main/Kconfig.projbuild:154-157), and the number of local keys is only noted with one (main/input/matrix_scan.c:199-203).
  So there every merge starts from 0 local keys: a remote change wipes whatever is held on the left half
  (`MatrixMerge.MergeWithoutDisplay`, `MatrixMerge.KeyIsWiped`), and a local change drops the remote keys until the next
  remote one (`MatrixMerge.CallbackListsBoth`).
- With a display the promise fails only for a callback that preempts the merge and finds more local keys than that still
  spares; `MatrixMerge.LateCallback` gives the exact condition at every point of the merge, `MatrixMerge.KeyIsLost` a
  failing run. `MatrixMerge.ShownIffKept` is the exact condition over every run of either build, and nothing but another
  callback brings the keys back (`MatrixMerge.LostUntilCallback`).
- The comment at main/comm/link/link_frame.h:12 gives the bitmap five bytes; it has four (main/comm/rf/rf_packet.h:40), so
  a MATRIX frame has nine.
- The two KS parsers can only disagree on strings that start like a frame and declare more than 4096 bytes. On framed
  strings they agree exactly up to that bound, whatever the checksum (`KsProtocol.AgreeUpToBound`); on any byte string,
  `KsProtocol.AgreeExactly` gives the exact condition. `KsProtocol.OversizedFramesDiffer` shows how they differ, and
  `KsProtocol.ShortOversized` an oversized string on which they do not.
- The tap/hold stack relies on a 32-bit sequence number that never wraps while a layer key is held. Any run with fewer
  than 2^32 activations of layer keys meets that (`TapHoldLimits.FewActivationsSuffice`); `TapHoldLimits.WrappedRunFails`
  is a run that does not, and `TapHold.ActivationTakesOver` says exactly what happens then.
- The layout to fall back to is kept in a signed byte, so it comes back if and only if it is below 128
  (`TapHoldLimits.BaseIsSigned`).
- The active modifier mask is the union of the held keys' modifiers exactly in the runs in which no key is released while
  it shares a modifier with another one held (`TapHoldMods.MaskIsUnion`); `TapHoldMods.SharedModifierIsLost` is a run that
  loses a modifier still held.
- The comment at main/input/tap_hold.c:228-231 relies on the caller's loop to reach every resolved tap. It does if and
  only if no tap with key 0 comes before another one (`TapHoldTaps.NothingIsLeft`).
- main/input/tap_hold.c:170-174 frees the slot of a tap whose key is released once more before the caller asks for it, so
  that tap types nothing. `TapHoldFate.KeysAreAccountedFor` counts those taps apart; every other one is handed over once.
- The 500 ms silence rule of the handshake is measured modulo 2^32 ms (`LinkHandshake.SilenceOpens`).
- A debounce threshold above 255 can never be reached by the 8-bit counter (`Debounce.LargeThresholdFreezes`).

## Model

| member | source | states |
|---|---|---|
| Crc8.ComputeCrc | main/comm/cdc/cdc_binary_protocol.c:65-74 | The nested update loop over any part of a buffer computes the checksum of exactly those bytes, which CrcDivision.CrcIsRemainder identifies. |
| Crc8.OneByteChangesCrc | main/comm/cdc/cdc_binary_protocol.c:65-74 | Two messages of one length that differ in exactly one byte never share a checksum. |
| Crc8.CrcOfCodeword | main/comm/cdc/cdc_binary_protocol.c:65-74 | A message followed by its own checksum has checksum 0. |
| Crc8.RegisterConcat | main/comm/cdc/cdc_binary_protocol.c:65-74 | The register after a concatenation is the register of the second part started from that of the first. |
| Crc8.RegisterInjective | main/comm/cdc/cdc_binary_protocol.c:65-74 | For a fixed message the register is an injective function of its starting value. |
| CrcDivision.CrcIsRemainder | main/comm/cdc/cdc_binary_protocol.c:61-74 | The checksum of a message is the remainder of its division: the bits of the message followed by eight zeros are, without carries, a multiple of x^8 + x^5 + x^4 + 1, but for the eight bits of the checksum. |
| CrcDivision.CodewordsAreMultiples | main/comm/cdc/cdc_binary_protocol.c:61-74 | A message followed by one byte is a multiple of that polynomial if and only if the byte is the checksum of the message. |
| LinkFrame.EncodeMatrix | main/comm/link/link_frame.h:82-94 | Fills nine bytes, 4E 06 01, the sequence number, the four of the bitmap and the checksum of all but the first, and leaves the rest of the buffer alone; a null buffer or bitmap gives 0. |
| LinkFrame.EncodeCtrl | main/comm/link/link_frame.h:97-106 | Fills five bytes, 4E 02, the type, the sequence number and their checksum, and leaves the rest of the buffer alone; a null buffer gives 0. |
| LinkFrame.DecodeInto | main/comm/link/link_frame.h:110-157 | The three-way verdict with its count of consumed bytes; the caller's frame is written only on FRAME; a null buffer, frame or count gives NEED_MORE. |
| LinkFrame.VerdictMeans | main/comm/link/link_frame.h:26-157 | NEED_MORE is answered exactly while the bytes are the beginning of some frame of two to six bytes of payload. A frame that stands in front is consumed whole, and handed over unless it says MATRIX and is not six bytes long. Anything else costs one byte. |
| LinkFrame.DecodeProgress | main/comm/link/link_frame.h:26-32 | SKIP and FRAME consume at least one byte and never more than there are; NEED_MORE is only answered to fewer than nine bytes. |
| LinkFrame.DecodeStable | main/comm/link/link_frame.h:110-157 | A verdict other than NEED_MORE is final: bytes that arrive later never change it. |
| LinkFrame.DrainResidue | main/comm/link/link_frame.h:16-32 | The resynchronising loop terminates on every stream and leaves an undecided suffix of at most eight bytes. |
| LinkFrame.DrainSplit | main/comm/link/link_frame.h:16-32 | Draining a stream in two parts gives the frames and residue of draining it at once. |
| LinkFrame.CutsDoNotMatter | main/comm/link/link_frame.h:16-32 | However a stream is cut into receptions, the same frames come out and the same bytes are left over. |
| LinkFrame.NoiseIsSkipped | main/comm/link/link_frame.h:110-157 | Noise free of the start byte 0x4E is discarded without touching what follows. |
| LinkFrame.DecodeEncoded | main/comm/link/link_frame.h:82-157 | An encoded frame decodes to itself whatever follows it; a control frame claiming type MATRIX is consumed whole and dropped. |
| LinkFrame.StreamRoundTrip | main/comm/link/link_frame.h:82-157 | Any concatenation of encoded frames, each preceded by start-byte-free noise, is read back as exactly those frames with nothing left over. |
| LinkFrame.DecodedIsEncoded | main/comm/link/link_frame.h:110-157 | Conversely, a MATRIX frame or a frame of minimal length is only ever decoded from its own encoding. |
| LinkFrame.AlteredFrameIsSkipped | main/comm/link/link_frame.h:134-139 | An encoded frame with one byte altered after the length byte, whatever follows, decodes to SKIP of one byte. |
| LinkHandshake.Machine.Init | main/comm/link/link_handshake.h:66-73 | Brings every field to the resting state with the switch open. |
| LinkHandshake.Machine.Advance | main/comm/link/link_handshake.h:77-178 | One event on the fields has the action and the new state of the transition function, which LinkHistory tells from the events before. |
| LinkHandshake.FlagIsSwitch | main/comm/link/link_handshake.h:11-17 | In every run the flag is set exactly in state UP, and exactly when replaying the actions leaves the load switch closed. |
| LinkHandshake.ClosesOnExchangeOnly | main/comm/link/link_handshake.h:11-17 | The switch goes from open to closed on a received probe or on an acknowledgement of one's own probe, and on nothing else. |
| LinkHandshake.SilenceNeverCloses | main/comm/link/link_handshake.h:11-17 | In any run without a probe or acknowledgement the flag is never set and no enabling action is emitted. |
| LinkHandshake.SilenceOpens | main/comm/link/link_handshake.h:149-156 | A step that is not a sign of life keeps the switch closed exactly if it was closed, USB is not lost and less than 500 ms modulo 2^32 passed since the last one. |
| LinkHandshake.CorruptStateIsSafe | main/comm/link/link_handshake.h:158-175 | From a state outside the enumeration any event but a probe leads to the resting state with the flag clear. |
| LinkHandshake.NoSparkOnPlug | main/comm/link/link_handshake.h:1-17 | Two halves over a losing, delaying, duplicating line: whoever closes on an acknowledgement is the second to close, and a closed switch means a host cable was seen on one side. |
| LinkHandshake.UnheardNeverCloses | main/comm/link/link_handshake.h:11-17 | A half that no probe or acknowledgement of its peer ever reaches never closes its switch. |
| LinkHandshake.ExchangeBringsBothUp | main/comm/link/link_handshake.h:77-178 | A probe delivered and its acknowledgement delivered bring both halves up. |
| LinkHandshake.CanComeUp | main/comm/link/link_handshake.h:77-178 | From every reachable pair of halves in which one has USB, and with everything sent so far lost, some schedule of at most four moves (that half ticks within 800 ms, the new probe arrives, and so does the answer) brings both up. |
| LinkHistory.Answers | main/comm/link/link_handshake.h:77-178 | What a half answers to any event, from its history: an acknowledgement to every probe and to nothing else; it closes on an acknowledgement exactly while its own probe is out; opens exactly when USB goes or 500 ms have passed without a sign of life; and sends a probe exactly when, at rest, USB arrives or a tick comes 300 ms or more after it came to rest. |
| LinkHistory.WaitingWhileOut | main/comm/link/link_handshake.h:133-151 | The half waits for an answer exactly while a probe is out: one it sent less than 200 ms before every event since, none of which was an answer, a probe or the loss of USB. |
| LinkHistory.LostProbeIsRepeated | main/comm/link/link_handshake.h:19-28 | A lost probe is repeated: with a probe out and USB present, a tick 200 ms or more after it gives up, and a tick 300 ms or more after that sends the next. |
| LinkHistory.ProbeWaits | main/comm/link/link_handshake.h:144-151 | A tick less than 200 ms after the probe changes nothing. |
| LinkHistory.FieldsRemember | main/comm/link/link_handshake.h:77-120 | The time stamps and the USB flag are the last change of state, the last sign of life and the last USB event of the run. |
| CfgBridge.MakeChunk | main/comm/rf/cfg_bridge.c:24-39 | Writes the index, the count and the slice of the frame at that index, nothing past it, and 0 bytes for an index or frame out of range or a null argument. |
| CfgBridge.ChunkShape | main/comm/rf/cfg_bridge.c:18-39 | Every index below the count gives a well-formed chunk carrying its nonempty slice. |
| CfgBridge.AddKeepsInv | main/comm/rf/cfg_bridge.c:41-86 | Accepting a chunk of the frame keeps the reassembly state equal to the set of indices delivered, with every delivered slice in place. |
| CfgBridge.RunKeepsInv | main/comm/rf/cfg_bridge.c:41-86 | The same over any sequence of deliveries, repeated, out of order, or malformed. |
| CfgBridge.CompletesOnLastMissing | main/comm/rf/cfg_bridge.c:41-86 | A delivery reports completion exactly when it brings the last missing index, and the buffer then holds the frame. |
| CfgBridge.ReportedExactlyOnce | main/comm/rf/cfg_bridge.c:41-86 | For every frame of 1 to 6144 bytes completion is reported at most once in a run, and it is reported if and only if every index was delivered. |
| CfgBridge.MarkingAddsOne | main/comm/rf/cfg_bridge.c:66-78 | Setting one bit of the 32-byte bitmap adds exactly that index to the set it stands for. |
| CfgBridge.Accumulator.AddChunk | main/comm/rf/cfg_bridge.c:41-86 | The in-place accumulator (bitmap, counters, buffer) has the verdict and new state of the reassembly function. |
| CfgBridge.Accumulator.Reassemble | main/comm/rf/cfg_bridge.c:41-86 | The entry point: null arguments change nothing and report nothing; otherwise the verdict, the new state, and the length written only on completion. |
| CfgBridgeRuns.AnyBytes | main/comm/rf/cfg_bridge.c:41-86 | After any deliveries of any bytes at all: one more changes the state if and only if it counts (well formed, with the count of those that counted before and a new index), and completes a frame if and only if with it as many indices have counted as it announces. Every slice that counted stays in place, and the frame ends where the furthest of them does. |
| CfgBridgeRuns.RefusedUnlessCounts | main/comm/rf/cfg_bridge.c:52-72 | A chunk is refused exactly if it does not count: among others one that announces another number of chunks than those before it. |
| KsProtocol.FollowsFrame | main/comm/cdc/cdc_binary_protocol.c:217-312 | From any point inside a frame, one call on any continuation of it stands where the frame says, having consumed every byte up to its end. |
| KsProtocol.AnyCutDelivers | main/comm/cdc/cdc_binary_protocol.c:217-312 | A valid frame cut into any pieces: every piece is consumed whole and the request comes out exactly once. |
| KsProtocol.FeedAgreesWithDispatch | main/comm/cdc/cdc_binary_protocol.c:217-340 | For every byte string, frame or not, except those that start like a frame and declare more than 4096 bytes: feeding it whole is consumed entirely and delivers exactly when the frame dispatcher reaches handler lookup, with the same command and payload, and is refused for its checksum exactly when that one refuses it. |
| KsProtocol.AgreeExactly | main/comm/cdc/cdc_binary_protocol.c:217-340 | On every byte string at all the two parsers agree if and only if it is not oversized, or is not framed and its feeding hands some of it back (then both ignore it). |
| KsProtocol.AgreeUpToBound | main/comm/cdc/cdc_binary_protocol.c:217-340 | On every framed string, whatever its checksum, the two parsers agree if and only if it declares at most 4096 bytes. |
| KsProtocol.OversizedFramesDiffer | main/comm/cdc/cdc_binary_protocol.c:265-269 | A correct frame that declares more is dispatched by one parser; the other's outcome is never that one, and its first answer is Overflow. |
| KsProtocol.ShortOversized | main/comm/cdc/cdc_binary_protocol.c:217-340 | An oversized string on which they agree: six bytes that declare 5000, which both ignore. |
| KsProtocol.LookedUpIsFrame | main/comm/cdc/cdc_binary_protocol.c:314-340 | The dispatcher looks a request up exactly on its frame and on no other bytes. |
| KsProtocol.FrameOnWire | main/comm/cdc/cdc_binary_protocol.c:314-340 | The frame is the bytes 4B 53, the command, the length with its low byte first, the payload and its checksum. |
| KsReceiver.Receiver.Publish | main/comm/cdc/cdc_binary_protocol.c:285-302 | The validated request fills the slot if it is free and is dropped otherwise. |
| KsReceiver.Receiver.Byte | main/comm/cdc/cdc_binary_protocol.c:228-308 | One byte of the receive loop on the parser's statics has the effect of the parser function, error replies included. |
| KsReceiver.Receiver.FeedBytes | main/comm/cdc/cdc_binary_protocol.c:217-312 | One reception: parser state, count of consumed bytes, error replies and hand-over slot. |
| KsReceiver.FindHandler | main/comm/cdc/cdc_binary_protocol.c:94-104 | The nested search over the command tables finds nothing exactly if no row carries the command, and otherwise the handler of a row that carries it and that no row carrying it precedes. |
| KsReceiver.TurnOfRequest | main/comm/rf/cfg_bridge.c:114-142 | With a paired keyboard every command but the dongle's own fifteen goes to it as the host sent it; any other request goes to the first row that carries its command, and is answered as unknown exactly if none does. |
| KsReceiver.Receiver.BuildFrame | main/comm/cdc/cdc_binary_protocol.c:366-374 | The frame rebuilt byte by byte in the static buffer is the one that carries the waiting request; the rest of the buffer is untouched. |
| KsReceiver.Receiver.ProcessOne | main/comm/cdc/cdc_binary_protocol.c:342-395 | The dispatcher's turn: the waiting request goes to its handler, to the bridge if the command is not one a dongle answers itself, or is answered as unknown; the slot is free after. |
| KsReceiver.Receiver.Reset | main/comm/cdc/cdc_binary_protocol.c:207-215 | Gives up the frame being assembled and the waiting request. |
| KsReceiver.ControlOfByte | main/comm/cdc/cdc_binary_protocol.c:219-240 | A call gives its bytes back to the text assembler exactly on a byte that is neither consumed nor after a confirmed frame start. |
| KsHandoff.StepKeepsInv | main/comm/cdc/cdc_binary_protocol.c:198-215 | Each single memory access of the USB callback or the dispatcher keeps the hand-off invariant. |
| KsHandoff.HandlersSeeCheckedRequests | main/comm/cdc/cdc_binary_protocol.c:198-395 | In every interleaving handlers see exactly the handed-over requests, in order and once each, and each of them passed its checksum. |
| KsHandoff.SlotIsStable | main/comm/cdc/cdc_binary_protocol.c:342-395 | From any reachable state, no sequence of steps changes what a running handler sees until it returns, although it reads the slot without the lock. |
| KsResponse.Responder.Append | main/comm/cdc/cdc_binary_protocol.c:36-46 | The capture buffer takes what fits and drops the rest. |
| KsResponse.Responder.Respond | main/comm/cdc/cdc_binary_protocol.c:108-129 | Header, payload and checksum go to USB or to the capture buffer. |
| KsResponse.ReplyOnWire | main/comm/cdc/cdc_binary_protocol.c:108-129 | What the host finds in a reply: 4B 52, the command, the status, the length with its low byte first, the payload and its checksum. |
| KsResponse.Responder.StreamBegin | main/comm/cdc/cdc_binary_protocol.c:145-158 | Sends the header with the announced length and starts a new checksum. |
| KsResponse.Responder.StreamWrite | main/comm/cdc/cdc_binary_protocol.c:160-173 | Sends the piece and runs it through the checksum. |
| KsResponse.Responder.StreamEnd | main/comm/cdc/cdc_binary_protocol.c:175-183 | Sends the running checksum. |
| KsResponse.SentTwice | main/comm/cdc/cdc_binary_protocol.c:26-59 | Two writes leave what one write of both leaves, also when the capture buffer overflows between them. |
| KsResponse.StreamingIsOneShot | main/comm/cdc/cdc_binary_protocol.c:108-183 | A response streamed in any pieces leaves the same bytes as the one-shot response, on USB and in the capture buffer. |
| Bigrams.SelectCached | main/comm/cdc/cdc_binary_cmds.c:832-853 | The selection with a remembered minimum fills the table as a selection that searches the minimum each time. |
| Bigrams.OfferCached | main/comm/cdc/cdc_binary_cmds.c:836-852 | One counter offered to the table; the remembered minimum stays the smallest count in it. |
| Bigrams.SelectUncached | main/comm/cdc/cdc_binary_cmds.c:438-455 | The text variant selects the same way, searching for every counter. |
| Bigrams.SelectIsTop | main/comm/cdc/cdc_binary_cmds.c:832-853 | The selected cells are distinct and nonzero, none omitted exceeds any included one, and none is omitted while there is room. |
| Bigrams.AllFit | main/comm/cdc/cdc_binary_cmds.c:832-853 | With room for all, exactly the nonzero cells are selected, in row-major order. |
| Bigrams.InsertInPlace | main/comm/cdc/cdc_binary_cmds.c:855-858 | One step of the insertion sort: shifts the smaller entries and drops the new one into the hole. |
| Bigrams.SortInPlace | main/comm/cdc/cdc_binary_cmds.c:854-858 | The insertion sort on the array sorts its first n entries and leaves the rest alone. |
| Bigrams.SortSorts | main/comm/cdc/cdc_binary_cmds.c:854-858 | The result is descending and a permutation. |
| Bigrams.SortIsStable | main/comm/cdc/cdc_binary_cmds.c:854-858 | Pairs that occur equally often keep their order. |
| Bigrams.EqualNeverDisplaces | main/comm/cdc/cdc_binary_cmds.c:836-849 | In a full table a pair replaces another only if it occurs more often. |
| Bigrams.ReplyIsTopDescending | main/comm/cdc/cdc_binary_cmds.c:822-873 | The reply lists distinct nonzero cells of the counter grid in descending order, the largest there are, and all of them when they fit. |
| Bigrams.DeclaredLengthIsExact | main/comm/cdc/cdc_binary_cmds.c:860-872 | The length announced before streaming is the number of bytes streamed, so the reply equals a one-shot response. |
| Bigrams.HostReadsPairs | main/comm/cdc/cdc_binary_cmds.c:867-871 | The host reads the pairs back from the reply, four bytes each with the low byte of the count first. |
| MatrixHandoff.StepKeepsInv | main/input/matrix_flag.h:8-30 | Each single byte access of the scan callback or the keyboard loop keeps the hand-off invariant. |
| MatrixHandoff.NothingIsLost | main/input/matrix_flag.h:35-61 | In every interleaving, when the flag is clear and both sides rest, the consumer's snapshot equals the press arrays: no lost or torn final state, the conceded race included. |
| MatrixHandoff.CatchesUp | main/input/matrix_flag.h:48-61 | Once the callback rests, the keyboard loop alone brings the snapshot up to date within 2n + 4 accesses. |
| MatrixHandoff.ReadFirstLoses | main/input/matrix_flag.h:13-22 | With the order it replaced, reading before clearing, there is a run in which a changed cell is lost for good. |
| MatrixScan.Scanner.Publish | main/input/matrix_scan.c:165-190 | The first six keys inside the matrix, in press order, the rest blank, and how many of them are newly pressed. |
| MatrixScan.InGridIsFilter | main/input/matrix_scan.c:165-190 | What is published are the reported keys inside the matrix, in the order of the report, none left out. |
| MatrixScan.CountsNewKeys | main/input/matrix_scan.c:165-190 | The number newly pressed counts the published keys that were not pressed before. |
| MatrixScan.Scanner.Callback | main/input/matrix_scan.c:91-215 | The scan callback: the transmitting half sends its keys whenever they changed; in test mode, until 30 s without a change, changes only go to the host; otherwise the keys are published, the remote half is merged in and the number of local keys noted on builds that have both a remote half and a display, and the signal comes last. |
| MatrixScan.Scanner.Pack | main/input/matrix_scan.c:128-133 | The bitmap that is sent reads back, cell by cell, as exactly the keys of this half. |
| HalfBitmap.Press | main/comm/rf/rf_packet.h:282-295 | Setting one cell of the bitmap sets exactly that cell. |
| HalfBitmap.RowsOnWire | main/comm/rf/rf_packet.h:282-295 | Where each row starts and ends in the four bytes, seven bits to a row, the highest bit first. |
| MatrixScan.ChangesAreDifferences | main/input/matrix_scan.c:145-156 | The changes told to the host in test mode are exactly the cells whose level differs, with their new level. |
| MatrixScan.Scanner.ApplyRemote | main/input/matrix_scan.c:63-79 | Rebuilds everything past the local keys from the remote half, in row-major order, up to six keys in all; the local keys stay. |
| MatrixScan.RemoteInOrder | main/input/matrix_scan.c:63-79 | The merged keys are exactly the remote half's inside the matrix, each shown one half's columns further, in row-major order and once each. |
| MatrixScan.Scanner.Take | main/input/matrix_flag.h:56-61 | Test and clear in one call. |
| MatrixScan.RemoteGrows | main/input/matrix_scan.c:63-79 | The remote keys up to a cell are a prefix of those up to any later cell. |
| MatrixMerge.ExecKeepsInv | main/input/matrix_scan.c:63-79 | On either build, with or without a display, every interleaving of callbacks and single writes of the merge keeps the bounds of the merge, and the number it is told: that of the local keys with a display, 0 without. |
| MatrixMerge.ShownIffKept | main/input/matrix_scan.c:49-79 | In every interleaving on either build: when the merge at hand ends, the local keys are shown if and only if the last callback came in time and, without a display, no merge has begun since while they were held. |
| MatrixMerge.LateCallback | main/input/keyboard_task.c:62-74 | A callback at any point of a merge: when the merge ends its local keys are shown if and only if it came in time, a condition on their number, where the merge stands and whether it still has keys to write. |
| MatrixMerge.MergeAlone | main/input/keyboard_task.c:62-74 | With a display, a merge left alone lists the local keys and then the remote ones, six in all. |
| MatrixMerge.MergeWithoutDisplay | main/input/keyboard_task.c:62-74 | Without a display, a merge left alone lists the remote keys only, and the local ones are shown if and only if none are held. |
| MatrixMerge.CallbackListsBoth | main/input/matrix_scan.c:199-203 | The callback lists both halves if and only if the build has a display, or there is nothing or no room to add. |
| MatrixMerge.LocalKeysStay | main/input/matrix_scan.c:63-79 | With a display, in every interleaving in which no callback finds more local keys than the merge in progress has read, the local keys are shown throughout. |
| MatrixMerge.LostUntilCallback | main/input/matrix_scan.c:63-79 | On either build, local keys once lost are not shown again in any run without another callback. |
| MatrixMerge.KeyIsLost | main/input/keyboard_task.c:62-74 | With a display, a key pressed right after the merge has read the number of local keys is wiped from rest. |
| MatrixMerge.KeyIsWiped | main/input/keyboard_task.c:62-74 | Without a display, a key held is wiped by the next remote change, with no race. |
| Debounce.CounterFollowsRun | components/espressif__keyboard_button/keyboard_button.c:110-141 | At every time the counter of a cell is the length of the longest run of disagreeing reads, ending now, over which the level stood still. |
| Debounce.FlipsAfterStableDisagreement | components/espressif__keyboard_button/keyboard_button.c:110-141 | For thresholds 1 to 255 a cell flips exactly when the last `ticks` reads all disagreed with a level that stood still meanwhile. |
| Debounce.LargeThresholdFreezes | components/espressif__keyboard_button/keyboard_button.c:110-114 | With a threshold above 255 no cell is ever pressed. |
| Debounce.VisitKeepsListed | components/espressif__keyboard_button/keyboard_button.c:110-141 | Reading one cell keeps the list of pressed keys equal to the cells at level 1, each once. |
| Debounce.OneScan | components/espressif__keyboard_button/keyboard_button.c:91-144 | After a scan the held keys keep their order, the newly pressed follow in scan order, and the release list is exactly the cells that dropped in this scan. |
| Debounce.EveryRun | components/espressif__keyboard_button/keyboard_button.c:91-144 | In every run of scans the list holds each cell at level 1 exactly once, in press order (the scan in which its own reads last brought it up, then its place in the grid), and each cell has the level its own reads give it. |
| KeyboardButton.Keyboard.Shift | components/espressif__keyboard_button/keyboard_button.c:124-130 | Moves the later entries forward over the removed one, reading one entry past the last. |
| KeyboardButton.Keyboard.Forget | components/espressif__keyboard_button/keyboard_button.c:123-132 | Removes one key from the compact array, the order of the others kept. |
| KeyboardButton.Keyboard.ReadCell | components/espressif__keyboard_button/keyboard_button.c:107-141 | One cell on the arrays: counter, level, press list and release list. |
| KeyboardButton.Keyboard.Handler | components/espressif__keyboard_button/keyboard_button.c:78-144 | The nested scan loops perform one scan, keep the list and the levels in agreement, tell whether any level flipped, and clear the power-save flag exactly when a cell was not read as it stood. |
| KeyboardButton.Keyboard.Combinations | components/espressif__keyboard_button/keyboard_button.c:160-181 | The combinations called are exactly those whose keys are the pressed ones, in the same order. |
| KeyboardButton.MatchingMeans | components/espressif__keyboard_button/keyboard_button.c:160-181 | A combination is called exactly if it is the list of pressed keys, each once and in the order of registration. |
| KeyboardButton.Keyboard.Period | components/espressif__keyboard_button/keyboard_button.c:146-221 | One timer period: the report listeners get exactly when a level flipped, with the keys pressed, those released and the change of their number; the combinations, exactly when a key was pressed; and when the matrix is put to sleep. |
| KeyboardButton.PressesCounted | components/espressif__keyboard_button/keyboard_button.c:115-137 | In every scan the list of pressed keys grows by exactly the cells newly pressed and shrinks by exactly those released. |
| TapHold.TopIsLast | main/input/tap_hold.c:60-87 | The held layer key with the largest sequence number in the unordered table is the top of the stack. |
| TapHold.ActivatePushes | main/input/tap_hold.c:89-107 | Activating a layer key pushes it on the stack of held layers, unless the counter wraps while another one is held. |
| TapHold.DeactivatePops | main/input/tap_hold.c:109-126 | Releasing a layer key takes it out of the stack, wherever it is. |
| TapHold.LayoutIsTopOfStack | main/input/tap_hold.c:60-201 | In any order of presses, releases, timeouts and interrupts in which the counter does not wrap while a layer key is held, the layout in force is the layer of the most recently activated layer key still held, and the one before the first when none is held; layers out of range never count. |
| TapHold.ActivationTakesOver | main/input/tap_hold.c:89-107 | A newly activated layer key takes over if and only if the sequence number does not wrap while another one is held, or both name one layer, or the wrap ties with a held key numbered 0 in a later slot. |
| TapHoldLimits.FewActivationsSuffice | main/input/tap_hold.c:89-107 | Every run with fewer than 2^32 activations of layer keys, however many ticks and other keys it has, keeps the order the stack needs. |
| TapHoldLimits.WrappedRunFails | main/input/tap_hold.c:89-107 | A run that fails: after 2^32 - 2 layer keys one is held with the last number and another activated above it, and the first one's layer stays in force. |
| TapHoldLimits.BaseIsSigned | main/input/tap_hold.c:75-100 | After a layer key was held and released the layout before it is back if and only if it was below 128: the remembered base is a signed byte. |
| TapHoldMods.MaskIsUnion | main/input/tap_hold.c:89-126 | In every run the active mask is the union of the held keys' modifiers after every event if and only if no key is released while it shares a modifier with another one held. |
| TapHoldMods.ExactStep | main/input/tap_hold.c:89-201 | One event from an exact mask leaves it exact unless it releases a key that shares a modifier with another one held, and only then. |
| TapHoldMods.SharedModifierIsLost | main/input/tap_hold.c:109-124 | The run that fails: two keys for the same modifier are held, the first is released, and the modifier is gone although the second is still held. |
| TapHoldEngine.TapHolder.RecomputeLayer | main/input/tap_hold.c:60-87 | The search over the slots, with the base remembered and restored, and the change of layer notified. |
| TapHoldEngine.TapHolder.ActivateHold | main/input/tap_hold.c:89-107 | In place: mode, modifiers, sequence number, layer. |
| TapHoldEngine.TapHolder.DeactivateHold | main/input/tap_hold.c:109-126 | In place: slot freed, modifiers cleared, layer recomputed. |
| TapHoldEngine.TapHolder.OnPress | main/input/tap_hold.c:139-160 | A key the engine tracks takes the first free slot; with none free it is not absorbed. |
| TapHoldEngine.TapHolder.OnRelease | main/input/tap_hold.c:162-175 | In place: a pending key becomes a tap, a held one is deactivated, a tap not yet taken is given up; TapHoldFate says what comes of it. |
| TapHoldEngine.TapHolder.Tick | main/input/tap_hold.c:177-188 | Every pending key past its timeout becomes a hold, in slot order, and the flag for the key processor is set exactly if there was one. |
| TapHoldEngine.TapHolder.InterruptPending | main/input/tap_hold.c:195-201 | Every pending key becomes a hold at once, in slot order. |
| TapHoldEngine.TapHolder.ConsumeTap | main/input/tap_hold.c:217-234 | Hands over the next tap, arming the one-shot modifiers met on the way. |
| TapHoldTaps.ConsumeTakes | main/input/tap_hold.c:217-234 | One call hands over the first tap with a key and arms the one-shot modifiers before it; all of these are gone afterwards. |
| TapHoldTaps.LoopHandsOver | main/input/tap_hold.c:217-234 | The caller's loop hands over every key exactly once in slot order and arms every one-shot modifier, up to the first tap whose key is 0; the taps after that one are left. |
| TapHoldTaps.NothingIsLeft | main/input/key_processor.c:448-465 | The loop leaves no tap behind if and only if no tap with key 0 comes before another tap. |
| TapHoldTaps.ConsumeAll | main/input/key_processor.c:448-465 | The loop itself, on the slots, hands over what LoopHandsOver says. |
| TapHoldFate.KeysAreAccountedFor | main/input/tap_hold.c:139-234 | In every run: the taps handed over, those waiting and those given up by a second release are together, each once, exactly the keys the engine began to track whose release came before any trigger that was due; and the undecided and the held keys are exactly those whose own events say so. |
| TapHoldFate.OutputsAreTaps | main/input/tap_hold.c:217-234 | In every run the keys returned and the one-shot modifiers armed are, in order, exactly what the taps handed over type and arm. |
| TapHoldFate.ShortPressTypes | main/input/tap_hold.c:139-234 | A layer or modifier key released before any trigger is due and then asked for types its low byte, whatever its keycode. |
| TapHoldFate.PressAbsorbs | main/input/tap_hold.c:139-160 | A press is absorbed exactly if the engine takes its keycode, and tracks its place already or has a slot free. |
| TapHoldFate.KeycodeParts | main/input/key_definitions.h:369-441 | How layer, modifiers and key are read from a keycode of each of the three kinds. |
| Leader.NeverEarly | main/input/leader.c:31-148 | For every table and every configured sequence, typing a proper prefix of it without a pause never resolves, not even to a shorter entry. |
| Leader.PauseResolves | main/input/leader.c:60-148 | Typed to the end and followed by a pause, it yields the lowest-numbered entry with exactly that sequence. |
| Leader.ResolvedWasTyped | main/input/leader.c:60-148 | In any session whatever resolves is the lowest-numbered entry spelling exactly the keys absorbed. |
| Leader.TypingProgresses | main/input/leader.c:111-133 | While a prefix of a configured sequence is typed without a pause, the buffer holds exactly the keys typed. |
| Leader.KeyAnswers | main/input/leader.c:42-133 | What a key does in any session: up to four are absorbed; each resolves exactly if it completes an entry and no entry continues what was typed; a fifth ends the session without a result. |
| Leader.TickAnswers | main/input/leader.c:135-148 | What a tick does in any session: nothing within 1000 ms of the last key; after that the session ends, with a result exactly if some entry is the keys absorbed. |
| Leader.TimedFromLastKey | main/input/leader.c:111-148 | An active session is timed from its last key. |
| LeaderKey.Matcher.SeqLen | main/input/leader.c:31-37 | The length of an entry up to its first 0. |
| LeaderKey.Matcher.BufferIsPrefixOfLonger | main/input/leader.c:42-54 | Whether some entry continues what was typed. |
| LeaderKey.Matcher.Match | main/input/leader.c:60-81 | The matching loops resolve to the first entry that matches, unless a longer one may still come. |
| LeaderKey.Matcher.FeedKey | main/input/leader.c:119-133 | One key on the statics. |
| LeaderKey.Matcher.Beat | main/input/leader.c:135-148 | One tick on the statics, the timeout measured modulo 2^32. |
| LeaderKey.Matcher.Consume | main/input/leader.c:150-158 | Hands over the result and forgets it. |
| MouseFilter.SpotFilter.Pass | main/app/mouse_task.c:114-133 | One sample on the statics of the isolated-sample filter. |
| MouseFilter.OnlyIsolatedSamplesAreDropped | main/app/mouse_task.c:92-133 | In any stream every sample comes out unchanged one step later, except exactly those that move while neither neighbour does. |
| MouseFilter.Smoother.Smooth | main/app/mouse_task.c:158-188 | One sample on the statics of the smoothing filter, with C's truncating divisions. |
| MouseFilter.PullIsWeighted | main/app/mouse_task.c:174-175 | The state moves by alpha 256ths of its distance from the sample, truncated toward zero. |
| MouseFilter.WeightOfSample | main/app/mouse_task.c:158-172 | Alpha rises from 38 to 256 in eighths, one for each count the sample moves on both axes together, and stays there. |
| MouseFilter.PullIsBetween | main/app/mouse_task.c:158-175 | Along each axis the new state lies between the old one and the sample, and equals the sample when the two axes together move 8 counts or more. |
| MouseFilter.RoundingLosesNothing | main/app/mouse_task.c:152-182 | 256 times all output plus the remainder equals the sum of all states, and the remainder stays under one count. |
| MouseFilter.OverflowBound | main/app/mouse_task.c:174-182 | For samples within [lo, hi], every run stays within int32 and int16 if and only if hi - lo is at most 32767. |
| MouseFilter.SettlesAtSix | main/app/mouse_task.c:174-175 | Without motion the state keeps its sign and shrinks by at least one per sample until it stops at 6 (or -6) from outside, and where it is inside. |
| MouseFilter.RestsOnlyAtZero | main/app/mouse_task.c:142-145 | Without motion the total output stays bounded if and only if the state is 0: otherwise the pointer drifts without end. |
| MouseFilter.OneCountDrifts | main/app/mouse_task.c:142-145 | A single count moved from rest leaves a state of 65, so the pointer drifts. |
| MouseEmitter.Emitter.Emit | main/app/mouse_task.c:304-341 | One scan of the emission block on its accumulators: saturated frame, counts given back when it is refused, counters. |
| MouseEmitter.NothingIsLost | main/app/mouse_task.c:284-340 | Over any run and any refusals, what came in along each way equals what the received frames carry and what still waits. |
| MouseEmitter.WheelIsFollowed | main/app/mouse_task.c:305-307 | The wheel position accounted for is that of the last active scan. |
| MouseEmitter.EmptyAfterCeiling | main/app/mouse_task.c:309-318 | Without new motion a way is empty after exactly as many received frames as its counts, taken 127 at a time, need. |
| MouseEmitter.EveryAckDrains | main/app/mouse_task.c:309-340 | Every active, acknowledged scan takes its 127 counts while any are left, whatever is refused in between. |
| MouseEmitter.HostKnowsTheButtons | main/app/mouse_task.c:320-340 | The host holds the buttons last acknowledged, and after an acknowledged scan the current ones. |
| Ccid.StepKeepsInv | main/security/ccid.c:179-549 | Each step of the USB stack, the worker or the callback queue keeps the protocol invariant. |
| Ccid.AnswersMatchMessages | main/security/ccid.c:179-284 | In every run messages are answered in order, at most once each, with their own slot and sequence number; a time extension carries those of the message being served. |
| Ccid.PrimedOnlyWhenAnswered | main/security/ccid.c:505-549 | OUT is armed only when every answer and its terminating empty packet have left and the worker owns nothing; each arming is paid for by one delivered answer or one runt. |
| Ccid.TransfersAreExclusive | main/security/ccid.c:179-229 | In no run does the stack ever refuse a transfer because its endpoint is busy, IN or OUT; the end of a time-extension frame never arms OUT. |
| Ccid.DeferredCalls | main/security/ccid.c:179-229 | What a deferred call does in any run: a time extension for the newest message, skipped while the endpoint is busy; the answer to the newest message, put off up to 200 times while it is busy, and given up the next time. |
| Ccid.HowAnswersEnd | main/security/ccid.c:505-549 | In any run a transfer of full packets only is followed by an empty one, and any other end of an answer arms OUT for the next message. |
| Ccid.RuntsAreNotAnswered | main/security/ccid.c:375-385 | In any run a runt changes nothing but that OUT is armed again. |
| Ccid.AbandonedIsForever | main/security/ccid.c:221-224 | Once an answer was abandoned after 200 retries, OUT is never armed again. |
| Ccid.CanFinish | main/security/ccid.c:179-549 | From every reachable state without an abandoned answer some schedule gets every message answered and OUT armed. |
| CcidDriver.Driver.FillHeader | main/security/ccid.c:140-154 | The ten header bytes, the rest of the buffer untouched. |
| CcidDriver.FramesOnWire | main/security/ccid.c:140-200 | The bytes of a data block, of a slot status and of a time extension, the length in the first two of four bytes, low byte first. |
| CcidDriver.Driver.OutComplete | main/security/ccid.c:375-440 | A bulk OUT transfer: runts re-arm OUT only when idle, the declared length is clamped to what arrived, other messages are answered inline. |
| CcidDriver.Driver.Request | main/security/ccid.c:240-249 | The applet is given exactly the bytes the clamped length in the OUT buffer announces. |
| CcidDriver.Driver.Process | main/security/ccid.c:249-273 | The answer goes behind a header addressed to the current message, and its sending is deferred. |
| CcidDriver.Driver.SendWtxCallback | main/security/ccid.c:179-200 | A time-extension frame for the current message, skipped when the endpoint is busy or closed. |
| CcidDriver.Driver.SendFinalCallback | main/security/ccid.c:206-229 | Sends the answer, defers itself while the endpoint is busy, up to 200 times, and drops the answer when the endpoint is closed. |
| CcidDriver.Driver.InCompleted | main/security/ccid.c:516-546 | After an answer of a multiple of 64 bytes an empty packet, and only then OUT again; at once if the stack refuses that packet. |
| Tlv.Append | main/security/openpgp_card.c:172-202 | Writes tag, length in the short or the 0x81 form, and value (zeros for a null pointer) at the offset and nothing else; 0 and an untouched buffer when it does not fit. |
| Tlv.ObjectOnWire | main/security/openpgp_card.c:172-202 | The bytes of an object: one or two of tag, the length in the short or the 0x81 form, and the value. |
| Tlv.AppendedLast | main/security/openpgp_card.c:172-202 | Appending one more object to an encoded list gives the encoding of the longer list, so a chain of successful appends builds exactly that encoding. |
| Tlv.Find | main/security/openpgp_card.c:269-315 | The search loop returns the place the finder function defines. |
| Tlv.ReadsBackAll | main/security/openpgp_card.c:172-363 | The iterator reads back exactly the objects encoded, for one- and two-byte tags and all three forms of the length. |
| Tlv.FindsFirst | main/security/openpgp_card.c:172-315 | The finder returns the first value under a tag, and nothing exactly when no object carries it. |
| Tlv.FindIsFirstSibling | main/security/openpgp_card.c:269-363 | On any bytes at all, well formed or not, the finder returns the first of the siblings the iterator enumerates. |
| Tlv.OnlyProperTagsAreFound | main/security/openpgp_card.c:269-315 | An object written under a malformed tag is never found. |
| DoStore.ContentsByIndex | main/security/openpgp_do.c:16-22 | Every used slot is found in the map the table stands for, and every entry of the map comes from a used slot. |
| DoStore.ContentsSize | main/security/openpgp_do.c:24-32 | The map is full exactly when every slot is used. |
| DoStore.ContentsAfterPut | main/security/openpgp_do.c:34-45 | Overwriting the slot of a tag, or filling a free one, updates exactly that tag in the map. |
| DoStore.Store.PutObject | main/security/openpgp_do.c:34-45 | Behaves as a write to a bounded map: refused when too long or when a new tag finds the table full; true only if flash kept it. |
| DoStore.Store.GetObject | main/security/openpgp_do.c:47-54 | Behaves as a lookup in the map. |
| DoStore.Store.Reset | main/security/openpgp_do.c:56-59 | Empties the map. |
| OpenPgpRuns.ProcessEffect | main/security/openpgp_card.c:576-1230 | Every command, whatever its bytes, moves the verified flags, retry counters and signature counter only as its event says. |
| OpenPgpRuns.OperationsFollowVerify | main/security/openpgp_card.c:594-722 | In every run from a factory reset, every signature, decryption, authentication, object write and key write follows a successful VERIFY of its PIN mode with no SELECT, PIN change or reset in between (for signatures, no single-use signature either). |
| OpenPgpRuns.OneSignaturePerVerify | main/security/openpgp_card.c:1079-1141 | While the stored C4 byte is not 1, two signature attempts have a successful VERIFY 81 between them. |
| OpenPgpRuns.CounterCountsSignatures | main/security/openpgp_card.c:1125-1138 | If no PUT DATA wrote it, object 93 counts the successful signatures since the signature key was last set or the card reset, modulo 2^24. |
| OpenPgpRuns.ThreeTries | main/security/openpgp_card.c:649-655 | At most three wrong PINs in a row are compared; after the third the PIN is not compared again until a reset. |
| OpenPgpRuns.AuthorisedByVerify | main/security/openpgp_card.c:657-667 | A mode is authorised exactly if the last successful VERIFY of it was followed by nothing that ends it. |
| OpenPgpRuns.FactoryCounter | main/security/openpgp_card.c:449-526 | After a factory reset the signature counter is present and reads 0. |
| OpenPgpRuns.EnsureAdds | main/security/openpgp_card.c:449-494 | Populating the defaults gives an absent object its default value if and only if the table has room for it and the absent ones before it. |
| OpenPgpRuns.EnsureFull | main/security/openpgp_card.c:449-494 | A full table stays as it is. |
| OpenPgpRuns.EnsureKeeps | main/security/openpgp_card.c:449-494 | Populating the defaults leaves present objects alone. |
| OpenPgpRuns.CounterBytesRead | main/security/openpgp_card.c:1130-1137 | The three bytes written for a count read back as that count modulo 2^24. |
| OpenPgpHistory.CardFollows | main/security/openpgp_card.c:576-1230 | In every run from a factory reset the card is what the commands and events before it say: both PINs (the factory PIN, or what the last change put behind the old one), the three keys, the selection, the termination, and every object but the identifier and the counter. |
| OpenPgpHistory.FactoryObjects | main/security/openpgp_card.c:449-526 | After a reset every object but the identifier has its default, and no other is present. |
| OpenPgpHistory.SerialIsInAid | main/security/openpgp_card.c:496-548 | After a reset the application identifier carries the serial number of the device. |
| OpenPgpAnswers.OnlyThePinIsAccepted | main/security/openpgp_card.c:631-667 | In every run from a factory reset, VERIFY accepted only data equal to the PIN in force then: the factory PIN, or what the last change put behind the old one. |
| OpenPgpAnswers.ThePinIsAccepted | main/security/openpgp_card.c:631-667 | Conversely, in every run VERIFY with the PIN in force is accepted while tries are left, and any other data that is not empty costs a try. |
| OpenPgpAnswers.VerifyAnswers | main/security/openpgp_card.c:631-667 | The answer of VERIFY in any run, from its history: which PIN it compares with, how many tries are left, and every status word. |
| OpenPgpAnswers.ChangeAnswers | main/security/openpgp_card.c:669-722 | The answer of CHANGE REFERENCE DATA in any run: the PIN in force with 6 (or 8) to 16 bytes behind it is taken, any other data of a fitting length costs a try. |
| OpenPgpAnswers.AcceptedByVerify | main/security/openpgp_card.c:631-722 | In every run PINs are accepted, changed and refused by these two commands only, and as the PIN in force says. |
| OpenPgpAnswers.SignAnswers | main/security/openpgp_card.c:1078-1141 | PSO:CDS in any run: which checks refuse it, in which order, that it signs the 20 to 64 bytes given with the signature key last stored, and whether it uses the authorisation up. |
| OpenPgpAnswers.DecipherAnswers | main/security/openpgp_card.c:1036-1076 | PSO:DECIPHER in any run: the 32-byte point inside A6, 7F49, 86, with or without a leading 40, goes to the decryption key last stored, if that is for ECDH. |
| OpenPgpAnswers.AuthenticateAnswers | main/security/openpgp_card.c:1143-1172 | INTERNAL AUTHENTICATE in any run signs 1 to 64 bytes with the authentication key last stored, if that is for ECDSA. |
| OpenPgpAnswers.ImportAnswers | main/security/openpgp_card.c:927-1032 | Key import in any run: what refuses it, and that it stores the scalar found, for the slot found, with the algorithm its attribute says. |
| OpenPgpAnswers.GenerateAnswers | main/security/openpgp_card.c:1174-1227 | Generating a key or reading its public part in any run, for the slot that the control reference names. |
| OpenPgpAnswers.PutAnswers | main/security/openpgp_card.c:861-925 | PUT DATA in any run: an object takes exactly the data; a slice is one third of its composite, whose other two thirds stay as they were, or are zero when there was none. |
| OpenPgpAnswers.GetAnswers | main/security/openpgp_card.c:812-859 | GET DATA of one object in any run answers what was stored under its tag last (for the identifier and the counter, what is stored now), and the PIN status and the key information with what is in force. |
| OpenPgpAnswers.SelectAnswers | main/security/openpgp_card.c:593-605 | SELECT in any run, by the six bytes of the AID prefix. |
| OpenPgpAnswers.CycleAnswers | main/security/openpgp_card.c:576-622 | TERMINATE DF, ACTIVATE FILE and any command on a terminated or unselected card, in any run. |
| OpenPgpAnswers.AfterReset | main/security/openpgp_card.c:496-526 | After a reset there is no key, no authorisation and no selection, both PINs are the factory ones with three tries, and the objects are the defaults. |
| OpenPgpApplet.PinEqual | main/security/openpgp_card.c:557-570 | The comparison without early exit is exactly equality of the two PINs, for any lengths. |
| OpenPgpApplet.Applet.SelectFile | main/security/openpgp_card.c:593-605 | SELECT clears every verified flag; a wrong AID or P1 changes nothing. |
| OpenPgpApplet.Applet.VerifyPin | main/security/openpgp_card.c:631-667 | VERIFY in place: retry counter down on a wrong PIN, up and flag set on the right one (OpenPgpAnswers.VerifyAnswers says which that is); the counters in the flash are those in force, and a routine success writes nothing. |
| OpenPgpApplet.Applet.ChangeReference | main/security/openpgp_card.c:669-722 | CHANGE REFERENCE DATA on the PIN buffers: malformed frames cost no retry, a change takes back what the old PIN had opened, and the flash keeps what is in force. |
| OpenPgpApplet.Applet.FactoryWipe | main/security/openpgp_card.c:496-526 | Flags, keys, objects, PINs and counters go back to the factory state in any case, the device serial re-applied; true exactly if the flash kept all of it. |
| OpenPgpApplet.Applet.TerminateDf | main/security/openpgp_card.c:607-622 | TERMINATE needs the admin PIN, or both PINs blocked. |
| OpenPgpApplet.Applet.EnsureDefaults | main/security/openpgp_card.c:449-477 | Each default object is written exactly when absent; true exactly if every such write was kept. |
| OpenPgpApplet.Applet.PutDataObject | main/security/openpgp_card.c:861-925 | PUT DATA with its slices, its C4 byte and its refused algorithm attributes. |
| OpenPgpApplet.Applet.LocateScalar | main/security/openpgp_card.c:964-991 | The walk over the key template finds element 92 and its offset in the key material. |
| OpenPgpApplet.Applet.ExtractScalar | main/security/openpgp_card.c:959-1016 | The scalar of an extended header list, left-padded, as OpenPgpWire.ScalarRecovered describes it; the all-zero scalar is refused. |
| OpenPgpApplet.Applet.Import | main/security/openpgp_card.c:927-1032 | Key import in place; a key the flash refuses is scrubbed, a new signature key resets the counter. |
| OpenPgpApplet.Applet.Signature | main/security/openpgp_card.c:1078-1141 | PSO:CDS in place: the authorisation goes before the attempt, the counter moves after a success. |
| OpenPgpApplet.Applet.DecipherPoint | main/security/openpgp_card.c:1036-1076 | PSO:DECIPHER checks, and the bytes it answers; it changes nothing. |
| OpenPgpApplet.Applet.InternalAuthenticate | main/security/openpgp_card.c:1143-1172 | INTERNAL AUTHENTICATE checks, and the bytes it answers; it changes nothing. |
| OpenPgpApplet.Applet.Generate | main/security/openpgp_card.c:1174-1227 | Key generation and public-key reading. |
| OpenPgpApplet.Applet.BuildPublicKey | main/security/openpgp_card.c:401-426 | The nested 7F49 template built in two buffers is the encoding of the public key. |
| OpenPgpApplet.Applet.GetDataObject | main/security/openpgp_card.c:724-859 | GET DATA: the composite templates built by successive appends, the live status objects, the stored objects. |
| OpenPgpApplet.Applet.Command | main/security/openpgp_card.c:576-1230 | The dispatcher in place has the status word, answer, event and new state of the command function, and keeps the PINs in the flash equal to those in force. |
| OpenPgpApplet.Applet.Exchange | main/security/openpgp_card.c:576-592 | The entry point from command bytes to response bytes: parsed, dispatched, and the answer cut to the output buffer. |
| ApduParser.ParseInto | main/security/apdu.c:5-86 | The parser on the buffer: accepted exactly as the parsing function says, with its fields; null arguments are refused. |
| ApduParser.FormsParse | main/security/apdu.c:5-86 | Each of the seven forms of a command, short or extended, with or without data and expected length, parses back to its header, data and expected length. |
| ApduParser.AcceptedIsForm | main/security/apdu.c:5-86 | Conversely, whatever the parser accepts is one of these forms. |
| ApduParser.Respond | main/security/openpgp_card.c:151-163 | Data and status word in the output buffer: the data is cut to fit, the status word never. |
| ApduParser.StatusIsRead | main/security/openpgp_card.c:151-163 | What the host reads back: as much of the data as fits, and then the status word, its high byte first. |
| OpenPgpWire.TemplateIsEncoding | main/security/openpgp_card.c:172-202 | A chain of appends of values of at most 255 bytes gives the encoding of the whole list, and fits exactly when that does. |
| OpenPgpWire.TemplateReadsBack | main/security/openpgp_card.c:730-859 | A reader of a template that fits finds exactly its objects. |
| OpenPgpWire.RelatedReadsBack | main/security/openpgp_card.c:747-812 | Whenever GET DATA 6E is answered, the host reads back its three outer objects and, in the template 73 behind them, every discretionary object with its stored or live value. |
| OpenPgpWire.RelatedIsAnswered | main/security/openpgp_card.c:737-812 | GET DATA 6E is answered if and only if the discretionary objects take at most 255 bytes and the whole at most 256, and the answer has exactly that many bytes. |
| OpenPgpWire.FactoryCardAnswers | main/security/openpgp_card.c:737-741 | A freshly reset card answers it with exactly 254 bytes. |
| OpenPgpWire.OthersReadBack | main/security/openpgp_card.c:812-859 | From GET DATA 65 and 7A the host reads back the cardholder's data and the signature counter. |
| OpenPgpWire.ScalarRecovered | main/security/openpgp_card.c:959-1016 | The scalar of an encoded extended header list is recovered, left-padded, wherever it stands in the key material and whatever else the list holds. |
| OpenPgpWire.SlotRecovered | main/security/openpgp_card.c:940-958 | The slot is that of the first control reference template present, in the order B6, B8, A4. |
| OpenPgpWire.ImportStoresScalar | main/security/openpgp_card.c:927-1032 | Round trip of key import, for every slot, every scalar length its algorithm allows, every way the list may be completed and every length the three length forms carry: the slot then holds exactly the scalar sent, left-padded. |
| OpenPgpWire.PlainImport | main/security/openpgp_card.c:927-1032 | The three-object list a host sends imports as its scalar, in each of the three slots. |
| OpenPgpApplet.TemplateStaysFull | main/security/openpgp_card.c:730-734 | A template in which one object does not fit is refused whole. |

## Left out

Admitted bounds of what is proved:

- TapHold.LayoutIsTopOfStack: for a layout below 128 to start from, because the remembered base is a signed byte; `TapHoldLimits.BaseIsSigned` gives what happens from 128 on.
- Debounce.EveryRun: for a grid of at most 256 cells in the arrays (`KeyboardButton`), because the cell index is 8 bits wide; the press array has one spare entry, which the shift reads.
- MouseEmitter.NothingIsLost: the accumulators are unbounded integers; overflow would need 2^31 unsent counts.
- MatrixHandoff.NothingIsLost: one producer, the scan callback; the merge of the remote half is in `MatrixMerge` instead. When a pass reads a cell more than once, its last read counts.
- MatrixMerge.ShownIffKept: the callback runs whole between two writes of the merge, because its task preempts the keyboard loop; the three bytes of a cell are one write; the remote keys a merge writes are those it finds at its start; callbacks in test mode, which touch no key, are not among the steps.
- KsHandoff.HandlersSeeCheckedRequests: `ks_rx_reset` is not among the interleaved steps, since it frees the slot while a handler may run.
- Ccid.AnswersMatchMessages: no USB reset while the worker is busy, the IN endpoint is open, transfers on a free endpoint are accepted, and an IN transfer reports the bytes it sent; the capacity of the deferred-call queue is not modelled. The branches for a closed endpoint and a refused empty packet are in `CcidDriver` only.
- OpenPgpRuns.CounterCountsSignatures: about the state in memory; what a restart after a refused flash write would find is not modelled.
- OpenPgpHistory.CardFollows: not about the identifier 4F and the counter 93, which other lemmas follow (`OpenPgpHistory.SerialIsInAid`, `OpenPgpRuns.CounterCountsSignatures`); a write of 4F by PUT DATA is in `OpenPgpAnswers.PutAnswers` only.
- TapHoldFate.KeysAreAccountedFor: which presses begin a key also depends on whether a slot is free at the time, which `TapHoldFate.PressAbsorbs` says of the engine's slots.
- LinkHandshake.Machine.Advance: the events are inputs; the transport that would produce them from frames is not in the repository.

Parts of the repository that are not modelled:

- The upgrade of an old C2 attribute at boot (main/security/openpgp_card.c:486-491), which a factory reset never meets, and loading the state from flash.
- Signatures, key agreement, key generation, the known-answer tests and the touch confirmation: their outcomes are inputs of the applet.
- What each command handler does, except the bigram replies; the display of the text variant.
- The radio packet around the bitmap, the silence timeout of the receiving half, and statistics and display notifications inside the scan callback.
- The lines, timers and interrupts of power saving: `KeyboardButton` decides when the matrix sleeps.
- Order of HID reports (`hid_report.c`), combos, tap dance, the wheel decoder, the button contacts: smaller members that would add no harder property.
- Board headers, layouts, LED animation, the simulator and everything that draws.
