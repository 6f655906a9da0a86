# FINE transport bring-up for the Renesas RX target

This project models the host side of the FINE debug protocol in OpenOCD's RX
port, together with the RX target driver that holds the negotiated results:

- the big-endian word helpers and the `xfer` callback contract of
  `src/jtag/fine.h`;
- the frame codec of `src/jtag/fine.c`: command frames with their length
  header, 8-bit checksum and 4-byte chunking (`fine_send_cmd`), the
  acknowledgement exchange (`fine_send_cmd_ack`), the status frame
  (`fine_get_status_packet`) and the data frame (`fine_get_data`);
- the bring-up: the start-sequence handshake and chip-ID request
  (`fine_get_chip_id`) and the initialisation with its busy-poll loop
  (`fine_init_chip`);
- the eight negotiation steps that fill the Device Record (device type,
  endianness, frequency, bitrate, sync, serial-protection state, ID-code
  check, memory-area information) and `fine_transport_init`, which runs the
  bring-up and those steps in a fixed order and stops at the first failure;
- `struct rx` / `struct mem_area`, `target_to_rx`, `rx_poll`,
  `rx_target_create` and `rx_init_target` (`src/target/rx.h`, `src/target/rx.c`).

The debug adapter is a scripted transport (`Transport.Link`). Exchange number
k is answered by entry k of a fixed script of replies: an answer's bytes, or
a fault code. Every frame sent is appended to a log. An exhausted script
answers with a fault. Each operation of `fine.c` appears twice:

- A specification function over the replies still pending. It returns
  `Out(ret, sent, val)`: the return code, the exchanges sent and the decoded
  value or updated record.
- An imperative method over the link (and the `Rx` record, a class whose
  fields are updated in place). The method follows the C code loop by loop,
  and its contract is that it returns `ret`, appends exactly `sent` to the
  log and leaves the record equal to `val`.

The properties of the protocol are proved as lemmas about the specification
functions. They include:

- the frame layout and checksum of a command;
- the exact failure rule of `fine_send_cmd`;
- how a status block decodes;
- the length `fine_get_data` reports and where every received byte lands;
- when the handshake and the busy poll succeed, fail or run out of attempts;
- device-side encode/decode round trips for the decoded buffers;
- the order, early exit and area bound of `fine_transport_init`.

Where the code and its documentation disagree, the model follows the code:

- A handshake that matches only on its tenth attempt fails, because the loop
  exit tests the counter rather than the reply (`Bringup.TenthAttemptFails`).
- A device that becomes ready only on the hundredth poll times out
  (`Bringup.HundredthPollFails`).
- `fine_send_cmd` ignores the results of its acknowledgements and final
  frames, and fails only on the header or on a full 4-byte chunk.

## Model

| member | source | states |
|---|---|---|
| `Errors.StrError` | src/jtag/fine.c:181-221 | each of the seventeen device error codes maps to its own text, every other code to "unknown error" |
| `Errors.StrErrorUnknown` | src/jtag/fine.c:218-219 | the generic text is returned exactly for the codes that are not listed |
| `Errors.StrErrorInjective` | src/jtag/fine.c:183-217 | two codes with the same non-generic text are the same code |
| `Errors.StrErrorExamples` | src/jtag/fine.c:206-207 | 0xDB reads "ID code mismatch error"; 0x00 and 0xD3 are unknown |
| `Bytes.BE32` | src/jtag/fine.h:60-67 | the bytes buf_set_u32_be stores are four bytes |
| `Bytes.SetU32BE` | src/jtag/fine.h:60-67 | writing a word changes bytes o..o+3 to its big-endian bytes and no other byte |
| `Bytes.SetU32BEInPlace` | src/jtag/fine.h:60-67 | the in-place store leaves the array equal to SetU32BE of its old contents |
| `Bytes.ReadAfterWrite` | src/jtag/fine.h:54-67 | buf_get_u32_be reads back the value buf_set_u32_be wrote |
| `Bytes.ReadPastWrite` | src/jtag/fine.h:54-67 | a write at a disjoint offset does not change the word read |
| `Bytes.WriteBackUnchanged` | src/jtag/fine.h:54-67 | writing back the word just read leaves the buffer unchanged |
| `Bytes.GetU32BEInjective` | src/jtag/fine.h:54-58 | two words read equal exactly when their four bytes are equal |
| `Bytes.Join32` | src/jtag/fine.h:54-58 | the word built from four bytes is below 2^32 and splits back into the same bytes |
| `Transport.Link.constructor` | src/jtag/fine.h:38-49 | a link starts with the given script and an empty log |
| `Transport.Link.Xfer` | src/jtag/fine.h:38-49 | one exchange is logged; the result is 0 exactly on an answer, and the in_cnt bytes are the answer cut or zero-padded |
| `Transport.XferRet` | src/jtag/fine.h:38-49 | xfer returns ERROR_OK exactly when the device answered |
| `Transport.XferIn` | src/jtag/fine.h:38-49 | xfer delivers exactly in_cnt bytes, the answer's bytes when there is one |
| `Transport.FitIndex` | src/jtag/fine.h:38-49 | byte i received is the answer's byte i, or 0 past its end |
| `Codec.AckSpec` | src/jtag/fine.c:347-363 | one acknowledgement request; OK exactly when it is answered with {0, 0}, else ERROR_FAIL |
| `Codec.SendCmdAck` | src/jtag/fine.c:347-363 | the method returns AckSpec's result and logs its one exchange |
| `Codec.Header` | src/jtag/fine.c:372-376 | the header frame is five bytes |
| `Codec.Checksum` | src/jtag/fine.c:378-383 | header bytes 2..4, the payload and the checksum sum to 0 modulo 256 |
| `Codec.ModComplement` | src/jtag/fine.c:383 | `~crc + 1` cancels the sum modulo 256 |
| `Codec.FrameStep` | src/jtag/fine.c:394-395 | a data frame is 0x84 followed by its four body bytes |
| `Codec.FillHeader` | src/jtag/fine.c:372-376 | the five header bytes written into `out` are Header's |
| `Codec.ComputeChecksum` | src/jtag/fine.c:378-383 | the two checksum loops compute Checksum of the header and the payload |
| `Codec.AddBytes` | src/jtag/fine.c:379-382 | a checksum loop adds every byte of its input modulo 256 |
| `Codec.SendCmd` | src/jtag/fine.c:365-444 | the method returns SendCmdSpec's result and logs exactly its exchanges |
| `Codec.SendPayload` | src/jtag/fine.c:393-441 | the chunk loop and the final frames return PayloadSpec's result and log its exchanges |
| `Codec.PayloadRound` | src/jtag/fine.c:393-405 | one chunk round keeps the chunk loop's invariant, or ends the command with ERROR_FAIL |
| `Codec.SendChunk` | src/jtag/fine.c:394-404 | a full chunk is sent; a fault on it gives ERROR_FAIL, an answer is followed by an acknowledgement request |
| `Codec.FillFinal` | src/jtag/fine.c:407-430 | the switch lays out the final frame for 0..3 remaining bytes |
| `Codec.FinalOuts` | src/jtag/fine.c:407-441 | fewer than three remaining bytes take one final frame; three take a frame, an acknowledgement and the ETX frame |
| `Codec.SendFinal` | src/jtag/fine.c:432-441 | the final frames are sent whatever their answers are |
| `Codec.SendEtx` | src/jtag/fine.c:434-441 | after three remaining bytes come an acknowledgement and the ETX frame |
| `Codec.Outs` | src/jtag/fine.c:365-444 | the exchanges of a step list are its steps' exchanges, in order |
| `Codec.RunStepsCons` | src/jtag/fine.c:385-405 | a step whose fault is fatal ends the command; any other step is followed by the rest |
| `Codec.RunStepsPair` | src/jtag/fine.c:385-391 | a fatal frame is followed by its acknowledgement only when it was answered |
| `Codec.PayloadSteps` | src/jtag/fine.c:393-441 | the payload part of fine_send_cmd runs the step list ChunkSteps |
| `Codec.SendCmdSteps` | src/jtag/fine.c:365-444 | fine_send_cmd runs the step list CmdSteps |
| `Codec.FinalStepsRun` | src/jtag/fine.c:407-443 | the final frames never fail and are all sent |
| `Codec.Pad4` | src/jtag/fine.c:407-430 | padding to whole frames keeps the bytes and adds fewer than four zeros |
| `Codec.FinalBodies` | src/jtag/fine.c:407-441 | the final frames carry the remainder, the checksum and ETX, zero-padded |
| `Codec.FinalBodiesSplit` | src/jtag/fine.c:424-441 | three remaining bytes: the checksum ends the first frame and ETX opens the second |
| `Codec.FinalBodiesShort` | src/jtag/fine.c:409-423 | fewer than three remaining bytes fit with the checksum and ETX into one frame |
| `Codec.ChunkBodiesStep` | src/jtag/fine.c:393-405 | a full chunk contributes its four bytes, its acknowledgement none |
| `Codec.ChunkBodies` | src/jtag/fine.c:393-430 | all frame bodies after the header are the payload, the checksum and ETX, zero-padded |
| `Codec.PayloadFrames` | src/jtag/fine.c:365-444 | header layout {0x84, SOH or phase, length + 1 big-endian, cmd}; the bodies carry the payload and a checksum that cancels header bytes 2..4 and the payload |
| `Codec.ChunkLength` | src/jtag/fine.c:393-441 | the chunks take two steps each, the end one or three |
| `Codec.ChunkFinal` | src/jtag/fine.c:407-441 | after the full chunks come the final steps for the remainder |
| `Codec.ChunkFatal` | src/jtag/fine.c:393-441 | the fatal steps of the payload are exactly the full-chunk frames |
| `Codec.ChunkKinds` | src/jtag/fine.c:393-441 | every payload step is a 5-byte frame or an acknowledgement |
| `Codec.ChunkAcks` | src/jtag/fine.c:393-405 | every full chunk is followed by an acknowledgement |
| `Codec.CmdStepsIndex` | src/jtag/fine.c:385-441 | the header is fatal, its acknowledgement follows, and the chunk steps follow them |
| `Codec.CmdFatal` | src/jtag/fine.c:385-441 | the number of exchanges of a command and which of them are fatal: the header and the full chunks |
| `Codec.CmdFrames` | src/jtag/fine.c:385-441 | every exchange is a frame or an acknowledgement; the header and each full chunk are followed by one |
| `Codec.CmdFinal` | src/jtag/fine.c:407-441 | the command ends with the final steps for the remainder and its checksum |
| `Codec.CmdShape` | src/jtag/fine.c:365-444 | the whole shape of a command: length, fatal steps, acknowledgements, frames and the final steps |
| `Codec.RunStepsResult` | src/jtag/fine.c:385-405 | a step run fails with ERROR_FAIL exactly when some fatal step's exchange faulted |
| `Codec.RunStepsSent` | src/jtag/fine.c:385-441 | a step run sends a prefix of its exchanges, all of them when it succeeds |
| `Codec.RunStepsStop` | src/jtag/fine.c:385-405 | a failed run's last exchange is the first fatal step that faulted |
| `Codec.SendCmdFailureRule` | src/jtag/fine.c:365-444 | fine_send_cmd fails exactly when the header or a full chunk faults; on success it sent every exchange of the command |
| `Codec.SendCmdFails` | src/jtag/fine.c:385-405 | the result of fine_send_cmd is OK or ERROR_FAIL, failing exactly on a fault of the header or a full chunk |
| `Codec.SendCmdSendsAll` | src/jtag/fine.c:365-444 | a successful fine_send_cmd sent all its exchanges |
| `Codec.Bit7Value` | src/jtag/fine.c:476 | the `& 0x80` test holds exactly for bytes from 0x80 on |
| `Codec.StatusBlock` | src/jtag/fine.c:461-470 | the status block is eight bytes: bytes 1..4 of two data answers |
| `Codec.GetStatusPacket` | src/jtag/fine.c:446-480 | the method returns StatusSpec's result and logs its exchanges |
| `Codec.StatusDecode` | src/jtag/fine.c:446-480 | two data requests and an acknowledgement; ERROR_FAIL exactly on a fault or a bad acknowledgement, else OK when bit 0x80 of status byte 3 is clear, else status byte 4 |
| `Codec.NbXferIsCeiling` | src/jtag/fine.c:500-502 | nb_xfer is the number of 4-byte chunks that hold length + 1 bytes |
| `Codec.DataChunks` | src/jtag/fine.c:504-515 | the continuation reads give OK or ERROR_FAIL, send at most n requests, all n on success, and store four bytes per answered request |
| `Codec.DataChunksStuck` | src/jtag/fine.c:507-510 | once a continuation read has failed, more reads change nothing |
| `Codec.GetData` | src/jtag/fine.c:482-520 | the method returns GetDataSpec's result and stored bytes and logs its exchanges |
| `Codec.ReadChunks` | src/jtag/fine.c:504-515 | the continuation loop follows DataChunks and counts four bytes per read in `len` |
| `Codec.DataChunksResult` | src/jtag/fine.c:504-515 | the continuation reads succeed exactly when all n answers arrive |
| `Codec.DataChunksAnswered` | src/jtag/fine.c:504-515 | successful reads had all their answers |
| `Codec.DataChunksComplete` | src/jtag/fine.c:504-515 | with all answers there, the reads succeed |
| `Codec.DataChunksRequests` | src/jtag/fine.c:505-506 | every continuation exchange is a data request |
| `Codec.DataChunksStop` | src/jtag/fine.c:507-510 | a failed read stops at the first fault, after answered requests only |
| `Codec.DataChunksBytes` | src/jtag/fine.c:512 | bytes 1..4 of continuation answer j are stored at offset 4 * j |
| `Codec.GetDataResult` | src/jtag/fine.c:482-520 | fine_get_data fails exactly on a fault of the first or a continuation answer, else returns 4 + 4 * nb_xfer, the number of bytes stored |
| `Codec.GetDataFails` | src/jtag/fine.c:489-510 | the failure condition of fine_get_data |
| `Codec.GetDataSent` | src/jtag/fine.c:489-517 | a successful read makes 1 + nb_xfer data requests, then one acknowledgement request |
| `Codec.GetDataBytes` | src/jtag/fine.c:496-512 | bytes 1..4 of data answer j fill the buffer at offset 4 * j |
| `Bringup.Repeat` | src/jtag/fine.c:238-245 | n copies of the same exchange |
| `Bringup.ChipId` | src/jtag/fine.c:223-263 | the method returns ChipIdSpec's result and logs its exchanges |
| `Bringup.StartHandshake` | src/jtag/fine.c:232-250 | the retry loop returns Handshake's result and attempt count and logs one start sequence per attempt |
| `Bringup.StartAttempt` | src/jtag/fine.c:239-244 | one start sequence; a fault ends fine_get_chip_id with that code, an answer keeps the loop state |
| `Bringup.HandshakeInvStep` | src/jtag/fine.c:238-245 | one more answered start sequence keeps the loop state |
| `Bringup.HandshakeInvFault` | src/jtag/fine.c:239-243 | a fault on a start sequence ends the loop with that fault after retry + 1 sequences |
| `Bringup.HandshakeExit` | src/jtag/fine.c:238-245 | when the loop condition fails, the loop has sent one start sequence per attempt |
| `Bringup.HandshakeMatchNow` | src/jtag/fine.c:238-245 | a match on the first reply ends the loop after one start sequence |
| `Bringup.HandshakeMatch` | src/jtag/fine.c:238-245 | after k misses, a match ends the loop after k + 1 start sequences |
| `Bringup.HandshakeMatchCount` | src/jtag/fine.c:238-245 | HandshakeMatch with the number of sequences and the final count named |
| `Bringup.HandshakeFaultNow` | src/jtag/fine.c:239-243 | a fault on the first reply ends the loop with that fault |
| `Bringup.HandshakeFault` | src/jtag/fine.c:239-243 | after k misses, a fault ends the loop with that fault's code |
| `Bringup.HandshakeFaultCount` | src/jtag/fine.c:239-243 | HandshakeFault with the number of sequences, the final count and the fault named |
| `Bringup.HandshakeExhausted` | src/jtag/fine.c:238-250 | misses on every remaining attempt use up the ten attempts |
| `Bringup.HandshakeExhaustedCount` | src/jtag/fine.c:238-250 | HandshakeExhausted with the number of remaining attempts named |
| `Bringup.FirstNonMiss` | src/jtag/fine.c:238 | the first reply that is not a miss, with only misses before it |
| `Bringup.SucceedsAtFirst` | src/jtag/fine.c:238-262 | the attempt that succeeds is the first reply that is not a miss |
| `Bringup.ChipIdSucceeds` | src/jtag/fine.c:223-263 | a match on one of the first nine attempts after misses, with the chip-ID request answered, makes fine_get_chip_id succeed |
| `Bringup.ChipIdSucceedsOnly` | src/jtag/fine.c:223-263 | fine_get_chip_id succeeds only that way |
| `Bringup.ChipIdSuccess` | src/jtag/fine.c:223-263 | fine_get_chip_id succeeds exactly when some attempt succeeds in that sense |
| `Bringup.TenthAttemptFails` | src/jtag/fine.c:238-250 | nine misses fail the handshake after ten start sequences whatever the tenth reply is, with ERROR_FAIL on a match |
| `Bringup.ChipIdFault` | src/jtag/fine.c:239-243 | a transport fault during the handshake is returned as it is, after k + 1 start sequences |
| `Bringup.PreludeSpec` | src/jtag/fine.c:273-315 | the setup block and the sync frame succeed exactly when both are answered and the sync answer is 0 |
| `Bringup.InitChip` | src/jtag/fine.c:265-345 | the method returns InitChipSpec's result and logs its exchanges |
| `Bringup.AwaitReady` | src/jtag/fine.c:317-344 | the poll loop and the final acknowledgement return ReadySpec's result |
| `Bringup.InitPrelude` | src/jtag/fine.c:273-315 | the setup and sync exchanges return PreludeSpec's result |
| `Bringup.FillSetup` | src/jtag/fine.c:273-282 | the setup block is the three 0x88 configuration frames and the acknowledgement request |
| `Bringup.FillSync` | src/jtag/fine.c:300-304 | the sync frame is {0x84, 0x55, 0, 0, 0} |
| `Bringup.PollTarget` | src/jtag/fine.c:317-327 | the poll loop returns Poll's result and count and logs one data request per poll |
| `Bringup.PollOnce` | src/jtag/fine.c:320-325 | one poll; a fault ends fine_init_chip with ERROR_FAIL, an answer keeps the loop state |
| `Bringup.PollInvStep` | src/jtag/fine.c:319-327 | one more answered poll keeps the loop state |
| `Bringup.PollInvFault` | src/jtag/fine.c:320-324 | a fault on a poll ends the loop with ERROR_FAIL |
| `Bringup.PollExit` | src/jtag/fine.c:319-327 | when the loop condition fails, the loop has sent one request per poll |
| `Bringup.PollReady` | src/jtag/fine.c:319-327 | after k busy answers, a ready one ends the loop after k + 1 polls |
| `Bringup.PollReadyCount` | src/jtag/fine.c:319-327 | PollReady with the number of polls and the final count named |
| `Bringup.PollFaultNow` | src/jtag/fine.c:320-324 | a fault on the first poll ends the loop with ERROR_FAIL |
| `Bringup.PollFault` | src/jtag/fine.c:320-324 | after k busy answers, a fault ends the loop with ERROR_FAIL |
| `Bringup.PollFaultCount` | src/jtag/fine.c:320-324 | PollFault with the number of polls and the final count named |
| `Bringup.PollExhausted` | src/jtag/fine.c:319-332 | busy answers to every remaining poll use up the hundred polls |
| `Bringup.PollExhaustedCount` | src/jtag/fine.c:319-332 | PollExhausted with the number of remaining polls named |
| `Bringup.FirstNonBusy` | src/jtag/fine.c:319 | the first poll answer that is not busy, with only busy answers before it |
| `Bringup.ReadySucceedsAtFirst` | src/jtag/fine.c:317-344 | only the first answer that is not busy can be the one that succeeds |
| `Bringup.ReadySucceeds` | src/jtag/fine.c:317-344 | a ready answer within 99 polls, then an acknowledgement {0, 0}, makes the second half of fine_init_chip succeed |
| `Bringup.ReadySucceedsOnly` | src/jtag/fine.c:317-344 | the second half of fine_init_chip succeeds only that way |
| `Bringup.ReadySuccess` | src/jtag/fine.c:317-344 | the second half succeeds exactly when it succeeds at some poll |
| `Bringup.InitChipSuccess` | src/jtag/fine.c:265-345 | fine_init_chip succeeds exactly when the prelude succeeds and then the device is ready at some poll |
| `Bringup.HundredthPollFails` | src/jtag/fine.c:319-332 | 99 busy answers time the initialisation out whatever the hundredth poll brings, after exactly a hundred polls |
| `Bringup.InitChipEarlyExit` | src/jtag/fine.c:284-315 | a fault on the setup or the sync frame is returned as it is; a non-zero sync answer gives ERROR_FAIL |
| `Negotiation.Chunk` | src/jtag/fine.c:512 | a data answer contributes its bytes 1..4, four bytes |
| `Negotiation.Overlay` | src/jtag/fine.c:496-512 | the copy into the caller's buffer keeps the buffer's size |
| `Negotiation.OverlayIndex` | src/jtag/fine.c:496-512 | each buffer byte is the copied byte, or the old one past the copied length |
| `Negotiation.OverlayWord` | src/jtag/fine.c:496-512 | a word that lies inside the copied bytes reads the same from the caller's buffer |
| `Negotiation.SetCommand` | src/jtag/fine.c:562-570 | a command frame then the status frame, returning SetSpec's result |
| `Negotiation.GetCommand` | src/jtag/fine.c:529-544 | command, status, status-phase frame and data frame, returning GetSpec's result and data |
| `Negotiation.FetchData` | src/jtag/fine.c:539-544 | the status-phase frame and the data frame; a negative data length becomes ERROR_FAIL |
| `Negotiation.GetSpecData` | src/jtag/fine.c:529-544 | a successful get-command returns the bytes the data frame read after the frames before it |
| `Negotiation.GetSpecBytes` | src/jtag/fine.c:482-544 | a successful get-command returns 4 + 4 * nb_xfer bytes, at least eight, group j being bytes 1..4 of data answer j |
| `Negotiation.DeviceTypeSpec` | src/jtag/fine.c:522-553 | only the type and the four clock bounds change, nothing on failure |
| `Negotiation.GetDeviceType` | src/jtag/fine.c:522-553 | the method returns DeviceTypeSpec's result and record, writing no field but the type and the four clock bounds, so the tap and the ID code are kept |
| `Negotiation.StoreDeviceType` | src/jtag/fine.c:546-550 | the field writes leave the record DecodeDeviceType of the buffer and write no other field |
| `Negotiation.DeviceTypeFromAnswer` | src/jtag/fine.c:522-553 | with at least 28 data bytes, the record is DecodeDeviceType of them: the type is bytes 1..4 of the second and third data answers, the four clock bounds the words of the fourth to seventh |
| `Negotiation.DeviceTypeWords` | src/jtag/fine.c:546-550 | the device-type fields decoded from a buffer holding answer groups are those groups' bytes |
| `Negotiation.SetEndianness` | src/jtag/fine.c:555-573 | the endianness command with payload 1 for little endian, else 0 |
| `Negotiation.FrequencyPayload` | src/jtag/fine.c:584-585 | the frequency payload is eight bytes |
| `Negotiation.FrequencySpec` | src/jtag/fine.c:575-609 | only the system and peripheral clocks change, nothing on failure |
| `Negotiation.ClockWords` | src/jtag/fine.c:605-606 | those words are the second and third data answers' four bytes |
| `Negotiation.FrequencyFromAnswer` | src/jtag/fine.c:575-609 | on success with at least 12 bytes, sys_clk_freq and periph_clk_freq are bytes 1..4 of the second and third data answers |
| `Negotiation.SetFrequency` | src/jtag/fine.c:575-609 | the method returns FrequencySpec's result and record, writing no field but the two clocks |
| `Negotiation.BitratePayload` | src/jtag/fine.c:618 | the bitrate payload is four bytes |
| `Negotiation.SetBitrate` | src/jtag/fine.c:611-631 | the bitrate command returns BitrateSpec's result |
| `Negotiation.SendSync` | src/jtag/fine.c:633-650 | the sync command returns SyncSpec's result |
| `Negotiation.AuthModeSpec` | src/jtag/fine.c:652-679 | only serial_allowed changes, to 0 or 1, and nothing on failure |
| `Negotiation.AuthModeFromAnswer` | src/jtag/fine.c:652-679 | on success, serial_allowed is 1 exactly when byte 1 of the second data answer is 0 |
| `Negotiation.GetSerialProtectState` | src/jtag/fine.c:652-679 | the method returns AuthModeSpec's result and record, writing no field but serial_allowed |
| `Negotiation.CheckIdCode` | src/jtag/fine.c:681-698 | the 16-byte ID is the payload of the check command; the result is CheckIdSpec's |
| `Negotiation.AreaLoop` | src/jtag/fine.c:726-751 | the area loop changes only the area table; success means at most eight areas, AREA_OVERFLOW more than eight |
| `Negotiation.AreaRound` | src/jtag/fine.c:726-751 | one area round and the rounds after it keep the same bounds |
| `Negotiation.AreaLoopKeeps` | src/jtag/fine.c:726-751 | the rounds i..count-1 write no area entry outside i..count-1 |
| `Negotiation.AreaLoopSent` | src/jtag/fine.c:726-751 | a successful loop sends, round j after round j-1, the area-information command with payload [j] and its status and data frames |
| `Negotiation.AreaLoopEntry` | src/jtag/fine.c:726-751 | after a successful loop, entry j is decoded from the buffer overlaid with round j's data, and round j's command succeeded |
| `Negotiation.AreaLoopEntryHere` | src/jtag/fine.c:740-750 | the same for the first round of the loop |
| `Negotiation.AreaLoopDecodes` | src/jtag/fine.c:726-751 | a successful loop has count at most eight, sent exactly the rounds' requests and decoded every entry i..count-1 from its round |
| `Negotiation.MemInfoSpec` | src/jtag/fine.c:700-754 | only the area count and table change; on success the count is at most eight (MemInfoAreas states the enumeration) |
| `Negotiation.GetDeviceMemInfo` | src/jtag/fine.c:700-754 | the method returns MemInfoSpec's result and record, writing no field but the area count and table |
| `Negotiation.MemInfoRequests` | src/jtag/fine.c:707-751 | on success the exchanges are the count command then one area command per area in order, and the count command alone when the count is 0 |
| `Negotiation.MemInfoEntries` | src/jtag/fine.c:724-751 | on success area_count is byte 4 of the count buffer, every entry below it is decoded from its round and the entries from it to 8 are unchanged |
| `Negotiation.MemInfoAreas` | src/jtag/fine.c:700-754 | the whole enumeration: count from byte 4, request j with payload [j], entry j from answer j, the rest of the table unchanged, nothing more sent for count 0 |
| `Negotiation.SecondGroupByte` | src/jtag/fine.c:676 | byte 4 of a buffer overlaid with a get-command's bytes is byte 1 of the second data answer |
| `Negotiation.AreaCountFromAnswer` | src/jtag/fine.c:715-724 | on success area_count is byte 1 of the count command's second data answer |
| `Negotiation.AreaFromAnswer` | src/jtag/fine.c:740-750 | on success, for j below the count, area command j succeeded and, when its answer has 24 bytes, entry j is DecodeArea of those bytes |
| `Negotiation.ReadAreas` | src/jtag/fine.c:726-753 | the area loop returns AreaLoop's result and record and logs its exchanges |
| `Negotiation.GetAreaInfo` | src/jtag/fine.c:729-750 | one area command; on success the buffer is overlaid and area[i] decoded from it, else the area table is unchanged |
| `Negotiation.AreaStep` | src/jtag/fine.c:726-751 | one loop round keeps the area loop's invariant, or ends it with its result |
| `Negotiation.EncodeDeviceType` | src/jtag/fine.c:546-550 | a device's device-type answer is 28 bytes |
| `Negotiation.DeviceTypeRoundTrip` | src/jtag/fine.c:546-550 | decoding a device's device-type buffer gives back its type and clock bounds and keeps the rest of the record |
| `Negotiation.EncodeArea` | src/jtag/fine.c:746-750 | a device's area answer fits the 24-byte buffer |
| `Negotiation.AreaRoundTrip` | src/jtag/fine.c:746-750 | decoding a device's area buffer gives back the area |
| `Negotiation.FrequencyPayloadFields` | src/jtag/fine.c:584-585 | read back, the frequency payload holds the input then the system clock in Hz |
| `Negotiation.BitratePayloadField` | src/jtag/fine.c:618 | read back, the bitrate payload holds the bitrate modulo 2^32 |
| `Negotiation.InitPayloads` | src/jtag/fine.c:781-785 | the payloads for 16 and 120 MHz and for 1 Mbit/s |
| `Negotiation.StageSpec` | src/jtag/fine.c:765-803 | no call changes the ID code; a failed call other than the area read leaves the record; a successful area read leaves at most eight areas |
| `Negotiation.RunStagesSplit` | src/jtag/fine.c:765-805 | two lists of calls run one after the other are their concatenation, stopping at the first failure |
| `Negotiation.RunStagesStopsAt` | src/jtag/fine.c:765-803 | the first failing call ends the run with its result |
| `Negotiation.RunStagesSucceeds` | src/jtag/fine.c:765-805 | a run succeeds exactly when its prefix and its last call succeed |
| `Negotiation.RunStagesKeepsId` | src/jtag/fine.c:765-805 | calls that keep the ID code keep it over a run |
| `Negotiation.RunStagesAreas` | src/jtag/fine.c:801-805 | a successful run ending with the area read leaves at most eight areas |
| `Negotiation.TransportInitAreas` | src/jtag/fine.c:756-806 | fine_transport_init keeps the ID code and, on success, leaves at most eight areas |
| `Negotiation.TransportInitNoChip` | src/jtag/fine.c:765-767 | a failed handshake ends fine_transport_init with its code, nothing else sent, the record untouched |
| `Negotiation.RunStage` | src/jtag/fine.c:765-803 | one call of fine_transport_init returns its specification's result and record, the tap and the ID code untouched |
| `Negotiation.TransportInit` | src/jtag/fine.c:756-806 | the method returns TransportInitSpec's result and record, logs its exchanges and writes neither the tap nor the ID code |
| `RxTarget.AsInt` | src/target/rx.h:38-54 | a uint32_t stored into an int field is the same value modulo 2^32, negative from 2^31 on |
| `RxTarget.ZeroRecordWellFormed` | src/target/rx.h:33-56 | the zero record has 8 type bytes, 16 ID bytes and 8 areas |
| `RxTarget.Rx.constructor` | src/target/rx.c:38 | calloc gives a zero-filled record of the right sizes |
| `RxTarget.Target.constructor` | src/target/rx.c:36-44 | a target starts with its state and tap and no record |
| `RxTarget.PollHalts` | src/target/rx.c:27-34 | a running or debug-running target becomes halted |
| `RxTarget.PollKeeps` | src/target/rx.c:27-34 | every other state is kept |
| `RxTarget.PollIdempotent` | src/target/rx.c:27-34 | polling twice is polling once; only a halted state comes from a change |
| `RxTarget.Poll` | src/target/rx.c:27-34 | rx_poll leaves PollState of the old state and returns ERROR_OK |
| `RxTarget.TargetCreate` | src/target/rx.c:36-44 | a fresh zero-filled record sharing the target's tap is installed, so that TargetToRx (target_to_rx, rx.h:58-61) returns it |
| `RxTarget.InitTarget` | src/target/rx.c:46-50 | rx_init_target returns ERROR_OK |

## Left out

- The adapter's `srst` and `init` callbacks and the reset at the start of
  `fine_transport_init`: they are calls into adapter code outside this model.
- Timeouts, `usleep`, the log and `printf` messages, and `jaylink_strerror`.
  The transport has no clock, and messages do not change the protocol.
- `buf_bswap16` and the chip-ID display in `fine_get_chip_id`: the two bytes
  are only logged.
- The command registration, `fine_transport_select`, the ID-code command
  handler with its hex parsing, the transport's registration, `fine_init_reset`
  and `transport_is_fine`. These are configuration glue, not protocol.
- `rx_target` registration and the flash driver that reads the area table.
  They use the record but are not part of this layer.
- The `calloc` failure in `rx_target_create`: allocation in the model cannot
  fail.
- Negotiation.TransportInit: the ten calls are modelled as a loop over a fixed
  list of calls rather than ten straight-line `if` blocks. The list order and
  arguments are those of the source.
- Negotiation.GetCommand: callers' stack buffers are modelled as values of
  their declared size that fine_get_data overlays. The overlay is cut at the
  buffer's end, so a device that announces more data than the buffer holds is
  not modelled: the source would write past the buffer. Uninitialised stack
  bytes are modelled as 0.
- Negotiation.ReadAreas: an area count above eight makes the source write
  beyond `area[8]`. The model stops there with `AREA_OVERFLOW`, a value of the
  model only.
- Negotiation.Hz: `in_freq * 1000000` is modelled modulo 2^32. A product
  beyond `int` range is undefined behaviour in C.
- Transport.Link.Xfer: the timeout argument and `out_cnt`/`in_cnt` above 255
  are not modelled.
