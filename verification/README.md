# Verified model of a Spreadtrum device tree

A Dafny model of the algorithms behind the I/O of a Spreadtrum Android device: sensors, audio
capture, the NV-item daemon, the modem loader and its life cycle, the camera state machine, overlay
composition, framebuffer slots and the boot alarm. Each routine that updates buffers or fields in the
repository is a method over an array or a class, proved against a specification function; what the
routine is for is then proved about that specification, over all inputs, all runs or all
interleavings.

`dafny verify dfyconfig.toml` checks the whole project.

## What is modelled

- **Sensors.** `InputEventReader.dfy` is the ring with its spill cells as an array, shown to be a
  FIFO. `SensorPipeline.dfy` defines one unbounded pass over an event stream and the pass of one
  `readEvents` call, which may stop in the middle of a synchronisation event, and proves that cutting
  the pass into calls changes nothing. `SensorEmission.dfy` says what the pass emits, from the input
  events alone. `SensorDriver.dfy` is the object of both drivers: one class with
  the chip as a parameter, since their loops are the same line by line.
- **Audio capture.** `AudioCapture.dfy`: period buffer, processing buffer and preprocessors, with a ghost
  record of every round of the preprocessors (what they were offered, took and produced), over any
  number of requests.
- **NV-item daemon.** `NvImage.dfy` (sealed images, files during a write, the fragmented pipe),
  `NvDaemon.dfy` (what each fixnv, runtimenv and productinfo request does to buffers and files; safety of
  runs, and when a sync makes the copies equal) and `NvService.dfy` (the daemon's buffers and loops).
- **Modem download.** `ShiftRegister.dfy` gives the bit-at-a-time CRC for any register and its laws;
  `CrcRegisters.dfy`, `CrcTables.dfy`, `CrcRoutines.dfy` and `Words.dfy` instantiate it for the three
  CRCs of the repository. `Checksum.dfy` is RFC 1071 and the three routines that compute it,
  `ByteStuffing.dfy` the framing of section 4.2 of RFC 1662, `Packet.dfy` the packets, `ImageDownload.dfy`
  the chunked sender, `ModemManager.dfy` the life cycle of the modem.
- **Camera.** `CameraSteps.dfy` is the state machine with one step per API call (or part of one
  between two waits) and per callback, with the three heaps and three callback pointers that may be
  null; `CameraDeliveries.dfy` says which images the application gets, from the events of a run;
  `SprdCamera.dfy` is the object with its JPEG heap.
- **Overlays and framebuffer.** `OverlayRects.dfy` (mixed `int` and `uint32_t` arithmetic),
  `HwComposer.dfy` (layer decisions and assignment), `SlotMask.dfy` and `FramebufferSlots.dfy`.
- **Alarm.** `BootAlarm.dfy`: the weekly schedule and the search for the nearest alarm.
- **Shared.** `Bytes.dfy`, `Sequences.dfy` and `Wrappers.dfy`.

Bytes are integers from 0 to 255, memory is little-endian and `unsigned long` has 32 bits. Bit-vectors
are used for CRCs and masks; checksums and coordinates are integers with their wrap-around written out.
Reads deliver whatever the environment parameter says; files, broadcasts and callbacks are recorded in
ghost history.

Where code and comments disagree, the code is modelled. In the camera callback several branches carry
the comment that they change to `QCS_ERROR` but only log; they change nothing here. The daemon announces
an out-of-range fixnv request as an error and then copies it all the same.

## Conditions the code does not state

Several routines keep their promise only under a condition. Each is proved as an equivalence, or with
the inputs that show it is needed:

- `untranslate_packet` undoes `translate_packet` if and only if no 0x7D stands before the last byte
  (`ByteStuffing.UntranslateTranslateIff`).
- The checksum routines compute RFC 1071 if and only if the 32-bit accumulator's wrap-arounds cancel
  out (`Checksum.ComputedIsRfc1071Iff`); 65537 words are always safe and 65538 are not.
- A receiver that checks what an SPI packet announces gets every START, MIDST and EXEC packet back unless
  it has 65536 bytes or more, which the length field cannot hold, or is a MIDST packet without data, which
  announces four (`Packet.SpiReceiveInvertsSend`).
- A pipe reset inside a fixnv transfer while a backup is pending can damage both copies, from every
  sound state (`NvDaemon.InterruptionLosesBoth`).
- Both files stay whole between requests if and only if no sync that opens the backup copies a damaged
  buffer to it (`NvDaemon.StaysSoundIff`).
- After an uninterrupted run a sync makes backup and primary equal if and only if the last completed
  fixnv request could open the primary to store its image (`NvDaemon.SyncAfterRun`); a run in which it
  could not is `NvDaemon.FailedStoreDiffers`.
- The rectangles kept by `hwc_prepare` are those of the last layer past the early exits. They are the
  chosen layer's if and only if that one shows the same place (`HwComposer.StoredAreChosenIff`); two
  layers for which they are not are in `HwComposer.LaterLayerOverwrites`.
- The camera callback uses null heaps and callback pointers: exactly when is `CameraSteps.CrashesIff`.
  With all callbacks set first the only danger is a snapshot when there is no raw heap
  (`CameraSteps.RegisteredCrashesIff`, `CameraSteps.EarlySnapshotCrashes`); callbacks that are set
  during a picture lead to a null JPEG heap (`CameraSteps.LateCallbackCrashes`).
- `get_latest_alarm_time` finds the nearest alarm except on the first call that meets one less than a
  minute old. That one is then taken, unless it is one second late and not the last: -1 also marks an
  empty search, and the nearest of the rest is found (`BootAlarm.Alarms.GetLatestAlarmTime`).
- `creat_alarm_sec_list` on a list that is not empty keeps only its head
  (`BootAlarm.Alarms.CreateAlarmSecList`).

## Model

| member | source | states |
|---|---|---|
| InputEventReader.InputEventCircularReader.constructor | common/libs/libsensors/InputEventReader.cpp:35-42 | a new reader is an empty queue of the given capacity |
| InputEventReader.InputEventCircularReader.Fill | common/libs/libsensors/InputEventReader.cpp:49-72 | appends exactly the events of a whole read to the queue; full ring, error and incomplete event change nothing; never writes past the spill cells |
| InputEventReader.InputEventCircularReader.CopyIn | common/libs/libsensors/InputEventReader.cpp:53 | the read lands behind the head inside the 2N cells, also when the head rests at the end, and touches no queued event |
| InputEventReader.InputEventCircularReader.Advance | common/libs/libsensors/InputEventReader.cpp:58-68 | once the events lie behind the head, moving it and wrapping appends exactly them to the queue |
| InputEventReader.InputEventCircularReader.Wrap | common/libs/libsensors/InputEventReader.cpp:63-67 | the spill cells move to the front and nothing else changes |
| InputEventReader.InputEventCircularReader.ReadEvent | common/libs/libsensors/InputEventReader.cpp:74-79 | an event is available if and only if the queue is not empty, and it is the oldest |
| InputEventReader.InputEventCircularReader.Next | common/libs/libsensors/InputEventReader.cpp:81-88 | removes exactly the oldest event |
| InputEventReader.RingAppend | common/libs/libsensors/InputEventReader.cpp:59-68 | cells written behind the queue modulo N extend the queue in order |
| SensorPipeline.FlushSplits | common/libs/libsensors/AkmSensor.cpp:214-231 | an interrupted synchronisation event has emitted a prefix; what is pending is exactly the rest, and it stops early only when the buffer is full |
| SensorPipeline.AttemptCases | common/libs/libsensors/AkmSensor.cpp:208-237 | the head event is handled whole, or half done with the caller's buffer full |
| SensorPipeline.DrainIsPrefixOfRun | common/libs/libsensors/AkmSensor.cpp:207-238 | one call emits the next events of the unbounded pass, and leaves events only when full |
| SensorPipeline.CallsStopInsideSyn | common/libs/libsensors/SensorAL3006.cpp:153-194 | after any sequence of calls a prefix of the events queued and fetched is handled completely, and beyond it only the still pending part of the synchronisation event at the head of the queue is missing from the output |
| SensorPipeline.CallConserves | common/libs/libsensors/AkmSensor.cpp:195-239 | emitted events and what is still queued together are the pass over everything fetched, for any count, read size or error |
| SensorPipeline.BatchingIsInvisible | common/libs/libsensors/AkmSensor.cpp:195-239 | over any sequence of calls the concatenated output is a prefix of one unbounded pass and the queue yields the rest: nothing lost, repeated or reordered |
| SensorPipeline.SameEventsSameStream | common/libs/libsensors/SensorAL3006.cpp:153-194 | two batchings of the same events that drain the queue emit the same stream and leave the same state |
| SensorPipeline.StreamsArePrefixes | common/libs/libsensors/SensorAL3006.cpp:153-194 | under any two batchings one output stream is a prefix of the other |
| SensorEmission.EmissionLaw | common/libs/libsensors/AkmSensor.cpp:207-324 | a synchronisation event emits, in sensor order, exactly the enabled sensors fed by an axis event since the one before, each field the last value of its code times its scale, stamped with its time; no other event emits; codes and scales of both chips are listed |
| SensorEmission.CallOutcome | common/libs/libsensors/AkmSensor.cpp:195-239 | -22 without room, the status of a failing read, -22 for a read that ends inside an event; otherwise exactly the events read are taken, the number emitted is returned, and it is below the room only with an empty queue |
| SensorDriver.SensorDriver.ProcessEvent | common/libs/libsensors/AkmSensor.cpp:274-324 | an axis event sets one field of one sensor and its pending bit, for every code of both chips |
| SensorDriver.SensorDriver.FlushPending | common/libs/libsensors/AkmSensor.cpp:214-230 | the loop over the pending mask is the specified flush; earlier output is untouched, and the mask is zero exactly when nothing is pending |
| SensorDriver.SensorDriver.DrainQueue | common/libs/libsensors/SensorAL3006.cpp:165-191 | the loop over the ring is the specified drain |
| SensorDriver.SensorDriver.ReadEvents | common/libs/libsensors/SensorAL3006.cpp:153-194 | the call on ring, mask and array refines the specified call: status, output, sensor state and queue |
| SensorDriver.SensorDriver.Session | common/libs/libsensors/SensorAL3006.cpp:153-194 | any sequence of calls on the object is the specified sequence of calls, output and final state |
| SensorDriver.EnabledAre | common/libs/libsensors/AkmSensor.cpp:224 | a sensor of the AKM chip is on while its counter is not zero, one of the AL3006 while its bit is set |
| AudioCapture.TinyStreamIn.GetNextBuffer | common/libs/audio/audio_hw.c:1617-1660 | offers unread frames of the period, reloading only an empty buffer; no frame leaves it; null exactly on an error status, which is that of the failed read or of a missing device |
| AudioCapture.TinyStreamIn.ReleaseBuffer | common/libs/audio/audio_hw.c:1662-1674 | exactly the released frames leave the period buffer, in order |
| AudioCapture.TinyStreamIn.ReadFrames | common/libs/audio/audio_hw.c:1678-1713 | copies the next frames in order, as many as asked for, when every read delivers; otherwise returns the status of the read that failed, and what was copied before is accounted for |
| AudioCapture.TinyStreamIn.Process | common/libs/audio/audio_hw.c:1752-1774 | one round: the preprocessors are offered all that is in the buffer, their output is out, and what they leave moves to the front: consumed, buffered and unread frames stay the captured ones |
| AudioCapture.TinyStreamIn.ProcessFrames | common/libs/audio/audio_hw.c:1718-1781 | the output is the concatenation of what the rounds of the call produced; each round was offered at least the frames asked for, continuing the captured frames behind those consumed, and asked for the room left; it returns the frames asked for, or the status of the read that failed, losing fewer frames than were asked for |
| AudioCapture.TinyStreamIn.Capture | common/libs/audio/audio_hw.c:1718-1781 | over any sequence of requests: each is served with exactly as many frames as it asks for and the served frames are the concatenation of what the preprocessors produced over all rounds; all are served unless a read fails or the preprocessors still wait; without a failure consumed frames, processing buffer and unread tail are the frames captured, in order |
| AudioCapture.SourceOfPeriods | common/libs/audio/audio_hw.c:1634-1652 | the captured stream is the periods read, one behind the other |
| NvImage.SealSeals | common/apps/nvm_daemon/nvitem.c:202-211 | a sealed buffer verifies: checksum zero over size-2 bytes, and the marker |
| NvImage.ServedImage | common/apps/nvm_daemon/nvitem.c:743-959 | a completed request leaves payload in place, old bytes elsewhere below the trailer, a verifying checksum, index plus one modulo 100 and the marker |
| NvImage.ReadContinues | common/apps/nvm_daemon/nvitem.c:866-900 | a read takes a non-empty prefix, fails or ends, and leaves the rest of the pipe |
| NvService.SendTwice | common/apps/nvm_daemon/nvitem.c:866-933 | two daemons in the same state that read the same payload cut differently, with different failed reads, end in the same state with the same files |
| NvDaemon.RunSafe | common/apps/nvm_daemon/nvitem.c:664-962 | in every uninterrupted run from two sealed copies one copy is whole at every moment, also mid-write |
| NvDaemon.CarefulRunSafe | common/apps/nvm_daemon/nvitem.c:664-962 | the same for every run, interrupted or not, in which no sync opens the backup while a damaged buffer is pending |
| NvDaemon.StaysSoundIff | common/apps/nvm_daemon/nvitem.c:664-962 | both copies are whole after every request of a run if and only if no such sync happens |
| NvDaemon.InterruptionLosesBoth | common/apps/nvm_daemon/nvitem.c:743-893 | from every sound state with a backup pending, a reset inside a transfer leads to a moment when neither copy is whole |
| NvDaemon.SyncAfterRun | common/apps/nvm_daemon/nvitem.c:702-712 | after an uninterrupted run with a backup pending, a sync that writes clears the flag and makes the copies equal if and only if the last completed fixnv request could open the primary to store |
| NvDaemon.FailedStoreDiffers | common/apps/nvm_daemon/nvitem.c:702-712 | from every sound state, a run whose store fails and whose sync leaves two different copies |
| NvDaemon.RunCurrentIff | common/apps/nvm_daemon/nvitem.c:952-959 | in every uninterrupted run a pending buffer is what the primary holds if and only if the last completed request could store it |
| NvDaemon.CompletedIsCurrent | common/apps/nvm_daemon/nvitem.c:934-959 | a completed request leaves a backup pending, and the buffer equal to the primary if and only if the store opened it: the index always moves |
| NvDaemon.CutIsCurrent | common/apps/nvm_daemon/nvitem.c:866-893 | a transfer that was cut off leaves the buffer equal to the primary if and only if what arrived was there already |
| NvDaemon.ProductinfoServed | common/apps/nvm_daemon/nvitem.c:818-959 | a completed productinfo request that opens both files leaves the same verifying image in both: the payload in place, beside it the bytes of the file, 0xff where it had none |
| NvDaemon.FixnvServed | common/apps/nvm_daemon/nvitem.c:743-959 | a completed fixnv request that is stored leaves the payload and the old bytes in the primary, sealed, with the next index; the buffer is that image, a backup is pending, and nothing else changes |
| NvDaemon.RuntimenvServed | common/apps/nvm_daemon/nvitem.c:773-933 | whatever arrives of a runtimenv payload lies at its offset in both files; old bytes stay, a gap is zero, and nothing else changes |
| NvService.Daemon.Load | common/apps/nvm_daemon/nvitem.c:750-772 | the buffer is the file padded with 0xff, and the index is read from it |
| NvService.Daemon.Receive | common/apps/nvm_daemon/nvitem.c:866-933 | the copy loop overlays exactly what arrives, whatever the fragments, and ends handled, reset or blocked accordingly |
| NvService.ArriveLies | common/apps/nvm_daemon/nvitem.c:905-933 | the bytes received lie at the offset of their kind and nothing else changes, for all three kinds |
| NvService.Daemon.UpdateFixnvFile | common/apps/nvm_daemon/nvitem.c:194-249 | seals the buffer and writes it to the primary; lists every state the file passes through |
| NvService.Daemon.UpdateBackupFile | common/apps/nvm_daemon/nvitem.c:251-292 | writes the buffer to the backup; lists every state the file passes through |
| NvService.Daemon.HandleFixnv | common/apps/nvm_daemon/nvitem.c:743-959 | a fixnv request on buffers and files does what it is specified to do, complete, cut off or not opened |
| NvService.Daemon.HandleRuntimenv | common/apps/nvm_daemon/nvitem.c:773-933 | what arrives goes to both runtimenv files at the offset, read by read, and nothing else changes |
| NvService.Daemon.HandleProductinfo | common/apps/nvm_daemon/nvitem.c:818-959 | a productinfo request on buffers and files does what it is specified to do; when it is complete and both files open, both carry the payload at its offset and else the old data |
| NvService.Daemon.HandleEvent | common/apps/nvm_daemon/nvitem.c:664-962 | one pass of the loop over buffers, flag and files does what the request is specified to do, for all kinds of request |
| NvService.Daemon.Serve | common/apps/nvm_daemon/nvitem.c:664-962 | the request loop over any finite run is the specified run, with all its intermediate file states |
| NvImage.ProductImageVerifies | common/apps/nvm_daemon/nvitem.c:305-316 | a sealed productinfo image has CRC-32 zero over data, marker and CRC |
| NvService.SealProductinfo | common/apps/nvm_daemon/nvitem.c:305-316 | marker and big-endian CRC go behind the data and nothing else changes |
| NvService.UpdateProductinfo | common/apps/nvm_daemon/nvitem.c:295-366 | both files get the sealed image, the second only behind the first |
| ShiftRegister.Superpose | common/apps/nvm_daemon/crc32b.c:57-60 | data already in a linear register acts like data fed bit by bit: the reason table look-ups work |
| ShiftRegister.FeedOwnBits | common/apps/modem_control/fdl_crc.h:14 | a register fed its own leaving bits only shifts: the reason an appended CRC cancels |
| Crc16L.AppendLaw | common/apps/modem_control/fdl_crc.h:14 | any message followed by its own big-endian CRC leaves CRC_16_L_OK |
| Crc16L.CheckValues | common/apps/modem_control/crc16.c:54-83 | the CRCs of 01 and of 80 are 1021 and 9188 |
| Crc16L.FeedByte | common/apps/modem_control/crc16.c:61-77 | the mask loop is eight clocks of the MSB-first 0x1021 register |
| Crc16L.Crc16LCalc | common/apps/modem_control/crc16.c:54-83 | computes the bit-serial CRC of the buffer |
| CalculateCrc16.TableStep | common/apps/modem_control/crc16.c:148-156 | one table step feeds one byte to the reflected 0x8005 register, for all 256 entries |
| CalculateCrc16.CalculateCrc | common/apps/modem_control/crc16.c:148-156 | equals the bit-serial CRC for every start value and buffer |
| Crc32b.TableStep | common/apps/nvm_daemon/crc32b.c:57 | one DO1 feeds one byte to the MSB-first 0x04c11db7 register, for all 256 entries |
| Crc32b.Crc32Of | common/apps/nvm_daemon/crc32b.c:62-79 | the 8-way unrolled loop equals the bit-serial CRC for every start value and buffer, 0 for a null buffer |
| Crc32b.AppendLaw | common/apps/nvm_daemon/nvitem.c:305-316 | any image followed by its own big-endian CRC leaves zero |
| Checksum.TwoFolds | common/apps/modem_control/crc16.c:112-114 | two folds of a 32-bit sum always suffice |
| Checksum.ComputedIsRfc1071Iff | common/apps/modem_control/crc16.c:85-115 | the routines equal RFC 1071 if and only if the accumulator's wraps cancel |
| Checksum.ComputedIsRfc1071 | common/apps/modem_control/crc16.c:117-138 | they equal RFC 1071 for up to 65537 words |
| Checksum.MaxWordsIsTight | common/apps/modem_control/crc16.c:117-138 | 65538 words of 0xFFFF give another result |
| Checksum.SealEven | common/apps/modem_control/packet.c:142-146 | storing the checksum behind an even buffer makes the checksum of the whole zero |
| Checksum.SealRfc1071 | common/apps/modem_control/crc16.c:117-138 | RFC 1071 over data of even length and their own checksum is zero, for any length |
| Checksum.SealOdd | common/apps/modem_control/crc16.c:117-138 | the same behind an odd buffer and one zero byte |
| Checksum.FrmChk | common/apps/modem_control/crc16.c:85-115 | two words per pass and up to three bytes at the end: the common checksum |
| Checksum.BootChecksum | common/apps/modem_control/crc16.c:117-138 | one word per pass and an odd byte: the same checksum |
| Checksum.CalcChecksum | common/apps/nvm_daemon/nvitem.c:163-191 | the even-address branch: the same checksum |
| ByteStuffing.FrameShape | common/apps/modem_control/packet.c:30-49 | a frame has size+2+specials bytes, and flags only at its two ends |
| ByteStuffing.DecodeFrame | common/apps/modem_control/packet.c:30-49 | the receiver of RFC 1662, section 4.2, recovers every payload |
| ByteStuffing.FrameInjective | common/apps/modem_control/packet.c:30-49 | different payloads give different frames |
| ByteStuffing.UntranslateTranslateIff | common/apps/modem_control/packet.c:62-98 | the program's receiver undoes its sender if and only if no 0x7D stands before the last byte |
| ByteStuffing.ReceiverSynchronises | common/apps/modem_control/packet.c:62-98 | bytes without a flag in front of a frame, and any bytes behind it, do not change what is received |
| ByteStuffing.TranslatePacket | common/apps/modem_control/packet.c:30-49 | the array loop writes exactly the frame |
| ByteStuffing.UntranslatePacket | common/apps/modem_control/packet.c:62-98 | the array loop is the three-state scan |
| Packet.UartPacketVerifies | common/apps/modem_control/packet.c:133-200 | every START, MIDST, END and EXEC packet has CRC_16_L_OK over header, payload and CRC |
| Packet.SwitchPacketVerifies | common/apps/modem_control/packet.c:201-207 | a mode-switch packet with an even payload has frm_chk zero |
| Packet.ReceiveInvertsSend | common/apps/modem_control/packet.c:107-222 | a receiver by the book gets the code of the command (1 to 4) and the payload back from every framed packet |
| Packet.UartFields | common/apps/modem_control/cmd_def.h:8-30 | type and length in network order stand in front of the payload, with the code of every command |
| Packet.SpiHeaderVerifies | common/apps/modem_control/packet.c:142-146 | boot_checksum over the eight bytes of any SPI header is zero |
| Packet.SpiImageShape | common/apps/modem_control/packet.c:123-216 | the buffer starts with that header; START, MIDST and EXEC leave the rest alone |
| Packet.SpiReceiveInvertsSend | common/apps/modem_control/packet.c:139-199 | a receiver that checks header checksum, announced length and data checksum gets code and payload back from every START, MIDST and EXEC image, and rejects exactly those of 65536 bytes or more and an empty MIDST |
| Packet.ShortSpiReceived | common/apps/modem_control/packet.c:176-215 | END and SWITCH without data are received with the four zero bytes behind their header |
| Packet.ConnectReceived | common/apps/modem_control/packet.c:124-131 | CONNECT is a header that such a receiver accepts and two zero bytes |
| Packet.SetupUart | common/apps/modem_control/packet.c:114-207 | the in-place stores build the packet around the payload and change nothing else |
| Packet.SetupSpi | common/apps/modem_control/packet.c:123-216 | the in-place stores build the SPI image, command by command |
| Packet.SetupPacket | common/apps/modem_control/packet.c:107-222 | total length and buffer for every command and both channels; an unknown command changes nothing |
| ImageDownload.PayloadsAreTheImage | common/apps/modem_control/modem_boot.c:280-307 | the payloads together are the image followed by 0xFF, up to the announced size |
| ImageDownload.FramesCarryPayloads | common/apps/modem_control/modem_boot.c:302 | behind its header, frame k carries payload k |
| ImageDownload.FrameVerifies | common/apps/modem_control/packet.c:156-165 | every data frame's header verifies |
| ImageDownload.FramesDeliver | common/apps/modem_control/modem_boot.c:280-307 | from frame k such a receiver gets MIDST and the bytes of the file from 61440 k on, 0xFF behind its end; there are ceil(size/61440) frames |
| ImageDownload.Pad | common/apps/modem_control/modem_boot.c:297-301 | the padding loop fills with 0xFF and leaves the shared index at HS_PACKET_SIZE |
| ImageDownload.MakePacket | common/apps/modem_control/modem_boot.c:287-302 | whatever the read sizes, the frame of packet k goes out |
| ImageDownload.DownloadImage | common/apps/modem_control/modem_boot.c:259-313 | ends after exactly ceil(size/HS_PACKET_SIZE) packets although the padding loop reuses the counter, and stops exactly at the first message that is not acknowledged |
| ModemManager.ModemControl.ProcessModemStateMessage | common/apps/modem_control/main.c:216-310 | the nested switch is the transition table, with its broadcasts and the first-alive flag |
| ModemManager.ModemControl.Loop | common/apps/modem_control/main.c:343-356 | the loop over any finite run of readings is the specified run |
| ModemManager.RunKeeps | common/apps/modem_control/main.c:216-310 | in every run the events obey the life cycle and first_alive is set at most once |
| ModemManager.PassLaw | common/apps/modem_control/main.c:216-356 | which number read brings which boot, broadcast and next state, at every pass of every run |
| ModemManager.FirstAliveIff | common/apps/modem_control/main.c:227-241 | first_alive has been set if and only if a number with the alive bit has been read |
| ModemManager.BootsMatchAlives | common/apps/modem_control/main.c:343-356 | modem_boot calls are Alive broadcasts, plus one exactly in BOOTCOMP at a loop head |
| ModemManager.AssertsAreSeparated | common/apps/modem_control/main.c:288-305 | right before any later assert broadcast comes an Alive broadcast |
| ModemManager.InitIsNeverReentered | common/apps/modem_control/main.c:243-261 | INIT and SHUTDOWN are never entered again |
| ModemManager.EventsOfRuns | common/apps/modem_control/main.c:216-356 | a sequence of boots and broadcasts is that of some run if and only if it obeys the life cycle |
| CameraSteps.StepKeeps | common/libs/libcamera/SprdCameraHardwareInterface.cpp:2059-2284 | every API step and callback keeps: deliveries whole, one per picture, none yet for the current one |
| CameraSteps.RunKeeps | common/libs/libcamera/SprdCameraHardwareInterface.cpp:2059-2284 | so does every interleaving from a new object |
| CameraSteps.DeliveriesNeverExceedPictures | common/libs/libcamera/SprdCameraHardwareInterface.cpp:857-967 | compressed images never outnumber the calls that reached camera_take_picture, and each is its picture's fragments cut at heap capacity |
| CameraDeliveries.DeliveriesAre | common/libs/libcamera/SprdCameraHardwareInterface.cpp:1675-1757 | the images of any run are exactly these: one for each last fragment that comes while encoding into a heap, with data callback and message; it is the picture begun last, made of the fragments since, cut at the capacity |
| CameraDeliveries.HistoryIs | common/libs/libcamera/SprdCameraHardwareInterface.cpp:889-943 | the pictures begun and the fragments of the current one are those of the events |
| CameraDeliveries.PictureDelivers | common/libs/libcamera/SprdCameraHardwareInterface.cpp:857-1757 | from every idle object with data callback and message, takePicture and its callbacks hand over one more image, all fragments up to the capacity, and leave the object idle |
| CameraDeliveries.NullStep | common/libs/libcamera/SprdCameraHardwareInterface.cpp:2147-2184 | null is delivered exactly by a failed picture with the message and a callback |
| CameraDeliveries.FrameStep | common/libs/libcamera/SprdCameraHardwareInterface.cpp:1424-1440 | a frame is counted exactly while the preview runs |
| CameraDeliveries.PreviewStarts | common/libs/libcamera/SprdCameraHardwareInterface.cpp:570-634 | from every idle object startPreview and its callback lead to a running preview with its heap |
| CameraDeliveries.PreviewStops | common/libs/libcamera/SprdCameraHardwareInterface.cpp:636-679 | stopPreview and its callback lead back to an idle object without the heap |
| CameraDeliveries.PictureStopsPreview | common/libs/libcamera/SprdCameraHardwareInterface.cpp:857-887 | takePicture during a preview stops it and then goes on as from an idle object |
| CameraDeliveries.ReleaseStops | common/libs/libcamera/SprdCameraHardwareInterface.cpp:484-536 | release stops a started camera from every state |
| CameraDeliveries.CancelWaits | common/libs/libcamera/SprdCameraHardwareInterface.cpp:1006-1030 | cancelPicture during a picture holds the lock until the camera is idle or has failed |
| CameraDeliveries.ParametersStopPreview | common/libs/libcamera/SprdCameraHardwareInterface.cpp:1032-1118 | setParameters stops a running preview exactly if its size changes |
| CameraDeliveries.OneCallAtATime | common/libs/libcamera/SprdCameraHardwareInterface.cpp:484-1118 | while one call holds the lock no other begins |
| CameraSteps.ErrorIsLeftOnly | common/libs/libcamera/SprdCameraHardwareInterface.cpp:2172-2184 | QCS_ERROR is left if and only if a failed-picture callback does not crash, or release is called |
| CameraSteps.CrashesIff | common/libs/libcamera/SprdCameraHardwareInterface.cpp:1424-1757 | a run from a new object uses a null pointer if and only if at some event a fragment comes for a picture begun without a data callback, or a snapshot without raw heap or wanted notify callback, or a failed picture or video frame without the callback it needs |
| CameraSteps.RegisteredCrashesIff | common/libs/libcamera/SprdCameraHardwareInterface.cpp:2142-2145 | with all callbacks set first and never taken away, a run uses a null pointer if and only if a snapshot event comes while there is no raw heap |
| CameraSteps.NeverCrashes | common/libs/libcamera/SprdCameraHardwareInterface.cpp:1540-1585 | so none does if snapshots come only while a picture is being taken |
| CameraSteps.EarlySnapshotCrashes | common/libs/libcamera/SprdCameraHardwareInterface.cpp:1540-1585 | a run from a new object: camera started, callbacks set, and a snapshot event that goes through a null raw heap |
| CameraSteps.RunHeaps | common/libs/libcamera/SprdCameraHardwareInterface.cpp:376-482 | in every run, while a picture is taken there is a raw heap, and a JPEG heap exactly if it was begun with a data callback; while a preview runs there is a preview heap |
| CameraSteps.LateCallbackCrashes | common/libs/libcamera/SprdCameraHardwareInterface.cpp:1675-1684 | a run from a new object: callbacks set during a picture make its first fragment use a null JPEG heap |
| SprdCamera.SprdCameraHardware.ReceiveJpegPictureFragment | common/libs/libcamera/SprdCameraHardwareInterface.cpp:1675-1704 | the fragment goes behind the others in the heap, cut off at its capacity |
| SprdCamera.SprdCameraHardware.ReceiveJpegPicture | common/libs/libcamera/SprdCameraHardwareInterface.cpp:1709-1757 | delivers the heap up to mJpegSize if there is a callback and the message is enabled, and drops the heap |
| SprdCamera.SprdCameraHardware.PictureDone | common/libs/libcamera/SprdCameraHardwareInterface.cpp:1587-1673 | the end of a picture starts encoding into an empty heap, or ends in an error |
| SprdCamera.SprdCameraHardware.TakeSnapshot | common/libs/libcamera/SprdCameraHardwareInterface.cpp:1522-1585 | a snapshot uses the notify callback if the shutter message is enabled, and the raw heap if there is a data callback, without looking whether they are there |
| SprdCamera.SprdCameraHardware.ReceivePreviewFrame | common/libs/libcamera/SprdCameraHardwareInterface.cpp:1424-1508 | the first frame is dropped; later ones need preview heap and timestamp callback by the messages enabled |
| SprdCamera.SprdCameraHardware.InitRaw | common/libs/libcamera/SprdCameraHardwareInterface.cpp:376-482 | raw heap, and JPEG heap if it will be needed; neither is left after a failure |
| SprdCamera.SprdCameraHardware.BeginTakePicture | common/libs/libcamera/SprdCameraHardwareInterface.cpp:889-943 | from QCS_IDLE only: new heaps, and the picture is requested and counted |
| SprdCamera.SprdCameraHardware.BeginCall | common/libs/libcamera/SprdCameraHardwareInterface.cpp:484-1118 | what each API call does up to its first wait, once it holds the lock |
| SprdCamera.SprdCameraHardware.Proceed | common/libs/libcamera/SprdCameraHardwareInterface.cpp:484-1118 | each waiting call goes on exactly when the state it waits for has come, and does the rest |
| SprdCamera.SprdCameraHardware.CameraCb | common/libs/libcamera/SprdCameraHardwareInterface.cpp:2059-2284 | the callback on fields and heap is the specified step |
| SprdCamera.Session | common/libs/libcamera/SprdCameraHardwareInterface.cpp:2005-2284 | every run of the object is a run of the state machine |
| OverlayRects.AlignSigned | common/libs/hwcomposer/hwcomposer.cpp:250-282 | rounding up survives the wrap of a negative value through uint32_t |
| OverlayRects.SourceAxis | common/libs/hwcomposer/hwcomposer.cpp:251-263 | the mixed-sign computation of one source axis is the plain clamp and round-up, negative extents included |
| OverlayRects.TargetAxis | common/libs/hwcomposer/hwcomposer.cpp:265-282 | the same for a destination axis |
| OverlayRects.SourceLies | common/libs/hwcomposer/hwcomposer.cpp:251-263 | the start is the least multiple not below the crop and the edge, the extent the least multiple that reaches to the end of crop and image, both kept inside the image |
| OverlayRects.SourceIsIntersection | common/libs/hwcomposer/hwcomposer.cpp:251-263 | without rounding the source is the part of the crop inside the image |
| OverlayRects.SourceMovesLittle | common/libs/hwcomposer/hwcomposer.cpp:251-263 | an aligned crop is kept, and otherwise each end moves by three at most |
| OverlayRects.TargetLies | common/libs/hwcomposer/hwcomposer.cpp:265-282 | the same for the destination, whose extent also leaves room for the rounding of its start |
| OverlayRects.TargetKeeps | common/libs/hwcomposer/hwcomposer.cpp:265-282 | an aligned frame on the screen is kept |
| HwComposer.AcceptedVideo | common/libs/hwcomposer/hwcomposer.cpp:220-309 | an accepted source lies in the image, its destination on the screen with sides 4 to 960, scaled by 1/4 to 4 in the rotated sense, and in multiples of 4 where the screen is |
| HwComposer.AlignedVideoIff | common/libs/hwcomposer/hwcomposer.cpp:220-309 | a layer on multiples of four inside image and screen is a video layer if and only if format, memory, blending, transform and the limits of the scaler allow it |
| HwComposer.WholeOsdIff | common/libs/hwcomposer/hwcomposer.cpp:153-218 | a layer that shows its whole buffer on the whole screen is an OSD layer if and only if the buffer is RGBA, of the size of the screen, upright or turned, and reachable |
| HwComposer.PartialIsNoOsd | common/libs/hwcomposer/hwcomposer.cpp:153-218 | a layer that leaves out a part of buffer or screen is none |
| HwComposer.HwcContext.VerifyVideoLayer | common/libs/hwcomposer/hwcomposer.cpp:220-309 | accepts if and only if the decision on true integers does; the rectangles change exactly past the early exits, and those of an accepted layer are its crop and frame, rounded as above |
| HwComposer.HwcContext.VerifyOsdLayer | common/libs/hwcomposer/hwcomposer.cpp:153-218 | accepts if and only if a screen-sized buffer is shown whole on the whole screen, upright or turned |
| HwComposer.OverlaysAreFew | common/libs/hwcomposer/hwcomposer.cpp:552-588 | at most one overlay of each kind, and an OSD overlay only with a video overlay |
| HwComposer.AllOverlays | common/libs/hwcomposer/hwcomposer.cpp:711-728 | no layer is left to the framebuffer if and only if the list is one video, or one video and one OSD layer |
| HwComposer.StoredAreChosenIff | common/libs/hwcomposer/hwcomposer.cpp:245-282 | the stored rectangles are the chosen video layer's if and only if the last layer past the early exits has its format and size and clamps and rounds to the same places |
| HwComposer.LaterLayerOverwrites | common/libs/hwcomposer/hwcomposer.cpp:552-580 | two video layers of which the second's rectangles are left though the first is chosen |
| HwComposer.HwcContext.Prepare | common/libs/hwcomposer/hwcomposer.cpp:531-610 | exactly the first video layer, and beside it the first OSD layer of a list of at most two, become overlays; the counter is the number of framebuffer layers |
| HwComposer.HwcContext.Set | common/libs/hwcomposer/hwcomposer.cpp:672-740 | hands on the last overlay of each format and takes the overlay-only path by counter and flags |
| HwComposer.HwcContext.Compose | common/libs/hwcomposer/hwcomposer.cpp:531-740 | a frame takes the overlay-only path if and only if the list is one video, or one video and one OSD layer; the layers handed on are the chosen ones |
| SlotMask.SetAndClear | common/libs/gralloc/alloc_device.cpp:395-403 | setting or clearing one slot's bit leaves all others |
| SlotMask.FullMask | common/libs/gralloc/alloc_device.cpp:387-391 | the comparison with (1 << n) - 1 holds if and only if every slot's bit is set |
| FramebufferSlots.DivisionRecoversSlot | common/libs/gralloc/alloc_device.cpp:595-597 | the division of free recovers the slot whose address alloc added up |
| FramebufferSlots.SlotInside | common/libs/gralloc/framebuffer_device.cpp:383-397 | every slot lies inside the page-rounded mapping |
| FramebufferSlots.SlotsDisjoint | common/libs/gralloc/alloc_device.cpp:393-403 | two slots do not overlap |
| FramebufferSlots.LiveIsBalance | common/libs/gralloc/alloc_device.cpp:359-411 | in every legal run live slots are successful allocations less frees, all below n |
| FramebufferSlots.PrivateModule.AllocFramebuffer | common/libs/gralloc/alloc_device.cpp:359-411 | fails if and only if all slots are live, else takes the lowest free slot; one buffer falls back to a regular allocation |
| FramebufferSlots.PrivateModule.Free | common/libs/gralloc/alloc_device.cpp:591-599 | exactly the handle's slot becomes free |
| FramebufferSlots.PrivateModule.LiveSlots | common/libs/gralloc/alloc_device.cpp:393-407 | live slots are disjoint and inside the mapping |
| FramebufferSlots.PrivateModule.Run | common/libs/gralloc/alloc_device.cpp:359-411 | over any legal run the mask serves as the lowest-free allocator over a set does |
| BootAlarm.CheckAlarmDayIsNext | common/apps/alarm/alarm.c:966-990 | the day is the only one on which the time comes within a day, counted from forty seconds ago |
| BootAlarm.RemainSecs | common/apps/alarm/alarm.c:1012-1022 | the remaining seconds complete the week |
| BootAlarm.WeekClock | common/apps/alarm/alarm.c:1000-1011 | weekday from Monday, hour, minute and second can be read off the seconds of the week |
| BootAlarm.MaskIsItsDays | common/apps/alarm/alarm.c:851 | the mask is the sum of the bits of its days |
| BootAlarm.WeeklyIsTheMask | common/apps/alarm/alarm.c:851-877 | one item for each day of the mask, in the order of the week |
| BootAlarm.ScheduledIff | common/apps/alarm/alarm.c:801-891 | an alarm is scheduled if and only if it is due of an enabled entry: at its time, on a day of its mask, or once within a day |
| BootAlarm.RingFileOnce | common/apps/alarm/alarm.c:287-317 | the time of the ring file is added exactly if no alarm rings then |
| BootAlarm.ScheduleWithinWeek | common/apps/alarm/alarm.c:801-891 | a sane database schedules within one week |
| BootAlarm.Alarms.AddTimes | common/apps/alarm/alarm.c:815-879 | the day loop links exactly the times of one entry |
| BootAlarm.Alarms.CreateAlarmSecList | common/apps/alarm/alarm.c:801-891 | from an empty list: the in-order expansion of every enabled entry and the ring-file time if new; from any other, behind its head only |
| BootAlarm.Alarms.GetLatestAlarmTime | common/apps/alarm/alarm.c:1089-1156 | the least time ahead round the week, alarm_cur the first entry attaining it; on the first call with an alarm less than a minute old, that alarm, at once or with the rest of the week added, except for the one-second case; at zero the alarm fires and a one-shot entry is disabled |
| BootAlarm.NearestRingsFirst | common/apps/alarm/alarm.c:1089-1156 | no alarm rings before the one found, and that one rings when the time is over |
| BootAlarm.Alarms.CreateAndFind | common/apps/alarm/alarm.c:801-1156 | building the list and searching it finds the alarm that rings first, and when, unless one was just missed |

## Left out

- Sockets, ioctls, sysfs, mmap, fork, signals (also those of the modem manager to its monitor), logging, wake locks and sleeps.
- The write loops of the `send_*_message` functions, which send from the start again after a short write: a frame is written in one call.
- The sensors' `setEnable`, `setDelay` and device handling; the enable set is fixed during a run of calls. Input codes and GRAVITY_EARTH come from headers that are not part of this model and are written as numbers; sensor values are exact, without the rounding of `float`.
- The odd-address branch of `calc_checksum`, which steps in 16-bit words from an odd address and computes another sum.
- Audio resampler, echo reference, effects and `aud_rec_do_process`: the preprocessors are an abstract step that takes and produces no more than offered, and the overlapping `memcpy` is a move.
- AudioCapture.TinyStreamIn.ProcessFrames: watches a bounded but arbitrary number of rounds, because preprocessors that never produce keep the source's loop running for ever. A failing read loses the frames it had already copied, as in the source.
- NvDaemon.RunSafe: covers fixnv requests that stay inside the buffer, which is four bytes longer than the image; the code only logs larger ones and copies them beyond it, which has no meaning here. Partial header reads are not modelled.
- NvDaemon.Runtimenv: the retry of a failed write to a runtimenv file, whose writes always go through here; how a file looks in the middle of a runtimenv or productinfo write is not part of this model.
- ByteStuffing.UntranslatePacket: gives the span of the CRC on the closing flag, which is 2^32-1 for a payload of one byte; reading that many bytes is not modelled and the CRC is not used by the code.
- ImageDownload.DownloadImage: for files at least as long as the announced size and sizes that are not negative; the handshakes and the order of several images are not modelled.
- Camera: the contents of raw pictures and preview frames (only the pointers they use), focus, zoom buffers and parameters; a frame event always carries a frame. Steps that belong to one call may interleave with others, and a refusal by the library may come later than it can, so every claim covers more runs than can happen.
- HwComposer.HwcContext.VerifyVideoLayer: coordinates and sizes below 2^28, so that nothing overflows 32 bits; the transformation of the pixels and the osd thread are not modelled.
- FramebufferSlots.PrivateModule.constructor: fewer than 32 buffers, since a wider shift is undefined; failures of the first mapping are not modelled.
- BootAlarm.Alarms.CreateAlarmSecList: running out of memory while the list is built is not modelled.
- BootAlarm.Alarms.GetLatestAlarmTime: says which entry is found for lists without negative times, which is what the schedule, the ring file and snoozing put there.
- Rendering, menus, lights, batteries, the mixer configuration, the call-control thread and the camera tables: interface or trivial code.
