# DLPC900 USB driver and RS485 laser link: a Dafny model

This project models the core of `dlpyc900`, a Python driver for the Texas Instruments DLPC900
digital micromirror device (DMD) controller, in Dafny. It also models the driver's companion
RS485 laser-driver link. The model covers these parts:

- **USB command frame** (`UsbFrame`). This is the 6-byte header: flag, sequence byte, length and
  command code. It also covers how a command is cut into 64-byte USB packets, and `parse_reply`.
- **USB transport** (`UsbPort`). `send_command` runs against an abstract device. Writes can fail
  and are retried once; reads return scripted answers. The transport keeps a log of every packet
  the device received.
- **Bit-string helpers** (`BitStrings`). These are `number_to_bits`, `bits_to_bytes` and
  `bits_to_bools`, with Python's binary numerals written out as strings of digits.
- **Payload codecs** (`Payloads`). These cover the port/clock byte, the input-source byte, the
  pattern look-up-table (LUT) payloads, the firmware version, the hardware and error-code tables,
  the status bytes and the power-mode decoding.
- **The `dmd` facade** (`Device`). Every public method is a function from the facade's state to
  its outcome and the state after it. The state holds:
  - the cached display mode;
  - the hardware name;
  - the transport;
  - the list of `send_command` calls issued.
- **`RS485Device`** (`Rs485`). This covers frame building, checksum, response validation, the
  serial exchange and the four device commands.

The model follows the code as written. Where the code does something other than what it evidently
means to do, the model keeps the code's behaviour and a lemma states the consequence. Examples:

- `get_hardware_status` raises before it builds a report unless bit 0 is set and bit 1 is clear.
- `check_communication_status` always raises.
- Two LUT bytes lose fields to operator precedence.
- The RS485 builder and validator checksum different byte ranges.

## Model

| member | source | states |
|---|---|---|
| BitStrings.NumberToBits | dlpyc900/dlpyc900.py:23-25 | the numeral has only binary digits, is at least `bitlen` long (longer when the number needs more), and denotes the number |
| BitStrings.BitsToBytes | dlpyc900/dlpyc900.py:17-21 | one byte per 8-digit group, rounded up |
| BitStrings.NumberToBitsBytes | dlpyc900/dlpyc900.py:17-25 | a number below 2^(8k) written with 8k digits and converted back is its k bytes, least significant first (the list is reversed) |
| BitStrings.TenBitSplit | dlpyc900/dlpyc900.py:17-25 | a 10-digit numeral splits into bytes [n & 3, n >> 2]: the first group has 8 digits, so the low byte is the 2 leftover digits |
| BitStrings.ByteBitAt | dlpyc900/dlpyc900.py:23-25 | character i of a byte's 8-digit numeral is '1' exactly when bit 7-i is set |
| BitStrings.BitsToBools | dlpyc900/dlpyc900.py:27-29 | one integer per character, each the character's digit value; on a binary numeral, 1 for '1' and 0 for '0' |
| UsbFrame.FlagByte | dlpyc900/dlpyc900.py:91-94 | the flag is 0xC0 for mode "r" and 0x40 for any other mode string |
| UsbFrame.BuiltHeaderIsHeader | dlpyc900/dlpyc900.py:89-109 | for every payload that passes the size check, the header built through bit strings is flag, sequence, little-endian length+2 and little-endian command code |
| UsbFrame.Packets | dlpyc900/dlpyc900.py:111-137 | a command occupies one packet up to 58 payload bytes, then one more per 64 further bytes, each packet 64 bytes long |
| UsbFrame.PacketsConcat | dlpyc900/dlpyc900.py:111-137 | the packets laid end to end are the header, the payload and zero padding, nothing reordered or lost |
| UsbFrame.PacketBoundary | dlpyc900/dlpyc900.py:112-125 | 58 payload bytes fit one packet; 59 and 60 need two |
| UsbFrame.ParseReply | dlpyc900/dlpyc900.py:31-44 | None passes through; under 4 bytes raises IndexError, and 4 bytes or more always parse; otherwise the flag byte, sequence, little-endian length, error flag from bit 5, and data cut to the declared length or to what is there |
| UsbFrame.ParseCommandPacket | dlpyc900/dlpyc900.py:31-44 | parsing the packet of a short command gives back its sequence byte, length and command bytes followed by the payload |
| UsbFrame.ParseReplyPacket | dlpyc900/dlpyc900.py:31-44 | a device reply frame parses to its sequence byte and data with the error flag clear |
| UsbPort.WriteRetrying | dlpyc900/dlpyc900.py:115-120 | a failed write is retried once; two failures in a row raise; a reliable port never fails |
| UsbPort.WriteAll | dlpyc900/dlpyc900.py:127-137 | the device receives a prefix of the packets, all of them when the loop completes; two failures in a row on a chunk raise with nothing of it delivered |
| UsbPort.ChunkRetried | dlpyc900/dlpyc900.py:132-137 | one failed write of a chunk is absorbed: the loop goes on as if the port had not failed, with the chunk delivered |
| UsbPort.Read | dlpyc900/dlpyc900.py:139-143 | a read consumes one scripted answer and returns at most 64 bytes; a timeout raises |
| UsbPort.SendCommand | dlpyc900/dlpyc900.py:71-146 | over 512 bytes raises before anything is sent; the device receives a prefix of the command's packets and all when the call returns; the first packet of a long command is not retried; a short command's packet raises after two failures in a row; a read returns a reply without the error flag; a reliable port delivers everything |
| UsbPort.ShortCommandRetried | dlpyc900/dlpyc900.py:112-120 | one failed write of a short command's packet is absorbed: the call behaves as on a port without that failure |
| Payloads.PortClockRoundTrip | dlpyc900/dlpyc900.py:299-340 | the setter's byte is below 64 and the getter decodes it to the four fields masked to their widths |
| Payloads.PortClockOfDecoded | dlpyc900/dlpyc900.py:299-340 | re-encoding a decoded byte gives its low six bits |
| Payloads.InputSourceRoundTrip | dlpyc900/dlpyc900.py:342-376 | the input-source byte is below 32 and decodes to source mod 8 and bit depth mod 4 |
| Payloads.LutStartPayload | dlpyc900/dlpyc900.py:487-490 | at least 6 bytes, exactly 6 when the entry count is below 1024 and the pattern count below 2^32 |
| Payloads.LutStartLayout | dlpyc900/dlpyc900.py:475-490 | in range, the LUT start payload is [entries & 3, entries >> 2] and the pattern count little-endian |
| Payloads.LutStartOverflow | dlpyc900/dlpyc900.py:475-490 | for 1024-2047 entries the 11-digit numeral splits into [entries & 7, entries >> 3] |
| Payloads.LutEntryPayload | dlpyc900/dlpyc900.py:517-539 | the entry is always 12 bytes, whatever the field values |
| Payloads.LutEntryLayout | dlpyc900/dlpyc900.py:517-539 | every field of the 12-byte LUT entry reads back from its position, with byte 5 and byte 9 as the precedence quirks leave them |
| Payloads.LutByte5Value | dlpyc900/dlpyc900.py:523-527 | byte 5 keeps bits 1-3 of bitdepth-1 and bits 4-6 of the colour |
| Payloads.LutByte9Value | dlpyc900/dlpyc900.py:531-533 | byte 9 is the disable-trigger flag alone; the extended-bit-depth flag is masked away |
| Payloads.LutColorDropped | dlpyc900/dlpyc900.py:523-527 | every documented colour 0-7 gives the same byte 5 as colour 0 |
| Payloads.DocumentedLutByte5Fields | dlpyc900/dlpyc900.py:523-527 | the documented byte 5 decodes back to bitdepth-1 and colour |
| Payloads.LutByte5Defaults | dlpyc900/dlpyc900.py:492-527 | with the defaults (bit depth 8, colour 1) the code sends 0x06 where the documented layout gives 0x1E |
| Payloads.LutByte5Agreement | dlpyc900/dlpyc900.py:523-527 | the as-written and documented byte 5 agree exactly when bitdepth-1 is 0 or 15 modulo 16 and the colour's bits 4-6 equal its bits 0-2; for bit depths 1-8 and colours 0-7 only bit depth 1 with colour 0 |
| Payloads.LutBitPositionByte | dlpyc900/dlpyc900.py:535-537 | with an image index below 256, byte 11 carries the bit position alone in bits 3-7 |
| Payloads.SourceConfigPayload | dlpyc900/dlpyc900.py:641-661 | width, height and frame rate each read back little-endian modulo 2^16 |
| Payloads.Word32Payload | dlpyc900/dlpyc900.py:676-690 | the four bytes read back little-endian as the value modulo 2^32 |
| Payloads.TriggerOutPayload | dlpyc900/dlpyc900.py:692-711 | polarity as 0/1, then both delays little-endian modulo 2^16 |
| Payloads.FirmwareRoundTrip | dlpyc900/dlpyc900.py:609-625 | decoding the 16 bytes of four encoded versions gives the versions back |
| Payloads.HardwareTable | dlpyc900/dlpyc900.py:250-259 | codes 0-5 name a product and back; every other code is undocumented hardware |
| Payloads.FirmwareTag | dlpyc900/dlpyc900.py:258 | character i has code byte i |
| Payloads.DeviceErrorTable | dlpyc900/dlpyc900.py:272-295 | each code maps to an error whose code is that code; undocumented exactly outside 1-17 and 255 |
| Payloads.Description | dlpyc900/dlpyc900.py:637-638 | the description has no NUL characters and is no longer than the data |
| Payloads.DescriptionAppend | dlpyc900/dlpyc900.py:637-638 | the description of a concatenation is the concatenation of the descriptions, so each byte is filtered on its own |
| Payloads.DescriptionByte | dlpyc900/dlpyc900.py:637-638 | a NUL byte contributes nothing and any other byte its own character |
| Payloads.DescriptionPadding | dlpyc900/dlpyc900.py:637-638 | NUL padding after the text does not change the description |
| Payloads.DescriptionOfText | dlpyc900/dlpyc900.py:637-638 | text without NUL bytes comes through character for character |
| Payloads.MainStatusBits | dlpyc900/dlpyc900.py:237-239 | element i of the main status is bit 7-i of the status byte, so the tuple holds bits 7 to 2 |
| Payloads.HardwareReportBits | dlpyc900/dlpyc900.py:168-206 | each report flag is the bit its numeral character stands for, and the error count sums the error flags |
| Payloads.HardwareReportFlags | dlpyc900/dlpyc900.py:167-205 | each report flag is the bit of the status byte its numeral character stands for; character 5 is not read |
| Payloads.PowerModeTable | dlpyc900/dlpyc900.py:568-587 | sleep 1 is standby; sleep above 1 is undocumented; sleep 0 with idle above 1 falls through to None; each documented mode's register pair decodes to it |
| Device.ModeTables | dlpyc900/dlpyc900.py:54-55 | the name and index tables are mutually inverse; an index of 4 or more raises KeyError |
| Device.Write | dlpyc900/dlpyc900.py:71-146 | a write issues one command and reads nothing; within the 512-byte limit, over a reliable port it returns after delivering all its packets; above it, it raises with nothing sent |
| Device.Query | dlpyc900/dlpyc900.py:71-146 | a read issues one command and, when it returns, has consumed one answer and carries no error flag |
| Device.QueryAnswered | dlpyc900/dlpyc900.py:71-146 | a read answered by a device frame returns that frame's sequence byte and data |
| Device.Connect | dlpyc900/dlpyc900.py:50-60 | a new facade caches pattern mode and has issued the hardware query; a DMDerror becomes "connection not successful" |
| Device.ConnectAnswered | dlpyc900/dlpyc900.py:50-60 | an answered hardware query connects and stores the product named by the first byte |
| Device.ConnectErrorFlag | dlpyc900/dlpyc900.py:50-60 | a reply with the error flag set is reported as a failed connection |
| Device.GetHardwareStatus | dlpyc900/dlpyc900.py:149-206 | a report only comes from a byte with bit 0 set, which it counts as a sequencer error, so the count is at least 1 |
| Device.HardwareStatusAnswered | dlpyc900/dlpyc900.py:158-206 | UnboundLocalError unless bit 0 is set and bit 1 clear; otherwise the report of the status byte |
| Device.CheckCommunicationStatus | dlpyc900/dlpyc900.py:208-213 | the call never returns normally |
| Device.CommunicationAlwaysFails | dlpyc900/dlpyc900.py:208-213 | whatever the status byte, "cannot communicate" is raised |
| Device.CheckSystemStatus | dlpyc900/dlpyc900.py:215-220 | the memory-test error is never raised |
| Device.SystemCheckAlwaysPasses | dlpyc900/dlpyc900.py:215-220 | whatever the status byte, the check passes |
| Device.GetMainStatus | dlpyc900/dlpyc900.py:222-239 | one read of 0x1A0C; a returned tuple has six elements, each 0 or 1, and one answer is consumed |
| Device.MainStatusAnswered | dlpyc900/dlpyc900.py:222-239 | element i of the returned tuple is bit 7-i of the device's status byte |
| Device.GetHardware | dlpyc900/dlpyc900.py:241-259 | one read of 0x0206; an empty reply raises IndexError; the firmware tag has one character per data byte after the first |
| Device.HardwareAnswered | dlpyc900/dlpyc900.py:241-259 | the product named by the first data byte and the rest as text |
| Device.CheckForError | dlpyc900/dlpyc900.py:261-296 | a reported error never has code 0 |
| Device.CheckForErrorAnswered | dlpyc900/dlpyc900.py:261-296 | no error exactly for an empty reply or code 0; otherwise the error the code names |
| Device.SetPortClockDefinition | dlpyc900/dlpyc900.py:299-321 | one write of the packed byte to 0x1A03; the cache and the answers are untouched |
| Device.GetPortClockDefinition | dlpyc900/dlpyc900.py:323-340 | one read under sequence byte 243; a reply under any other sequence byte fails the assertion; returned fields are within their widths |
| Device.PortClockAnswered | dlpyc900/dlpyc900.py:323-340 | a reply under a sequence byte other than 243 fails the assertion; an echo of the setter's byte gives the masked fields |
| Device.SetInputSource | dlpyc900/dlpyc900.py:342-359 | one write of the packed byte to 0x1A00 |
| Device.GetInputSource | dlpyc900/dlpyc900.py:361-376 | one read under sequence byte 112; a reply under any other sequence byte fails the assertion; the source is below 8 and the bit depth below 4 |
| Device.InputSourceAnswered | dlpyc900/dlpyc900.py:361-376 | a sequence byte other than 112 fails the assertion; an echo gives source mod 8 and bit depth mod 4 |
| Device.LockSource | dlpyc900/dlpyc900.py:378-403 | the lock byte to 0x1A01, then the default input source 0 to 0x1A00 |
| Device.GetSourceLock | dlpyc900/dlpyc900.py:405-412 | the status read, then the lock read only when it returns a non-zero lock |
| Device.SourceLocked | dlpyc900/dlpyc900.py:405-412 | with bit 4 of the main status set, the lock byte the device reports |
| Device.SourceUnlocked | dlpyc900/dlpyc900.py:405-412 | with bit 4 clear, 0 after the one status read |
| Device.GetDisplayMode | dlpyc900/dlpyc900.py:442-453 | a successful read updates the cache to the mode returned; a failed one leaves it |
| Device.DisplayModeAnswered | dlpyc900/dlpyc900.py:442-453 | the mode the device's byte names, IndexError for an empty reply, KeyError for an unknown byte |
| Device.ReadBackMode | dlpyc900/dlpyc900.py:434-438 | one read, or two when the first raised IndexError |
| Device.ActivateMode | dlpyc900/dlpyc900.py:432-440 | success leaves the cache at the requested mode after the write and one or two reads |
| Device.SetDisplayMode | dlpyc900/dlpyc900.py:417-440 | an unknown name, or video-pattern without a cached video mode, raises ValueError with nothing sent; success caches the requested mode |
| Device.VideoPatternAfterConnect | dlpyc900/dlpyc900.py:50-60 | right after connecting, video-pattern is refused with nothing sent |
| Device.ModeConfirmed | dlpyc900/dlpyc900.py:432-440 | a device reporting the requested mode completes the call with exactly one write and one read |
| Device.ModeRejected | dlpyc900/dlpyc900.py:432-440 | a device reporting another mode makes the call raise, and the cache follows the device |
| Device.ModeRetried | dlpyc900/dlpyc900.py:434-440 | an empty first read-back is retried, and a confirming second one completes the call |
| Device.ControlPattern | dlpyc900/dlpyc900.py:457-473 | start, pause and stop each write their byte to 0x1A24 |
| Device.StartPatternFromLut | dlpyc900/dlpyc900.py:475-490 | in range, one write of [entries & 3, entries >> 2] and the count little-endian to 0x1A31 |
| Device.SetupPatternLutDefinition | dlpyc900/dlpyc900.py:492-539 | one write of the 12-byte entry to 0x1A34 |
| Device.GetCurrentPowerMode | dlpyc900/dlpyc900.py:568-587 | reads the idle register and then the sleep register |
| Device.PowerModeAnswered | dlpyc900/dlpyc900.py:568-587 | the mode the two register bytes denote |
| Device.EnterStandby | dlpyc900/dlpyc900.py:543-549 | a sequencer stop, the sleep write and both register reads, all issued when the call returns |
| Device.StandbyAnswered | dlpyc900/dlpyc900.py:543-549 | standby succeeds exactly when the sleep register reads 1 |
| Device.Wakeup | dlpyc900/dlpyc900.py:551-553 | writes 0 to 0x0200 |
| Device.Reset | dlpyc900/dlpyc900.py:555-557 | writes 2 to 0x0200 |
| Device.IdleOn | dlpyc900/dlpyc900.py:559-562 | stops the sequencer, then writes 1 to 0x0201 |
| Device.IdleOff | dlpyc900/dlpyc900.py:564-566 | writes 3 to 0x0201 |
| Device.SetFlip | dlpyc900/dlpyc900.py:591-602 | the flag as 0/1 to 0x1008 for the long axis or to 0x1009 for the short axis |
| Device.GetFlip | dlpyc900/dlpyc900.py:595-607 | one read of the axis's flip command, consuming one answer when it returns |
| Device.FlipAnswered | dlpyc900/dlpyc900.py:595-607 | any non-zero byte reads as flipped, so an echo of the setter's byte gives the flag back |
| Device.GetFirmwareVersion | dlpyc900/dlpyc900.py:609-625 | every decoded patch number fits 16 bits |
| Device.FirmwareAnswered | dlpyc900/dlpyc900.py:609-625 | fewer than 16 data bytes raise IndexError; an encoded version decodes to itself |
| Device.GetErrorDescription | dlpyc900/dlpyc900.py:628-638 | one read of 0x0101; the description contains no NUL character and is no longer than the reply data |
| Device.ErrorDescriptionAnswered | dlpyc900/dlpyc900.py:628-638 | NUL-free text followed by NUL padding reads back as the text |
| Device.SetInputSourceConfig | dlpyc900/dlpyc900.py:641-661 | one write of the 6-byte configuration to 0x1A3C |
| Device.SetTestPattern | dlpyc900/dlpyc900.py:663-674 | an index outside 0-10 raises ValueError with nothing sent; otherwise the index goes to 0x1203 |
| Device.SetMinLedPulseWidth | dlpyc900/dlpyc900.py:676-690 | one write of the width over 32 bits to 0x1A41 |
| Device.SetTriggerOut1 | dlpyc900/dlpyc900.py:692-711 | one write of polarity and delays to 0x1A1D |
| Device.SetTriggerIn1 | dlpyc900/dlpyc900.py:713-726 | one write of the delay over 32 bits to 0x1A35 |
| Device.OtfChunks | dlpyc900/dlpyc900.py:750-752 | ceil(n/60) chunks, each non-empty and at most 60 bytes, all but the last exactly 60 |
| Device.OtfChunksConcat | dlpyc900/dlpyc900.py:750-752 | the chunks concatenate back to the encoded stream |
| Device.LoadCommands | dlpyc900/dlpyc900.py:751-753 | one write to the load command per chunk, in order |
| Device.LoadChunks | dlpyc900/dlpyc900.py:751-753 | the chunk writes go out in order, stop at the first failure, and all succeed over a reliable port |
| Device.LoadPatternOnTheFly | dlpyc900/dlpyc900.py:728-753 | the length to the init command, then the chunks to the load command, primary or secondary controller |
| Device.OtfStream | dlpyc900/dlpyc900.py:728-753 | the load commands carry the encoded stream unchanged and in order |
| Device.OtfChunkPackets | dlpyc900/dlpyc900.py:750-753 | a full 60-byte chunk takes two USB packets, although the comment reserves only 4 header bytes; 58 would fit one |
| Rs485.Checksum | dlpyc900/WCIL.py:21-23 | the checksum is a byte congruent to the sum modulo 256 |
| Rs485.SumAppend | dlpyc900/WCIL.py:21-23 | the byte sum of a concatenation is the sum of the parts' sums |
| Rs485.BuildFrame | dlpyc900/WCIL.py:25-29 | header, address, function code, data, checksum and tail; the checksum covers the function code and all but the last two data bytes |
| Rs485.ValidateResponse | dlpyc900/WCIL.py:31-40 | a valid response has at least 8 bytes, starts 55 AA, ends DA C3, and carries the driver's address and the expected function code |
| Rs485.ValidIffDocumented | dlpyc900/WCIL.py:31-40 | a response validates exactly when it is the frame whose checksum covers the function code and all of its data |
| Rs485.DocumentedValid | dlpyc900/WCIL.py:31-40 | every such frame with at least one data byte validates |
| Rs485.BuiltFrameValid | dlpyc900/WCIL.py:25-40 | a frame the driver builds passes its own validator exactly when its last two data bytes sum to a multiple of 256 |
| Rs485.RequestFrameValid | dlpyc900/WCIL.py:25-40 | the reset, status and clear request frames pass the validator |
| Rs485.SendAndReceive | dlpyc900/WCIL.py:42-55 | a returned response validates and has at most 10 bytes; a raising write sends nothing; a serial error gives None |
| Rs485.EchoCommand | dlpyc900/WCIL.py:57-66 | success exactly when the reply validates and echoes the three data bytes |
| Rs485.ResetOutput | dlpyc900/WCIL.py:57-66 | a documented echo confirms the reset; a serial error never does |
| Rs485.ClearFault | dlpyc900/WCIL.py:110-119 | a documented echo confirms the clear; a serial error never does |
| Rs485.CurrentData | dlpyc900/WCIL.py:73-75 | high byte then low byte of the current modulo 2^16, then a reserved 0 |
| Rs485.SetOutputCurrent | dlpyc900/WCIL.py:68-82 | above 3500 mA nothing is sent and the result is False; success implies the frame was sent |
| Rs485.CurrentAnswered | dlpyc900/WCIL.py:68-82 | a documented echo confirms the current; an echo of the request frame confirms it only when the low byte is 0 |
| Rs485.StatusPriority | dlpyc900/WCIL.py:94-103 | 0 is normal; otherwise the lowest set bit among 0, 1 and 2 decides; none of them set is unknown |
| Rs485.GetDeviceStatus | dlpyc900/WCIL.py:84-108 | a serial error gives None; the temperature in tenths is below 65536 |
| Rs485.StatusAnswered | dlpyc900/WCIL.py:84-108 | a documented status reply reports its status byte and byte1*256+byte2 tenths |

## Left out

- USB and serial device discovery, opening and closing, and the context-manager methods. The
  transports are abstract: `UsbPort.Port` scripts write failures and read answers, and
  `Rs485.Serial` scripts one outcome per exchange.
- Sleeps (`time.sleep`). They have no effect on the values computed.
- Printing. `Device.CheckForError` returns the error that `check_for_error` prints, and the RS485
  commands return only their boolean or status value.
- The ERLE encoder `encode(images)`, numpy images and the `erle` module. These are not part of
  this model. `Device.LoadPatternOnTheFly` takes the encoded stream and its length as parameters.
- The commented-out I2C pass-through commands.
- Device behaviour. The device's register contents are not modelled, only its replies, so a
  write followed by a read is related only through scripted answers.
- BitStrings.NumberToBits: takes a natural number only. Python formats a negative number with a
  leading '-', and `int(..., 2)` reads such a piece back as a negative number. A negative value
  therefore reaches the device silently as the bytes of its magnitude's pieces, or makes the USB
  write raise when a piece is below zero. No caller passes one.
- Payloads.LutStartPayload: entry and pattern counts are natural numbers. A negative count is sent
  silently as its magnitude's bytes, or makes the USB write raise, as for `NumberToBits`.
- BitStrings.BitsToBools: requires decimal digits, which is what every caller passes. Python's
  `int` accepts more.
- UsbFrame.Reply: stores the flag byte. The Python tuple holds its 8-digit numeral (`FlagBits`),
  which no caller reads.
- Device.Connect: the hardware field before the reply is a placeholder, never read.
- Device.Write: the facade contracts describe what is sent as a list of issued commands. The
  packets of each command are stated once, in `Device.Write`, `Device.Query` and
  `UsbPort.SendCommand`.
- Device.SetFlip: the boolean is sent as 0 or 1, which is what the USB library makes of a Python
  bool.
- Rs485.BuildFrame: the function code is a byte. For other values `bytes([...])` raises
  ValueError, and no caller passes one.
- Rs485.GetDeviceStatus: the temperature is an integer number of tenths of a degree. The code
  multiplies by the float 0.1.
