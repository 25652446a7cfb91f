/** The `dmd` facade of dlpyc900/dlpyc900.py: every public method as a function from
    the facade's state to its outcome and the state after it.

    The state is the cached display mode (`current_mode`), the hardware name the
    constructor stores, and the abstract USB transport of `UsbPort`.  What a method
    puts on the wire is stated as a list of `Command`s: the device received a prefix
    of their packets, and all of them when the method returns normally. */
module Device {
  import opened Bytes
  import opened BitStrings
  import opened Results
  import opened UsbFrame
  import opened UsbPort
  import opened Payloads

  // ------------------------------------------------ display modes (:53-55)

  datatype DisplayMode = Video | Pattern | VideoPattern | Otf

  /** The mode names the facade accepts and reports. */
  function ModeName(m: DisplayMode): string
  {
    match m
    case Video => "video"
    case Pattern => "pattern"
    case VideoPattern => "video-pattern"
    case Otf => "otf"
  }

  /** The keys of `display_modes`: a name that is not one of them has no mode. */
  function ModeOfName(name: string): Option<DisplayMode>
  {
    if name == "video" then Some(Video)
    else if name == "pattern" then Some(Pattern)
    else if name == "video-pattern" then Some(VideoPattern)
    else if name == "otf" then Some(Otf)
    else None
  }

  /** `display_modes`: the byte written to command 0x1A1B for each mode. */
  function ModeIndex(m: DisplayMode): Byte
  {
    match m
    case Video => 0
    case Pattern => 1
    case VideoPattern => 2
    case Otf => 3
  }

  /** `display_modes_inv`: a byte without an entry raises KeyError. */
  function ModeOfIndex(b: Byte): Result<DisplayMode>
  {
    if b == 0 then Ok(Video)
    else if b == 1 then Ok(Pattern)
    else if b == 2 then Ok(VideoPattern)
    else if b == 3 then Ok(Otf)
    else Err(KeyError)
  }

  /** The two dictionaries are inverse to each other and to the name table. */
  lemma ModeTables(m: DisplayMode, name: string, b: Byte)
    ensures ModeOfName(ModeName(m)) == Some(m)
    ensures ModeOfName(name).Some? ==> ModeName(ModeOfName(name).value) == name
    ensures ModeOfIndex(ModeIndex(m)) == Ok(m)
    ensures ModeOfIndex(b).Ok? ==> ModeIndex(ModeOfIndex(b).value) == b
    ensures ModeOfIndex(b) == Err(KeyError) <==> b >= 4
  {
  }

  // ------------------------------------------------ facade state and issued commands

  /** One `send_command(mode, sequence_byte, command, payload)` call. */
  datatype Command = Command(mode: string, sequence: Byte, code: int, payload: seq<Byte>)

  function W(sequence: Byte, code: int, payload: seq<Byte>): Command
  {
    Command("w", sequence, code, payload)
  }

  function R(sequence: Byte, code: int): Command
  {
    Command("r", sequence, code, [])
  }

  /** `current_mode`, `hardware` and the device handle `dev`; `issued` records every
      `send_command` call made so far, in order. */
  datatype Dmd = Dmd(mode: DisplayMode, hardware: Hardware, port: Port, issued: seq<Command>)

  /** Between `before` and `after` the facade issued a prefix of `cs`, and all of it
      when `done`. */
  ghost predicate Issues(before: Dmd, after: Dmd, done: bool, cs: seq<Command>)
  {
    && Delivered(before.issued, after.issued, cs)
    && (done ==> after.issued == before.issued + cs)
  }

  /** A call that stopped inside the first commands stopped inside the whole list. */
  lemma IssuesStop(d: Dmd, e: Dmd, xs: seq<Command>, ys: seq<Command>)
    requires Issues(d, e, false, xs)
    ensures Issues(d, e, false, xs + ys)
  {
    DeliveredPrefix(d.issued, e.issued, xs, ys);
  }

  /** Issuing all of `xs` and then (a prefix of) `ys` issues (a prefix of) `xs + ys`. */
  lemma IssuesThen(d: Dmd, mid: Dmd, e: Dmd, done: bool, xs: seq<Command>, ys: seq<Command>)
    requires Issues(d, mid, true, xs) && Issues(mid, e, done, ys)
    ensures Issues(d, e, done, xs + ys)
  {
    DeliveredAfter(d.issued, e.issued, xs, ys);
  }

  /** `send_command('w', ...)`: the device receives a prefix of the command's packets, all
      of them when the call returns; a write never reads. */
  function Write(d: Dmd, sequence: Byte, code: int, payload: seq<Byte>): (r: Step<(), Dmd>)
    ensures r.state == d.(port := r.state.port, issued := d.issued + [W(sequence, code, payload)])
    ensures r.state.port.answers == d.port.answers
    ensures Delivered(d.port.log, r.state.port.log, CommandPackets("w", sequence, code, payload))
    ensures r.result.Ok? ==> r.state.port.log == d.port.log + CommandPackets("w", sequence, code, payload)
    ensures Reliable(d.port) && |payload| + HeaderSize <= BufferLimit ==>
      r.result.Ok? && Reliable(r.state.port)
    ensures |payload| + HeaderSize > BufferLimit ==>
      r.result == Err(PayloadTooLarge) && r.state.port == d.port
  {
    var s := SendCommand(d.port, "w", sequence, code, payload);
    var e := d.(port := s.state, issued := d.issued + [W(sequence, code, payload)]);
    Step(if s.result.Ok? then Ok(()) else Err(s.result.error), e)
  }

  /** `send_command('r', ...)`: a read that returns carries a reply without the error
      flag and has consumed one scripted answer. */
  function Query(d: Dmd, sequence: Byte, code: int): (r: Step<Reply, Dmd>)
    ensures r.state == d.(port := r.state.port, issued := d.issued + [R(sequence, code)])
    ensures Delivered(d.port.log, r.state.port.log, CommandPackets("r", sequence, code, []))
    ensures r.result.Ok? ==> r.state.port.log == d.port.log + CommandPackets("r", sequence, code, [])
    ensures Reliable(d.port) ==> Reliable(r.state.port)
    ensures r.result.Ok? ==> !r.result.value.errorFlag && r.state.port.answers == Rest(d.port.answers)
  {
    var s := SendCommand(d.port, "r", sequence, code, []);
    var e := d.(port := s.state, issued := d.issued + [R(sequence, code)]);
    Step(if s.result.Ok? then Ok(s.result.value.value) else Err(s.result.error), e)
  }

  /** `send_command('r', ...)[-1][0]`: the first data byte; IndexError when there is none. */
  function QueryByte(d: Dmd, sequence: Byte, code: int): (r: Step<Byte, Dmd>)
    ensures r.state == d.(port := r.state.port, issued := d.issued + [R(sequence, code)])
    ensures Reliable(d.port) ==> Reliable(r.state.port)
    ensures r.result.Ok? ==> r.state.port.answers == Rest(d.port.answers)
  {
    var q := Query(d, sequence, code);
    if q.result.Err? then Step(Err(q.result.error), q.state)
    else if |q.result.value.data| == 0 then Step(Err(IndexError), q.state)
    else Step(Ok(q.result.value.data[0]), q.state)
  }

  /** Scripted read i returns the device frame with this sequence byte and data. */
  predicate AnswersAt(p: Port, i: nat, sequence: Byte, data: seq<Byte>)
  {
    |data| <= PacketSize - 4 && i < |p.answers| && p.answers[i] == Answer(ReplyPacket(sequence, data))
  }

  predicate Answers(p: Port, sequence: Byte, data: seq<Byte>)
  {
    AnswersAt(p, 0, sequence, data)
  }

  /** A read answered by a device frame returns that frame's sequence byte and data. */
  lemma QueryAnswered(d: Dmd, sequence: Byte, code: int, s: Byte, data: seq<Byte>)
    requires Reliable(d.port) && Answers(d.port, s, data)
    ensures var r := Query(d, sequence, code);
      && r.result.Ok? && r.result.value.sequence == s && r.result.value.data == data
      && r.state.port.answers == d.port.answers[1..]
      && Reliable(r.state.port)
  {
    var pkt := ReplyPacket(s, data);
    assert pkt[..4 + |data|] == [0xC0, s] + LE(|data|, 2) + data;
    assert pkt[0] == 0xC0;
    ParseReplyPacket(s, data);
  }

  lemma QueryByteAnswered(d: Dmd, sequence: Byte, code: int, s: Byte, data: seq<Byte>)
    requires Reliable(d.port) && Answers(d.port, s, data)
    ensures var r := QueryByte(d, sequence, code);
      && r.result == (if |data| == 0 then Err(IndexError) else Ok(data[0]))
      && r.state.port.answers == d.port.answers[1..]
      && Reliable(r.state.port)
  {
    QueryAnswered(d, sequence, code, s, data);
  }

  /** The answer after the one a read consumed becomes the next one. */
  lemma AnswersNext(p: Port, q: Port, s: Byte, data: seq<Byte>)
    requires AnswersAt(p, 1, s, data) && q.answers == p.answers[1..]
    ensures Answers(q, s, data)
  {
  }

  /** Only the transport and the issued list changed: not the cached mode or hardware. */
  predicate Keeps(d: Dmd, e: Dmd)
  {
    e.mode == d.mode && e.hardware == d.hardware
  }

  /** A write-only method: it keeps the cache, reads nothing, issues `cs`, and over a
      reliable port returns normally. */
  ghost predicate WritesOnly<T>(d: Dmd, r: Step<T, Dmd>, cs: seq<Command>)
  {
    && Keeps(d, r.state)
    && r.state.port.answers == d.port.answers
    && Issues(d, r.state, r.result.Ok?, cs)
    && (Reliable(d.port) ==> r.result.Ok? && Reliable(r.state.port))
  }

  // ------------------------------------------------ constructor (:46-60)

  /** The exceptions that are (subclasses of) `DMDerror`. */
  predicate IsDmdError(e: Error)
  {
    e.PayloadTooLarge? || e.ReplyErrorFlag? || e.DeviceFault?
  }

  /** `dmd()`: starts in pattern mode and asks the device for its hardware; a `DMDerror`
      from that read becomes "Connection to dmd was not succesfull", anything else
      propagates. */
  function Connect(p: Port): (r: Step<Dmd, Port>)
    ensures r.result.Ok? ==>
      var d := r.result.value;
      d.mode == Pattern && d.port == r.state && d.issued == [R(10, 0x0206)]
    ensures r.result.Err? && IsDmdError(r.result.error) ==> r.result.error == DeviceFault(ConnectionFailed)
    ensures Delivered(p.log, r.state.log, CommandPackets("r", 10, 0x0206, []))
  {
    // `hardware` is only assigned from the reply; the placeholder is never read
    var d := Dmd(Pattern, UnknownHardware, p, []);
    var g := GetHardware(d);
    match g.result
    case Ok(info) => Step(Ok(g.state.(hardware := info.0)), g.state.port)
    case Err(e) => Step(Err(if IsDmdError(e) then DeviceFault(ConnectionFailed) else e), g.state.port)
  }

  /** A device that answers the hardware query with data connects, and the facade
      stores the product named by the first byte. */
  lemma ConnectAnswered(p: Port, s: Byte, data: seq<Byte>)
    requires Reliable(p) && Answers(p, s, data) && |data| > 0
    ensures var r := Connect(p);
      r.result.Ok? && r.result.value.hardware == HardwareOf(data[0]) && r.result.value.mode == Pattern
  {
    QueryAnswered(Dmd(Pattern, UnknownHardware, p, []), 10, 0x0206, s, data);
  }

  /** A reply with the error flag set is reported as a failed connection. */
  lemma ConnectErrorFlag(p: Port, bs: seq<Byte>)
    requires Reliable(p) && |p.answers| > 0 && p.answers[0] == Answer(bs)
    requires |bs| > 0 && (bs[0] / 32) % 2 == 1
    ensures Connect(p).result == Err(DeviceFault(ConnectionFailed))
  {
    var answer := if |bs| <= PacketSize then bs else bs[..PacketSize];
    assert answer[0] == bs[0];
  }

  // ------------------------------------------------ status commands (:149-296)

  /** `get_hardware_status`.  The first two tests append to `statusmessage` before it
      is assigned, so the call raises UnboundLocalError unless bit 0 of the status byte
      is set and bit 1 clear; only then is the report built. */
  function GetHardwareStatus(d: Dmd): (r: Step<HardwareReport, Dmd>)
    ensures Keeps(d, r.state) && Issues(d, r.state, true, [R(10, 0x1A0A)])
    // the report can only come from a byte with bit 0 set, which it counts as an error
    ensures r.result.Ok? ==>
      r.result.value.sequencerError && !r.result.value.sequencerAbort && r.result.value.errors >= 1
  {
    var q := QueryByte(d, 10, 0x1A0A);
    if q.result.Err? then Step(Err(q.result.error), q.state)
    else
      var status := q.result.value;
      if status % 2 == 0 then Step(Err(UnboundLocal), q.state)
      else if (status / 2) % 2 == 1 then Step(Err(UnboundLocal), q.state)
      else
        HardwareReportBits(status);
        Step(Ok(HardwareStatusReport(status)), q.state)
  }

  lemma HardwareStatusAnswered(d: Dmd, s: Byte, data: seq<Byte>)
    requires Reliable(d.port) && Answers(d.port, s, data) && |data| > 0
    ensures GetHardwareStatus(d).result ==
      if data[0] % 2 == 1 && (data[0] / 2) % 2 == 0 then Ok(HardwareStatusReport(data[0]))
      else Err(UnboundLocal)
  {
    QueryByteAnswered(d, 10, 0x1A0A, s, data);
    var q := QueryByte(d, 10, 0x1A0A);
    assert q.result == Ok(data[0]);
    var b := data[0];
    if b % 2 == 1 && (b / 2) % 2 == 0 {
      assert GetHardwareStatus(d) == Step(Ok(HardwareStatusReport(b)), q.state);
    } else {
      assert GetHardwareStatus(d) == Step(Err(UnboundLocal), q.state);
    }
  }

  /** Python's `==` between a one-character string and an int: always False. */
  function StrEqualsInt(c: char, n: int): bool
  {
    false
  }

  /** `check_communication_status`: `ansbit[0] == ansbit[2] == 0` compares characters
      with the integer 0, so the test never passes and the call always raises. */
  function CheckCommunicationStatus(d: Dmd): (r: Step<(), Dmd>)
    ensures Keeps(d, r.state) && Issues(d, r.state, true, [R(10, 0x1A49)])
    ensures r.result.Err?
  {
    var q := QueryByte(d, 10, 0x1A49);
    if q.result.Err? then Step(Err(q.result.error), q.state)
    else
      var bits := NumberToBits(q.result.value, 8);
      var fine := bits[0] == bits[2] && StrEqualsInt(bits[2], 0);
      Step(if fine then Ok(()) else Err(DeviceFault(CannotCommunicate)), q.state)
  }

  /** Whatever status byte comes back, the communication check raises its DMDerror. */
  lemma CommunicationAlwaysFails(d: Dmd, s: Byte, data: seq<Byte>)
    requires Reliable(d.port) && Answers(d.port, s, data) && |data| > 0
    ensures CheckCommunicationStatus(d).result == Err(DeviceFault(CannotCommunicate))
  {
    QueryByteAnswered(d, 10, 0x1A49, s, data);
  }

  /** `check_system_status`: `ansbit[0] == 0` is never true, so the memory-test error is
      never raised. */
  function CheckSystemStatus(d: Dmd): (r: Step<(), Dmd>)
    ensures Keeps(d, r.state) && Issues(d, r.state, true, [R(10, 0x1A0B)])
    ensures r.result.Err? ==> r.result.error != DeviceFault(MemoryTestFailed)
  {
    var q := QueryByte(d, 10, 0x1A0B);
    if q.result.Err? then Step(Err(q.result.error), q.state)
    else
      var bits := NumberToBits(q.result.value, 8);
      Step(if StrEqualsInt(bits[0], 0) then Err(DeviceFault(MemoryTestFailed)) else Ok(()), q.state)
  }

  /** Whatever status byte comes back, the system check passes. */
  lemma SystemCheckAlwaysPasses(d: Dmd, s: Byte, data: seq<Byte>)
    requires Reliable(d.port) && Answers(d.port, s, data) && |data| > 0
    ensures CheckSystemStatus(d).result == Ok(())
  {
    QueryByteAnswered(d, 10, 0x1A0B, s, data);
  }

  /** `get_main_status`: the first six digits of the status byte's 8-digit numeral. */
  function GetMainStatus(d: Dmd): (r: Step<seq<int>, Dmd>)
    ensures Keeps(d, r.state) && Issues(d, r.state, true, [R(10, 0x1A0C)])
    ensures Reliable(d.port) ==> Reliable(r.state.port)
    ensures r.result.Ok? ==> |r.result.value| == 6 && r.state.port.answers == Rest(d.port.answers)
    ensures r.result.Ok? ==> forall i :: 0 <= i < 6 ==> r.result.value[i] == 0 || r.result.value[i] == 1
  {
    var q := QueryByte(d, 10, 0x1A0C);
    if q.result.Err? then Step(Err(q.result.error), q.state)
    else Step(Ok(MainStatus(q.result.value)), q.state)
  }

  /** Element i of the main status is bit 7-i of the byte the device sent. */
  lemma MainStatusAnswered(d: Dmd, s: Byte, data: seq<Byte>, i: nat)
    requires Reliable(d.port) && Answers(d.port, s, data) && |data| > 0 && i < 6
    ensures var r := GetMainStatus(d);
      r.result.Ok? && r.result.value[i] == (data[0] / Pow2(7 - i)) % 2
  {
    QueryByteAnswered(d, 10, 0x1A0C, s, data);
    MainStatusBits(data[0], i);
  }

  /** `get_hardware`: the product named by the first data byte, and the rest as text. */
  function GetHardware(d: Dmd): (r: Step<(Hardware, string), Dmd>)
    ensures Keeps(d, r.state) && Issues(d, r.state, true, [R(10, 0x0206)])
    ensures r.state.port == Query(d, 10, 0x0206).state.port
    ensures var q := Query(d, 10, 0x0206);
      q.result.Ok? && |q.result.value.data| == 0 ==> r.result == Err(IndexError)
    ensures var q := Query(d, 10, 0x0206);
      r.result.Ok? ==> q.result.Ok? && |r.result.value.1| == |q.result.value.data| - 1
  {
    var q := Query(d, 10, 0x0206);
    if q.result.Err? then Step(Err(q.result.error), q.state)
    else
      var data := q.result.value.data;
      if |data| == 0 then Step(Err(IndexError), q.state)
      else Step(Ok((HardwareOf(data[0]), FirmwareTag(data[1..]))), q.state)
  }

  lemma HardwareAnswered(d: Dmd, s: Byte, data: seq<Byte>)
    requires Reliable(d.port) && Answers(d.port, s, data) && |data| > 0
    ensures GetHardware(d).result == Ok((HardwareOf(data[0]), FirmwareTag(data[1..])))
  {
    QueryAnswered(d, 10, 0x0206, s, data);
  }

  /** `check_for_error`: the error the method prints, if any.  An empty reply and code 0
      both mean no error; the method itself always returns None. */
  function CheckForError(d: Dmd): (r: Step<Option<DeviceError>, Dmd>)
    ensures Keeps(d, r.state) && Issues(d, r.state, true, [R(0x22, 0x0100)])
    ensures r.result.Ok? && r.result.value.Some? ==> DeviceErrorCode(r.result.value.value) != 0
  {
    var q := Query(d, 0x22, 0x0100);
    if q.result.Err? then Step(Err(q.result.error), q.state)
    else
      var data := q.result.value.data;
      if |data| == 0 || data[0] == 0 then Step(Ok(None), q.state)
      else
        DeviceErrorTable(data[0]);
        Step(Ok(Some(DeviceErrorOf(data[0]))), q.state)
  }

  /** The reported error is the one the device's code names, and its code is that code. */
  lemma CheckForErrorAnswered(d: Dmd, s: Byte, data: seq<Byte>)
    requires Reliable(d.port) && Answers(d.port, s, data)
    ensures var r := CheckForError(d);
      && r.result.Ok?
      && (r.result.value.None? <==> |data| == 0 || data[0] == 0)
      && (r.result.value.Some? ==>
            r.result.value.value == DeviceErrorOf(data[0]) && DeviceErrorCode(r.result.value.value) == data[0])
  {
    QueryAnswered(d, 0x22, 0x0100, s, data);
    if |data| > 0 {
      DeviceErrorTable(data[0]);
    }
  }

  // ------------------------------------------------ parallel interface (:299-412)

  /** `set_port_clock_definition`: the four fields packed into one byte, command 0x1A03. */
  function SetPortClockDefinition(d: Dmd, dataPort: int, pxClock: int, dataEnable: int, vhsync: int)
    : (r: Step<(), Dmd>)
    ensures PortClockByte(dataPort, pxClock, dataEnable, vhsync) < 64
    ensures WritesOnly(d, r, [W(2, 0x1A03, [PortClockByte(dataPort, pxClock, dataEnable, vhsync)])])
  {
    PortClockRoundTrip(dataPort, pxClock, dataEnable, vhsync);
    Write(d, 2, 0x1A03, [PortClockByte(dataPort, pxClock, dataEnable, vhsync)])
  }

  /** `get_port_clock_definition`: reads with sequence byte 243 and asserts the reply
      carries it back before decoding the first data byte. */
  function GetPortClockDefinition(d: Dmd): (r: Step<PortClock, Dmd>)
    ensures Keeps(d, r.state) && Issues(d, r.state, true, [R(243, 0x1A03)])
    ensures var q := Query(d, 243, 0x1A03);
      q.result.Ok? && q.result.value.sequence != 243 ==> r.result == Err(AssertionError)
    ensures var q := Query(d, 243, 0x1A03);
      r.result.Ok? ==> q.result.Ok? && q.result.value.sequence == 243 && |q.result.value.data| > 0
    ensures r.result.Ok? ==> r.result.value.dataPort < 4 && r.result.value.pxClock < 4 && r.result.value.dataEnable < 2 && r.result.value.vhsync < 2
  {
    var q := Query(d, 243, 0x1A03);
    if q.result.Err? then Step(Err(q.result.error), q.state)
    else if q.result.value.sequence != 243 then Step(Err(AssertionError), q.state)
    else if |q.result.value.data| == 0 then Step(Err(IndexError), q.state)
    else Step(Ok(DecodePortClock(q.result.value.data[0])), q.state)
  }

  /** A reply under another sequence byte fails the assertion; a device that echoes the
      byte the setter wrote gives back the masked fields. */
  lemma PortClockAnswered(d: Dmd, s: Byte, data: seq<Byte>, dataPort: int, pxClock: int, dataEnable: int, vhsync: int)
    requires Reliable(d.port) && Answers(d.port, s, data)
    ensures s != 243 ==> GetPortClockDefinition(d).result == Err(AssertionError)
    ensures s == 243 && data == [PortClockByte(dataPort, pxClock, dataEnable, vhsync)] ==>
      GetPortClockDefinition(d).result == Ok(PortClock(dataPort % 4, pxClock % 4, dataEnable % 2, vhsync % 2))
  {
    QueryAnswered(d, 243, 0x1A03, s, data);
    PortClockRoundTrip(dataPort, pxClock, dataEnable, vhsync);
  }

  /** `set_input_source`: source and bit depth packed into one byte, command 0x1A00. */
  function SetInputSource(d: Dmd, source: int, bitdepth: int): (r: Step<(), Dmd>)
    ensures InputSourceByte(source, bitdepth) < 32
    ensures WritesOnly(d, r, [W(1, 0x1A00, [InputSourceByte(source, bitdepth)])])
  {
    InputSourceRoundTrip(source, bitdepth);
    Write(d, 1, 0x1A00, [InputSourceByte(source, bitdepth)])
  }

  /** `get_input_source`: as the port/clock read, with sequence byte 112. */
  function GetInputSource(d: Dmd): (r: Step<InputSource, Dmd>)
    ensures Keeps(d, r.state) && Issues(d, r.state, true, [R(112, 0x1A00)])
    ensures var q := Query(d, 112, 0x1A00);
      q.result.Ok? && q.result.value.sequence != 112 ==> r.result == Err(AssertionError)
    ensures var q := Query(d, 112, 0x1A00);
      r.result.Ok? ==> q.result.Ok? && q.result.value.sequence == 112 && |q.result.value.data| > 0
    ensures r.result.Ok? ==> r.result.value.source < 8 && r.result.value.bitdepth < 4
  {
    var q := Query(d, 112, 0x1A00);
    if q.result.Err? then Step(Err(q.result.error), q.state)
    else if q.result.value.sequence != 112 then Step(Err(AssertionError), q.state)
    else if |q.result.value.data| == 0 then Step(Err(IndexError), q.state)
    else Step(Ok(DecodeInputSource(q.result.value.data[0])), q.state)
  }

  lemma InputSourceAnswered(d: Dmd, s: Byte, data: seq<Byte>, source: int, bitdepth: int)
    requires Reliable(d.port) && Answers(d.port, s, data)
    ensures s != 112 ==> GetInputSource(d).result == Err(AssertionError)
    ensures s == 112 && data == [InputSourceByte(source, bitdepth)] ==>
      GetInputSource(d).result == Ok(InputSource(source % 8, bitdepth % 4))
  {
    QueryAnswered(d, 112, 0x1A00, s, data);
    InputSourceRoundTrip(source, bitdepth);
  }

  /** The three lock methods: `lock_release`, `lock_hdmi`, `lock_displayport`. */
  datatype SourceLock = Released | Hdmi | DisplayPort

  function LockCode(l: SourceLock): Byte
  {
    match l
    case Released => 0
    case Hdmi => 1
    case DisplayPort => 2
  }

  /** `lock_displayport` / `lock_hdmi` / `lock_release`: the lock byte to 0x1A01, then
      `set_input_source()` with its defaults, which writes the byte 0. */
  function LockSource(d: Dmd, l: SourceLock): (r: Step<(), Dmd>)
    ensures WritesOnly(d, r, [W(0, 0x1A01, [LockCode(l)]), W(1, 0x1A00, [0])])
  {
    var lock, source := W(0, 0x1A01, [LockCode(l)]), W(1, 0x1A00, [0]);
    assert [lock, source] == [lock] + [source];
    var w := Write(d, 0, 0x1A01, [LockCode(l)]);
    if w.result.Err? then
      IssuesStop(d, w.state, [lock], [source]);
      w
    else
      InputSourceDefault();
      var s := SetInputSource(w.state, 0, 0);
      IssuesThen(d, w.state, s.state, s.result.Ok?, [lock], [source]);
      s
  }

  /** `set_input_source()` with its default arguments writes the byte 0. */
  lemma InputSourceDefault()
    ensures InputSourceByte(0, 0) == 0
  {
    Pow2Values();
    assert BitField(0, 0, 3) == 0 && BitField(0, 0, 2) == 0;
  }

  /** `get_source_lock`: when element 3 of the main status (bit 4) says locked, the
      first data byte of command 0x1A01; otherwise 0. */
  function GetSourceLock(d: Dmd): (r: Step<int, Dmd>)
    ensures Keeps(d, r.state)
    ensures Issues(d, r.state, false, [R(10, 0x1A0C), R(0, 0x1A01)])
    ensures r.result.Ok? && r.result.value != 0 ==> Issues(d, r.state, true, [R(10, 0x1A0C), R(0, 0x1A01)])
  {
    var status, port := R(10, 0x1A0C), R(0, 0x1A01);
    assert [status, port] == [status] + [port];
    var m := GetMainStatus(d);
    if m.result.Err? then
      IssuesStop(d, m.state, [status], [port]);
      Step(Err(m.result.error), m.state)
    else if m.result.value[3] != 0 then
      var q := QueryByte(m.state, 0, 0x1A01);
      IssuesThen(d, m.state, q.state, true, [status], [port]);
      Step(if q.result.Ok? then Ok(q.result.value as int) else Err(q.result.error), q.state)
    else
      IssuesStop(d, m.state, [status], [port]);
      Step(Ok(0), m.state)
  }

  /** Locked (bit 4 of the main status set) returns the lock byte read from 0x1A01. */
  lemma SourceLocked(d: Dmd, s: Byte, status: Byte, s2: Byte, lock: Byte)
    requires Reliable(d.port) && Answers(d.port, s, [status]) && AnswersAt(d.port, 1, s2, [lock])
    requires (status / 16) % 2 == 1
    ensures var r := GetSourceLock(d);
      r.result == Ok(lock as int) && Issues(d, r.state, true, [R(10, 0x1A0C), R(0, 0x1A01)])
  {
    var m := GetMainStatus(d);
    assert m.result.Ok? && m.result.value[3] == 1
        && Reliable(m.state.port) && Answers(m.state.port, s2, [lock]) by {
      LockBit(d, s, status);
      AnswersNext(d.port, m.state.port, s2, [lock]);
    }
    assert QueryByte(m.state, 0, 0x1A01).result == Ok(lock) by {
      QueryByteAnswered(m.state, 0, 0x1A01, s2, [lock]);
    }
    LockedRead(d);
  }

  /** With the lock bit set, the lock byte read from 0x1A01 is the result. */
  lemma LockedRead(d: Dmd)
    requires GetMainStatus(d).result.Ok? && GetMainStatus(d).result.value[3] != 0
    requires QueryByte(GetMainStatus(d).state, 0, 0x1A01).result.Ok?
    ensures var q := QueryByte(GetMainStatus(d).state, 0, 0x1A01);
      GetSourceLock(d).result == Ok(q.result.value as int)
      && Issues(d, GetSourceLock(d).state, true, [R(10, 0x1A0C), R(0, 0x1A01)])
  {
  }

  /** Unlocked returns 0 after the one status read. */
  lemma SourceUnlocked(d: Dmd, s: Byte, status: Byte)
    requires Reliable(d.port) && Answers(d.port, s, [status])
    requires (status / 16) % 2 == 0
    ensures var r := GetSourceLock(d);
      r.result == Ok(0) && Issues(d, r.state, true, [R(10, 0x1A0C)])
  {
    LockBit(d, s, status);
  }

  lemma LockBit(d: Dmd, s: Byte, status: Byte)
    requires Reliable(d.port) && Answers(d.port, s, [status])
    ensures var m := GetMainStatus(d);
      && m.result.Ok? && m.result.value[3] == (status / 16) % 2
      && m.state.port.answers == d.port.answers[1..] && Reliable(m.state.port)
      && m.state.issued == d.issued + [R(10, 0x1A0C)]
  {
    MainStatusAnswered(d, s, [status], 3);
    QueryByteAnswered(d, 10, 0x1A0C, s, [status]);
    assert Pow2(4) == 16 by {
      Pow2Values();
    }
  }

  // ------------------------------------------------ display mode (:417-453)

  /** `get_display_mode`: the first data byte of 0x1A1B through `display_modes_inv`;
      the cache is overwritten only when the lookup succeeds. */
  function GetDisplayMode(d: Dmd): (r: Step<DisplayMode, Dmd>)
    ensures r.state.hardware == d.hardware
    ensures r.result.Ok? ==> r.state.mode == r.result.value
    ensures r.result.Err? ==> r.state.mode == d.mode
    ensures Issues(d, r.state, true, [R(0, 0x1A1B)])
    ensures Reliable(d.port) ==> Reliable(r.state.port)
  {
    var q := QueryByte(d, 0, 0x1A1B);
    if q.result.Err? then Step(Err(q.result.error), q.state)
    else match ModeOfIndex(q.result.value)
      case Err(e) => Step(Err(e), q.state)
      case Ok(m) => Step(Ok(m), q.state.(mode := m))
  }

  /** The reported mode, and the new cache, is the one the device's byte names. */
  lemma DisplayModeAnswered(d: Dmd, s: Byte, data: seq<Byte>)
    requires Reliable(d.port) && Answers(d.port, s, data)
    ensures var r := GetDisplayMode(d);
      && r.result == (if |data| == 0 then Err(IndexError) else ModeOfIndex(data[0]))
      && r.state.port.answers == d.port.answers[1..] && Reliable(r.state.port)
  {
    QueryByteAnswered(d, 0, 0x1A1B, s, data);
  }

  /** The read-back of `set_display_mode`: `get_display_mode`, once more if it raised
      IndexError. */
  function ReadBackMode(d: Dmd): (r: Step<DisplayMode, Dmd>)
    ensures r.state.hardware == d.hardware
    ensures r.result.Ok? ==> r.state.mode == r.result.value
    ensures Issues(d, r.state, true, [R(0, 0x1A1B)]) || Issues(d, r.state, true, [R(0, 0x1A1B), R(0, 0x1A1B)])
    ensures Issues(d, r.state, false, [R(0, 0x1A1B), R(0, 0x1A1B)])
  {
    var read := R(0, 0x1A1B);
    assert [read, read] == [read] + [read];
    var g := GetDisplayMode(d);
    if g.result == Err(IndexError) then
      var again := GetDisplayMode(g.state);
      IssuesThen(d, g.state, again.state, true, [read], [read]);
      again
    else
      IssuesStop(d, g.state, [read], [read]);
      g
  }

  /** The commands of a `set_display_mode` that got as far as reading back: the write,
      the read, and the second read when the first raised IndexError. */
  function DisplayModeCommands(m: DisplayMode, retried: bool): seq<Command>
  {
    [W(0, 0x1A1B, [ModeIndex(m)]), R(0, 0x1A1B)] + (if retried then [R(0, 0x1A1B)] else [])
  }

  /** The part of `set_display_mode` after the argument checks. */
  function ActivateMode(d: Dmd, m: DisplayMode): (r: Step<(), Dmd>)
    ensures r.state.hardware == d.hardware
    ensures r.result.Ok? ==> r.state.mode == m
    ensures Issues(d, r.state, false, DisplayModeCommands(m, true))
    ensures r.result.Ok? ==>
      Issues(d, r.state, true, DisplayModeCommands(m, false)) || Issues(d, r.state, true, DisplayModeCommands(m, true))
  {
    var write, read := W(0, 0x1A1B, [ModeIndex(m)]), R(0, 0x1A1B);
    assert DisplayModeCommands(m, true) == [write] + [read, read];
    assert DisplayModeCommands(m, false) == [write] + [read];
    var w := Write(d, 0, 0x1A1B, [ModeIndex(m)]);
    if w.result.Err? then
      IssuesStop(d, w.state, [write], [read, read]);
      w
    else
      var g := ReadBackMode(w.state);
      IssuesThen(d, w.state, g.state, false, [write], [read, read]);
      if g.result.Err? then Step(Err(g.result.error), g.state)
      else
        assert Issues(d, g.state, true, [write] + [read]) || Issues(d, g.state, true, [write] + [read, read]) by {
          if Issues(w.state, g.state, true, [read]) {
            IssuesThen(d, w.state, g.state, true, [write], [read]);
          } else {
            IssuesThen(d, w.state, g.state, true, [write], [read, read]);
          }
        }
        if g.result.value != m then Step(Err(ModeActivationFailed), g.state)
        else Step(Ok(()), g.state)
  }

  /** `set_display_mode`: an unknown name, or video-pattern while the cached mode is not
      video, raises ValueError before anything is sent.  Otherwise the mode's index goes
      to 0x1A1B and the mode is read back (a second time if the first read raised
      IndexError); a different read-back raises "Mode activation failed". */
  function SetDisplayMode(d: Dmd, name: string): (r: Step<(), Dmd>)
    ensures ModeOfName(name).None? ==> r == Step(Err(ValueError), d)
    ensures name == "video-pattern" && d.mode != Video ==> r == Step(Err(ValueError), d)
    ensures r.state.hardware == d.hardware
    ensures r.result.Ok? ==> ModeOfName(name).Some? && r.state.mode == ModeOfName(name).value
    ensures ModeOfName(name).Some? ==>
      Issues(d, r.state, false, DisplayModeCommands(ModeOfName(name).value, true))
    ensures r.result.Ok? ==>
      || Issues(d, r.state, true, DisplayModeCommands(ModeOfName(name).value, false))
      || Issues(d, r.state, true, DisplayModeCommands(ModeOfName(name).value, true))
  {
    match ModeOfName(name)
    case None => Step(Err(ValueError), d)
    case Some(m) =>
      if m == VideoPattern && d.mode != Video then
        assert d.issued[|d.issued|..] == [];
        Step(Err(ValueError), d)
      else ActivateMode(d, m)
  }

  /** Choosing video-pattern needs a cached video mode, and a fresh connection caches
      pattern mode: right after `dmd()` the name is refused and nothing is sent. */
  lemma VideoPatternAfterConnect(p: Port)
    requires Connect(p).result.Ok?
    ensures var d := Connect(p).result.value;
      SetDisplayMode(d, "video-pattern") == Step(Err(ValueError), d)
  {
  }

  /** A device that reports the requested mode back confirms it: the cache holds it and
      exactly the write and one read went out. */
  lemma ModeConfirmed(d: Dmd, m: DisplayMode, s: Byte)
    requires Reliable(d.port) && Answers(d.port, s, [ModeIndex(m)])
    ensures var r := ActivateMode(d, m);
      r.result.Ok? && r.state.mode == m && r.state.issued == d.issued + DisplayModeCommands(m, false)
  {
    var w := Write(d, 0, 0x1A1B, [ModeIndex(m)]);
    assert w.result.Ok? && Reliable(w.state.port) && Answers(w.state.port, s, [ModeIndex(m)]);
    var g := GetDisplayMode(w.state);
    assert g.result == Ok(m) by {
      DisplayModeAnswered(w.state, s, [ModeIndex(m)]);
      ModeTables(m, "", 0);
    }
    ActivateConfirmed(d, m);
  }

  /** A device that reports another documented mode makes the call raise, and the cache
      follows the device. */
  lemma ModeRejected(d: Dmd, m: DisplayMode, s: Byte, b: Byte)
    requires Reliable(d.port) && Answers(d.port, s, [b])
    requires ModeOfIndex(b).Ok? && ModeOfIndex(b).value != m
    ensures var r := ActivateMode(d, m);
      r.result == Err(ModeActivationFailed) && r.state.mode == ModeOfIndex(b).value
  {
    var w := Write(d, 0, 0x1A1B, [ModeIndex(m)]);
    assert w.result.Ok? && Reliable(w.state.port) && Answers(w.state.port, s, [b]);
    var g := GetDisplayMode(w.state);
    assert g.result == ModeOfIndex(b) by {
      DisplayModeAnswered(w.state, s, [b]);
    }
  }

  /** An empty first read-back is retried once; a confirming second one completes the
      call with both polls issued. */
  lemma ModeRetried(d: Dmd, m: DisplayMode, s: Byte, s2: Byte)
    requires Reliable(d.port) && Answers(d.port, s, []) && AnswersAt(d.port, 1, s2, [ModeIndex(m)])
    ensures var r := ActivateMode(d, m);
      r.result.Ok? && r.state.mode == m && r.state.issued == d.issued + DisplayModeCommands(m, true)
  {
    RetriedReadBack(d, m, s, s2);
    ActivateConfirmed(d, m);
  }

  /** The write and the two polls of a retried read-back, before the call completes. */
  lemma RetriedReadBack(d: Dmd, m: DisplayMode, s: Byte, s2: Byte)
    requires Reliable(d.port) && Answers(d.port, s, []) && AnswersAt(d.port, 1, s2, [ModeIndex(m)])
    ensures var w := Write(d, 0, 0x1A1B, [ModeIndex(m)]);
      && w.result.Ok? && ReadBackMode(w.state).result == Ok(m)
      && ReadBackMode(w.state).state.issued == d.issued + DisplayModeCommands(m, true)
  {
    var w := Write(d, 0, 0x1A1B, [ModeIndex(m)]);
    ModeWritten(d, m, s, s2);
    ReadBackRetried(w.state, m, s, s2);
    RetriedIssued(d.issued, w.state.issued, ReadBackMode(w.state).state.issued, m);
  }

  lemma RetriedIssued(before: seq<Command>, mid: seq<Command>, after: seq<Command>, m: DisplayMode)
    requires mid == before + [W(0, 0x1A1B, [ModeIndex(m)])]
    requires after == mid + [R(0, 0x1A1B), R(0, 0x1A1B)]
    ensures after == before + DisplayModeCommands(m, true)
  {
    var read := R(0, 0x1A1B);
    assert DisplayModeCommands(m, true) == [W(0, 0x1A1B, [ModeIndex(m)])] + [read, read];
  }

  /** Writing the mode index to a reliable port returns and leaves the scripted answers. */
  lemma ModeWritten(d: Dmd, m: DisplayMode, s: Byte, s2: Byte)
    requires Reliable(d.port) && Answers(d.port, s, []) && AnswersAt(d.port, 1, s2, [ModeIndex(m)])
    ensures var w := Write(d, 0, 0x1A1B, [ModeIndex(m)]);
      && w.result.Ok? && Reliable(w.state.port)
      && Answers(w.state.port, s, []) && AnswersAt(w.state.port, 1, s2, [ModeIndex(m)])
      && w.state.issued == d.issued + [W(0, 0x1A1B, [ModeIndex(m)])]
  {
    var w := Write(d, 0, 0x1A1B, [ModeIndex(m)]);
    assert w.state.port.answers == d.port.answers;
  }

  /** A write that returns and a read-back naming the target complete the activation. */
  lemma ActivateConfirmed(d: Dmd, m: DisplayMode)
    requires Write(d, 0, 0x1A1B, [ModeIndex(m)]).result.Ok?
    requires ReadBackMode(Write(d, 0, 0x1A1B, [ModeIndex(m)]).state).result == Ok(m)
    ensures ActivateMode(d, m) == Step(Ok(()), ReadBackMode(Write(d, 0, 0x1A1B, [ModeIndex(m)]).state).state)
    ensures ActivateMode(d, m).state.mode == m
  {
  }

  /** An empty reply is read again, and the second reply decides. */
  lemma ReadBackRetried(e: Dmd, m: DisplayMode, s: Byte, s2: Byte)
    requires Reliable(e.port) && Answers(e.port, s, []) && AnswersAt(e.port, 1, s2, [ModeIndex(m)])
    ensures var r := ReadBackMode(e);
      r.result == Ok(m) && r.state.issued == e.issued + [R(0, 0x1A1B), R(0, 0x1A1B)]
  {
    var g := GetDisplayMode(e);
    assert g.result == Err(IndexError) && Reliable(g.state.port) && Answers(g.state.port, s2, [ModeIndex(m)]) by {
      DisplayModeAnswered(e, s, []);
      AnswersNext(e.port, g.state.port, s2, [ModeIndex(m)]);
    }
    assert GetDisplayMode(g.state).result == Ok(m) by {
      DisplayModeAnswered(g.state, s2, [ModeIndex(m)]);
      ModeTables(m, "", 0);
    }
  }

  // ------------------------------------------------ pattern sequencer (:457-473)

  /** `start_pattern`, `pause_pattern` and `stop_pattern`. */
  datatype SequencerAction = StopSequence | PauseSequence | StartSequence

  function ActionCode(a: SequencerAction): Byte
  {
    match a
    case StopSequence => 0
    case PauseSequence => 1
    case StartSequence => 2
  }

  /** The action byte to command 0x1A24 under sequence byte 5. */
  function ControlPattern(d: Dmd, a: SequencerAction): (r: Step<(), Dmd>)
    ensures WritesOnly(d, r, [W(5, 0x1A24, [ActionCode(a)])])
  {
    Write(d, 5, 0x1A24, [ActionCode(a)])
  }

  // ------------------------------------------------ pattern LUT (:475-539)

  /** `start_pattern_from_LUT`: the entry count (10-bit numeral) and the pattern count
      (32-bit numeral) to 0x1A31.  Only a count too large for the 512-byte buffer can make a
      reliable port fail. */
  function StartPatternFromLut(d: Dmd, entries: nat, patterns: nat): (r: Step<(), Dmd>)
    ensures Keeps(d, r.state) && r.state.port.answers == d.port.answers
    ensures Issues(d, r.state, r.result.Ok?, [W(1, 0x1A31, LutStartPayload(entries, patterns))])
    ensures entries < 1024 && patterns < 0x1_0000_0000 ==>
      WritesOnly(d, r, [W(1, 0x1A31, [entries % 4, entries / 4] + LE(patterns, 4))])
  {
    var payload := LutStartPayload(entries, patterns);
    assert entries < 1024 && patterns < 0x1_0000_0000 ==>
        payload == [entries % 4, entries / 4] + LE(patterns, 4) by {
      if entries < 1024 && patterns < 0x1_0000_0000 {
        LutStartLayout(entries, patterns);
      }
    }
    Write(d, 1, 0x1A31, payload)
  }

  /** `setup_pattern_LUT_definition`: the 12-byte entry to 0x1A34. */
  function SetupPatternLutDefinition(d: Dmd, e: LutEntry): (r: Step<(), Dmd>)
    ensures WritesOnly(d, r, [W(1, 0x1A34, LutEntryPayload(e))])
  {
    Write(d, 1, 0x1A34, LutEntryPayload(e))
  }

  // ------------------------------------------------ power management (:543-587)

  /** `get_current_powermode`: the idle byte of 0x0201, then the sleep byte of 0x0200;
      None where the Python function falls off its end. */
  function GetCurrentPowerMode(d: Dmd): (r: Step<Option<PowerMode>, Dmd>)
    ensures Keeps(d, r.state)
    ensures Issues(d, r.state, false, [R(0, 0x0201), R(0, 0x0200)])
    ensures r.result.Ok? ==> Issues(d, r.state, true, [R(0, 0x0201), R(0, 0x0200)])
  {
    var idleRead, sleepRead := R(0, 0x0201), R(0, 0x0200);
    assert [idleRead, sleepRead] == [idleRead] + [sleepRead];
    var i := QueryByte(d, 0, 0x0201);
    if i.result.Err? then
      IssuesStop(d, i.state, [idleRead], [sleepRead]);
      Step(Err(i.result.error), i.state)
    else
      var s := QueryByte(i.state, 0, 0x0200);
      IssuesThen(d, i.state, s.state, true, [idleRead], [sleepRead]);
      if s.result.Err? then Step(Err(s.result.error), s.state)
      else Step(Ok(PowerModeOf(i.result.value, s.result.value)), s.state)
  }

  /** The reported mode is the one the two register bytes denote. */
  lemma PowerModeAnswered(d: Dmd, s1: Byte, idle: seq<Byte>, s2: Byte, sleep: seq<Byte>)
    requires Reliable(d.port) && Answers(d.port, s1, idle) && AnswersAt(d.port, 1, s2, sleep)
    requires |idle| > 0 && |sleep| > 0
    ensures GetCurrentPowerMode(d).result == Ok(PowerModeOf(idle[0], sleep[0]))
  {
    var i := QueryByte(d, 0, 0x0201);
    assert i.result == Ok(idle[0]) && Reliable(i.state.port) && Answers(i.state.port, s2, sleep) by {
      QueryByteAnswered(d, 0, 0x0201, s1, idle);
      AnswersNext(d.port, i.state.port, s2, sleep);
    }
    assert QueryByte(i.state, 0, 0x0200).result == Ok(sleep[0]) by {
      QueryByteAnswered(i.state, 0, 0x0200, s2, sleep);
    }
  }

  /** The commands of `standby`: stop the sequencer, sleep, then read both registers. */
  function StandbyCommands(): seq<Command>
  {
    [W(5, 0x1A24, [0]), W(0, 0x0200, [1]), R(0, 0x0201), R(0, 0x0200)]
  }

  /** `standby`: raises "Failed to enter standby mode" unless the read-back is standby. */
  function EnterStandby(d: Dmd): (r: Step<(), Dmd>)
    ensures Keeps(d, r.state)
    ensures Issues(d, r.state, false, StandbyCommands())
    ensures r.result.Ok? ==> Issues(d, r.state, true, StandbyCommands())
  {
    var stop, sleep := W(5, 0x1A24, [0]), W(0, 0x0200, [1]);
    var polls := [R(0, 0x0201), R(0, 0x0200)];
    assert StandbyCommands() == [stop] + ([sleep] + polls);
    var c := ControlPattern(d, StopSequence);
    if c.result.Err? then
      IssuesStop(d, c.state, [stop], [sleep] + polls);
      c
    else
      var w := Write(c.state, 0, 0x0200, [1]);
      if w.result.Err? then
        IssuesStop(c.state, w.state, [sleep], polls);
        IssuesThen(d, c.state, w.state, false, [stop], [sleep] + polls);
        w
      else
        var p := GetCurrentPowerMode(w.state);
        IssuesThen(c.state, w.state, p.state, p.result.Ok?, [sleep], polls);
        IssuesThen(d, c.state, p.state, p.result.Ok?, [stop], [sleep] + polls);
        if p.result.Err? then Step(Err(p.result.error), p.state)
        else if p.result.value != Some(Standby) then Step(Err(DeviceFault(StandbyFailed)), p.state)
        else Step(Ok(()), p.state)
  }

  /** Over a reliable port `standby` succeeds exactly when the sleep register polls 1. */
  lemma StandbyAnswered(d: Dmd, s1: Byte, idle: seq<Byte>, s2: Byte, sleep: seq<Byte>)
    requires Reliable(d.port) && Answers(d.port, s1, idle) && AnswersAt(d.port, 1, s2, sleep)
    requires |idle| > 0 && |sleep| > 0
    ensures EnterStandby(d).result == if sleep[0] == 1 then Ok(()) else Err(DeviceFault(StandbyFailed))
  {
    var c := ControlPattern(d, StopSequence);
    var w := Write(c.state, 0, 0x0200, [1]);
    assert w.result.Ok? && Reliable(w.state.port) && w.state.port.answers == d.port.answers;
    PowerModeAnswered(w.state, s1, idle, s2, sleep);
    PowerModeTable(idle[0], sleep[0], Standby);
  }

  /** `wakeup`: 0 to the sleep register 0x0200. */
  function Wakeup(d: Dmd): (r: Step<(), Dmd>)
    ensures WritesOnly(d, r, [W(0, 0x0200, [0])])
  {
    Write(d, 0, 0x0200, [0])
  }

  /** `reset`: 2 to the sleep register 0x0200. */
  function Reset(d: Dmd): (r: Step<(), Dmd>)
    ensures WritesOnly(d, r, [W(0, 0x0200, [2])])
  {
    Write(d, 0, 0x0200, [2])
  }

  /** `idle_on`: stop the sequencer, then 1 to the idle register 0x0201. */
  function IdleOn(d: Dmd): (r: Step<(), Dmd>)
    ensures WritesOnly(d, r, [W(5, 0x1A24, [0]), W(0, 0x0201, [1])])
  {
    var stop, idle := W(5, 0x1A24, [0]), W(0, 0x0201, [1]);
    assert [stop, idle] == [stop] + [idle];
    var c := ControlPattern(d, StopSequence);
    if c.result.Err? then
      IssuesStop(d, c.state, [stop], [idle]);
      c
    else
      var w := Write(c.state, 0, 0x0201, [1]);
      IssuesThen(d, c.state, w.state, w.result.Ok?, [stop], [idle]);
      w
  }

  /** `idle_off`: 3 to the idle register 0x0201. */
  function IdleOff(d: Dmd): (r: Step<(), Dmd>)
    ensures WritesOnly(d, r, [W(0, 0x0201, [3])])
  {
    Write(d, 0, 0x0201, [3])
  }

  // ------------------------------------------------ image flips (:589-607)

  datatype Axis = LongAxis | ShortAxis

  /** The flip command of each axis. */
  function FlipCommand(a: Axis): int
  {
    match a
    case LongAxis => 0x1008
    case ShortAxis => 0x1009
  }

  /** `set_flip_longaxis` / `set_flip_shortaxis`: the boolean goes out as 0 or 1. */
  function SetFlip(d: Dmd, a: Axis, flip: bool): (r: Step<(), Dmd>)
    ensures WritesOnly(d, r, [W(0, FlipCommand(a), [BoolInt(flip)])])
  {
    Write(d, 0, FlipCommand(a), [BoolInt(flip)])
  }

  /** `get_flip_longaxis` / `get_flip_shortaxis`: whether the first data byte is non-zero. */
  function GetFlip(d: Dmd, a: Axis): (r: Step<bool, Dmd>)
    ensures Keeps(d, r.state) && Issues(d, r.state, true, [R(0, FlipCommand(a))])
    ensures Reliable(d.port) ==> Reliable(r.state.port)
    ensures r.result.Ok? ==> r.state.port.answers == Rest(d.port.answers)
  {
    var q := QueryByte(d, 0, FlipCommand(a));
    if q.result.Err? then Step(Err(q.result.error), q.state)
    else Step(Ok(q.result.value > 0), q.state)
  }

  /** Any non-zero byte polls as flipped, so a device that echoes what `SetFlip` wrote
      gives back the flag. */
  lemma FlipAnswered(d: Dmd, a: Axis, s: Byte, data: seq<Byte>, flip: bool)
    requires Reliable(d.port) && Answers(d.port, s, data)
    ensures GetFlip(d, a).result == if |data| == 0 then Err(IndexError) else Ok(data[0] != 0)
    ensures data == [BoolInt(flip)] ==> GetFlip(d, a).result == Ok(flip)
  {
    QueryByteAnswered(d, 0, FlipCommand(a), s, data);
  }

  // ------------------------------------------------ firmware and error text (:609-638)

  /** `get_firmware_version`: four (major, minor, patch) groups from the first 16 data
      bytes; a shorter reply raises IndexError. */
  function GetFirmwareVersion(d: Dmd): (r: Step<FirmwareVersion, Dmd>)
    ensures Keeps(d, r.state) && Issues(d, r.state, true, [R(10, 0x0205)])
    ensures r.result.Ok? ==> ValidFirmware(r.result.value)
  {
    var q := Query(d, 10, 0x0205);
    if q.result.Err? then Step(Err(q.result.error), q.state)
    else if |q.result.value.data| < 16 then Step(Err(IndexError), q.state)
    else Step(Ok(DecodeFirmware(q.result.value.data)), q.state)
  }

  /** A reply carrying an encoded version decodes to that version; a short one raises. */
  lemma FirmwareAnswered(d: Dmd, s: Byte, data: seq<Byte>, f: FirmwareVersion)
    requires Reliable(d.port) && Answers(d.port, s, data)
    ensures |data| < 16 ==> GetFirmwareVersion(d).result == Err(IndexError)
    ensures ValidFirmware(f) && data == EncodeFirmware(f) ==> GetFirmwareVersion(d).result == Ok(f)
  {
    QueryAnswered(d, 10, 0x0205, s, data);
    if ValidFirmware(f) && data == EncodeFirmware(f) {
      FirmwareRoundTrip(f);
    }
  }

  /** `get_error_description`: the data bytes as characters, NUL bytes dropped. */
  function GetErrorDescription(d: Dmd): (r: Step<string, Dmd>)
    ensures Keeps(d, r.state) && Issues(d, r.state, true, [R(10, 0x0101)])
    ensures r.result.Ok? ==> forall i :: 0 <= i < |r.result.value| ==> r.result.value[i] != 0 as char
    ensures var q := Query(d, 10, 0x0101);
      r.result.Ok? ==> q.result.Ok? && |r.result.value| <= |q.result.value.data|
  {
    var q := Query(d, 10, 0x0101);
    if q.result.Err? then Step(Err(q.result.error), q.state)
    else Step(Ok(Description(q.result.value.data)), q.state)
  }

  /** A NUL-free message followed by NUL padding polls back as the message. */
  lemma ErrorDescriptionAnswered(d: Dmd, s: Byte, text: seq<Byte>, n: nat)
    requires forall i :: 0 <= i < |text| ==> text[i] != 0
    requires Reliable(d.port) && Answers(d.port, s, text + Zeros(n))
    ensures GetErrorDescription(d).result == Ok(FirmwareTag(text))
  {
    QueryAnswered(d, 10, 0x0101, s, text + Zeros(n));
    DescriptionPadding(text, n);
    DescriptionOfText(text);
  }

  // ------------------------------------------------ source and timing settings (:641-726)

  /** `set_input_source_config`: width, height and frame rate to 0x1A3C. */
  function SetInputSourceConfig(d: Dmd, width: int, height: int, frameRate: int): (r: Step<(), Dmd>)
    ensures WritesOnly(d, r, [W(1, 0x1A3C, SourceConfigPayload(width, height, frameRate))])
  {
    Write(d, 1, 0x1A3C, SourceConfigPayload(width, height, frameRate))
  }

  /** `set_test_pattern`: an index outside 0..10 raises ValueError before anything is
      sent; otherwise the index goes to 0x1203. */
  function SetTestPattern(d: Dmd, pattern: int): (r: Step<(), Dmd>)
    ensures !(0 <= pattern <= 10) ==> r == Step(Err(ValueError), d)
    ensures 0 <= pattern <= 10 ==> WritesOnly(d, r, [W(1, 0x1203, [pattern])])
  {
    if !(0 <= pattern <= 10) then Step(Err(ValueError), d)
    else Write(d, 1, 0x1203, [pattern])
  }

  /** `set_min_led_pulse_width_us`: the width over 32 bits to 0x1A41. */
  function SetMinLedPulseWidth(d: Dmd, width: int): (r: Step<(), Dmd>)
    ensures WritesOnly(d, r, [W(1, 0x1A41, Word32Payload(width))])
  {
    Write(d, 1, 0x1A41, Word32Payload(width))
  }

  /** `set_trigger_out1`: polarity and the two delays to 0x1A1D. */
  function SetTriggerOut1(d: Dmd, polarity: bool, risingDelay: int, fallingDelay: int): (r: Step<(), Dmd>)
    ensures WritesOnly(d, r, [W(1, 0x1A1D, TriggerOutPayload(polarity, risingDelay, fallingDelay))])
  {
    Write(d, 1, 0x1A1D, TriggerOutPayload(polarity, risingDelay, fallingDelay))
  }

  /** `set_trigger_in1`: the delay over 32 bits to 0x1A35. */
  function SetTriggerIn1(d: Dmd, delay: int): (r: Step<(), Dmd>)
    ensures WritesOnly(d, r, [W(1, 0x1A35, Word32Payload(delay))])
  {
    Write(d, 1, 0x1A35, Word32Payload(delay))
  }

  // ------------------------------------------------ on-the-fly load (:728-753)

  const OtfChunkSize: nat := 60

  /** `encoded[i:i + 60]` for i = 0, 60, 120, ...: full 60-byte slices and a shorter
      last one. */
  function OtfChunks(encoded: seq<Byte>): (cs: seq<seq<Byte>>)
    ensures |cs| == CeilDiv(|encoded|, OtfChunkSize)
    ensures forall i :: 0 <= i < |cs| ==> 0 < |cs[i]| <= OtfChunkSize
    ensures forall i :: 0 <= i < |cs| - 1 ==> |cs[i]| == OtfChunkSize
    decreases |encoded|
  {
    if |encoded| == 0 then []
    else if |encoded| <= OtfChunkSize then [encoded]
    else [encoded[..OtfChunkSize]] + OtfChunks(encoded[OtfChunkSize..])
  }

  /** The chunks put back together are the encoded stream. */
  lemma {:induction false} OtfChunksConcat(encoded: seq<Byte>)
    ensures Flatten(OtfChunks(encoded)) == encoded
    decreases |encoded|
  {
    var cs := OtfChunks(encoded);
    if |encoded| == 0 {
    } else if |encoded| <= OtfChunkSize {
      assert cs[1..] == [];
    } else {
      OtfChunksConcat(encoded[OtfChunkSize..]);
      assert cs[1..] == OtfChunks(encoded[OtfChunkSize..]);
      assert encoded == encoded[..OtfChunkSize] + encoded[OtfChunkSize..];
    }
  }

  /** One write to `code` per chunk, in order. */
  function LoadCommands(chunks: seq<seq<Byte>>, code: int): (cs: seq<Command>)
    ensures |cs| == |chunks|
    ensures forall i :: 0 <= i < |cs| ==> cs[i] == W(1, code, chunks[i])
  {
    if |chunks| == 0 then [] else [W(1, code, chunks[0])] + LoadCommands(chunks[1..], code)
  }

  /** The payloads of a command list, concatenated. */
  function PayloadBytes(cs: seq<Command>): seq<Byte>
  {
    if |cs| == 0 then [] else cs[0].payload + PayloadBytes(cs[1..])
  }

  /** The loop of `load_pattern_on_the_fly`: one write per chunk, stopping at the first
      that raises. */
  function LoadChunks(d: Dmd, chunks: seq<seq<Byte>>, code: int): (r: Step<(), Dmd>)
    requires forall i :: 0 <= i < |chunks| ==> |chunks[i]| <= OtfChunkSize
    ensures WritesOnly(d, r, LoadCommands(chunks, code))
    decreases |chunks|
  {
    if |chunks| == 0 then
      assert d.issued[|d.issued|..] == [];
      Step(Ok(()), d)
    else
      var first := W(1, code, chunks[0]);
      var rest := LoadCommands(chunks[1..], code);
      assert LoadCommands(chunks, code) == [first] + rest;
      var w := Write(d, 1, code, chunks[0]);
      if w.result.Err? then
        IssuesStop(d, w.state, [first], rest);
        w
      else
        var l := LoadChunks(w.state, chunks[1..], code);
        IssuesThen(d, w.state, l.state, l.result.Ok?, [first], rest);
        l
  }

  /** The init and load commands of the primary and the secondary controller. */
  function InitCommand(primary: bool): int
  {
    if primary then 0x1A2A else 0x1A2C
  }

  function LoadCommand(primary: bool): int
  {
    if primary then 0x1A2B else 0x1A2D
  }

  /** `load_pattern_on_the_fly` given the output of `encode(images)`: the length over
      32 bits to the init command, then the stream in 60-byte chunks to the load command. */
  function LoadPatternOnTheFly(d: Dmd, encoded: seq<Byte>, length: int, primary: bool): (r: Step<(), Dmd>)
    ensures WritesOnly(d, r, [W(1, InitCommand(primary), Word32Payload(length))]
                             + LoadCommands(OtfChunks(encoded), LoadCommand(primary)))
  {
    var init := W(1, InitCommand(primary), Word32Payload(length));
    var loads := LoadCommands(OtfChunks(encoded), LoadCommand(primary));
    var w := Write(d, 1, InitCommand(primary), Word32Payload(length));
    if w.result.Err? then
      IssuesStop(d, w.state, [init], loads);
      w
    else
      var l := LoadChunks(w.state, OtfChunks(encoded), LoadCommand(primary));
      IssuesThen(d, w.state, l.state, l.result.Ok?, [init], loads);
      l
  }

  /** The load commands carry the encoded stream, unchanged and in order. */
  lemma OtfStream(encoded: seq<Byte>, code: int)
    ensures PayloadBytes(LoadCommands(OtfChunks(encoded), code)) == encoded
  {
    OtfChunksConcat(encoded);
    PayloadsOfLoads(OtfChunks(encoded), code);
  }

  lemma {:induction false} PayloadsOfLoads(chunks: seq<seq<Byte>>, code: int)
    ensures PayloadBytes(LoadCommands(chunks, code)) == Flatten(chunks)
    decreases |chunks|
  {
    if |chunks| > 0 {
      var cs := LoadCommands(chunks, code);
      assert cs[1..] == LoadCommands(chunks[1..], code);
      PayloadsOfLoads(chunks[1..], code);
    }
  }

  /** The 60-byte chunk size leaves room for 4 header bytes, but the header has 6: every
      full chunk spills into a second USB packet, while a chunk of 58 bytes would fit one. */
  lemma OtfChunkPackets(c: seq<Byte>, code: int)
    ensures |c| == OtfChunkSize ==> |CommandPackets("w", 1, code, c)| == 2
    ensures |c| <= FirstPacketPayload ==> |CommandPackets("w", 1, code, c)| == 1
  {
    PacketBoundary();
  }
}
