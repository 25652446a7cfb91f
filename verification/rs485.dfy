/** The RS485 laser-driver link of dlpyc900/WCIL.py (`RS485Device`).

    A frame is the header 55 AA, the address byte 01, a function code, the data
    bytes, a checksum byte and the tail DA C3.  The checksum is the byte sum modulo
    256.  The builder sums a shorter range than the validator checks: `_build_frame`
    slices `frame[3:-2]` of the frame before checksum and tail are appended, which
    covers the function code and all data bytes but the last two, whereas
    `_validate_response` sums `response[3:-3]`, the function code and every data
    byte.  Both are modelled as written; `BuiltFrameValid` states when they agree. */
module Rs485 {
  import opened Bytes
  import opened Results

  const Header: seq<Byte> := [0x55, 0xAA]
  const Tail: seq<Byte> := [0xDA, 0xC3]
  const Address: Byte := 0x01
  /** `serial.read(10)` returns at most ten bytes. */
  const ReadSize: nat := 10
  const MaxCurrent: int := 3500

  // ------------------------------------------------ checksum (:21-23)

  /** `sum(data)`. */
  function Sum(data: seq<Byte>): nat
  {
    if |data| == 0 then 0 else Sum(data[..|data| - 1]) + data[|data| - 1]
  }

  /** `_calculate_checksum`: `sum(data) & 0xFF`. */
  function Checksum(data: seq<Byte>): (c: Byte)
    ensures (Sum(data) - c) % 256 == 0
  {
    Sum(data) % 256
  }

  lemma {:induction false} SumAppend(a: seq<Byte>, b: seq<Byte>)
    ensures Sum(a + b) == Sum(a) + Sum(b)
    decreases |b|
  {
    if |b| == 0 {
      assert a + b == a;
    } else {
      var b' := b[..|b| - 1];
      assert (a + b)[..|a + b| - 1] == a + b';
      assert (a + b)[|a + b| - 1] == b[|b| - 1];
      SumAppend(a, b');
      assert Sum(a + b) == Sum(a + b') + b[|b| - 1];
    }
  }

  // ------------------------------------------------ frames (:25-40)

  /** `frame[3:-2]` of the frame before its checksum: from the function code up to, not
      including, the last two data bytes; empty when there are fewer than two. */
  function BuilderRange(pre: seq<Byte>): seq<Byte>
    requires |pre| >= 4
  {
    var end := if |pre| - 2 < 3 then 3 else |pre| - 2;
    pre[3..end]
  }

  /** `_build_frame`. */
  function BuildFrame(func: Byte, data: seq<Byte>): (f: seq<Byte>)
    ensures |f| == |data| + 7
    ensures f[..2] == Header && f[2] == Address && f[3] == func
    ensures f[4..4 + |data|] == data && f[|f| - 2..] == Tail
    ensures |data| >= 2 ==> f[|f| - 3] == Checksum([func] + data[..|data| - 2])
    ensures |data| < 2 ==> f[|f| - 3] == 0
  {
    var pre := Header + [Address, func] + data;
    var f := pre + [Checksum(BuilderRange(pre))] + Tail;
    assert |data| >= 2 ==> BuilderRange(pre) == [func] + data[..|data| - 2];
    assert f[4..4 + |data|] == data;
    f
  }

  /** The frame the validator accepts: the checksum covers the function code and every
      data byte. */
  function DocumentedFrame(func: Byte, data: seq<Byte>): (f: seq<Byte>)
    ensures |f| == |data| + 7
  {
    Header + [Address, func] + data + [Checksum([func] + data)] + Tail
  }

  /** `_validate_response`: at least 8 bytes, header, tail, address, the expected
      function code, and the checksum of `response[3:-3]` in `response[-3]`. */
  function ValidateResponse(response: seq<Byte>, expected: int): (ok: bool)
    ensures ok ==> |response| >= 8 && response[2] == Address && response[3] == expected
    ensures ok ==> response[0] == 0x55 && response[1] == 0xAA
    ensures ok ==> response[|response| - 2] == 0xDA && response[|response| - 1] == 0xC3
  {
    if |response| < 8 then false
    else if response[..2] != Header || response[|response| - 2..] != Tail then false
    else if response[2] != Address || response[3] != expected then false
    else Checksum(response[3..|response| - 3]) == response[|response| - 3]
  }

  /** A response validates exactly when it is the documented frame of its own data, with
      at least one data byte. */
  lemma ValidIffDocumented(response: seq<Byte>, func: Byte)
    ensures ValidateResponse(response, func) <==>
      |response| >= 8 && response == DocumentedFrame(func, response[4..|response| - 3])
  {
    if |response| >= 8 {
      var n := |response|;
      var data := response[4..n - 3];
      var doc := DocumentedFrame(func, data);
      assert response[3..n - 3] == [response[3]] + data;
      if ValidateResponse(response, func) {
        assert response == response[..2] + [response[2], response[3]] + data + [response[n - 3]] + response[n - 2..];
      }
      if response == doc {
        assert doc[..2] == Header && doc[n - 2..] == Tail;
        assert doc[2] == Address && doc[3] == func && doc[n - 3] == Checksum([func] + data);
      }
    }
  }

  /** Every documented frame with data validates. */
  lemma DocumentedValid(func: Byte, data: seq<Byte>)
    requires |data| >= 1
    ensures ValidateResponse(DocumentedFrame(func, data), func)
  {
    var f := DocumentedFrame(func, data);
    assert f[4..|f| - 3] == data;
    ValidIffDocumented(f, func);
  }

  /** A frame the driver builds passes its own validator exactly when the last two data
      bytes sum to a multiple of 256. */
  lemma BuiltFrameValid(func: Byte, data: seq<Byte>)
    requires |data| >= 2
    ensures ValidateResponse(BuildFrame(func, data), func) <==> Sum(data[|data| - 2..]) % 256 == 0
  {
    var head, last := [func] + data[..|data| - 2], data[|data| - 2..];
    BuiltFrameChecksum(func, data);
    SumAppend(head, last);
    ModShift(Sum(head), Sum(last));
  }

  /** The validator compares the builder's checksum with the sum over all data bytes. */
  lemma BuiltFrameChecksum(func: Byte, data: seq<Byte>)
    requires |data| >= 2
    ensures ValidateResponse(BuildFrame(func, data), func) <==>
      Checksum([func] + data[..|data| - 2] + data[|data| - 2..]) == Checksum([func] + data[..|data| - 2])
  {
    var f := BuildFrame(func, data);
    ChecksummedRange(f, func, data);
  }

  /** In a frame of the builder's layout, `frame[3:-3]` is the function code and the data. */
  lemma ChecksummedRange(f: seq<Byte>, func: Byte, data: seq<Byte>)
    requires |data| >= 2 && |f| == |data| + 7 && f[3] == func && f[4..4 + |data|] == data
    ensures f[3..|f| - 3] == [func] + data[..|data| - 2] + data[|data| - 2..]
  {
    var n := |f|;
    assert n - 3 == 4 + |data|;
    assert f[3..n - 3] == f[3..4] + f[4..4 + |data|];
    assert f[3..4] == [func];
    assert data == data[..|data| - 2] + data[|data| - 2..];
  }

  lemma SumPair(x: Byte, y: Byte)
    ensures Sum([x, y]) == x + y
  {
    var s := [x, y];
    assert s[..1] == [x] && s[1] == y;
    assert Sum(s) == Sum([x]) + y;
    assert [x][..0] == [];
    assert Sum([x]) == Sum([]) + x;
  }

  lemma ModShift(s: nat, t: nat)
    ensures (s % 256 == (s + t) % 256) <==> t % 256 == 0
  {
    var q, r := s / 256, s % 256;
    assert s + t == 256 * q + (r + t);
    assert (s + t) % 256 == (r + t) % 256;
  }

  // ------------------------------------------------ the serial link (:42-55)

  /** What one exchange on the port does: `write` raises, `read` raises, or `read(10)`
      returns the bytes the device sent (an empty string on timeout). */
  datatype Outcome = WriteRaised | ReadRaised | Received(bytes: seq<Byte>)

  /** The serial port: the scripted outcome of each exchange, consumed from the front
      (none left reads as a timeout), and the frames written so far. */
  datatype Serial = Serial(outcomes: seq<Outcome>, sent: seq<seq<Byte>>)

  datatype Exchanged<T> = Exchanged(value: T, serial: Serial)

  function NextOutcome(s: Serial): Outcome
  {
    if |s.outcomes| == 0 then Received([]) else s.outcomes[0]
  }

  function Advance(s: Serial): seq<Outcome>
  {
    if |s.outcomes| == 0 then [] else s.outcomes[1..]
  }

  /** `_send_and_receive`: the response when it validates; None when it does not, or
      when the port raised (`SerialException` is caught). */
  function SendAndReceive(s: Serial, frame: seq<Byte>, func: int): (r: Exchanged<Option<seq<Byte>>>)
    ensures r.value.Some? ==> ValidateResponse(r.value.value, func) && |r.value.value| <= ReadSize
    ensures r.serial.outcomes == Advance(s)
    ensures NextOutcome(s).WriteRaised? ==> r.serial.sent == s.sent && r.value.None?
    ensures !NextOutcome(s).WriteRaised? ==> r.serial.sent == s.sent + [frame]
    ensures NextOutcome(s).Received? && |NextOutcome(s).bytes| <= ReadSize ==>
      (r.value.Some? <==> ValidateResponse(NextOutcome(s).bytes, func))
  {
    var rest := Advance(s);
    match NextOutcome(s)
    case WriteRaised => Exchanged(None, s.(outcomes := rest))
    case ReadRaised => Exchanged(None, Serial(rest, s.sent + [frame]))
    case Received(bytes) =>
      var response := if |bytes| <= ReadSize then bytes else bytes[..ReadSize];
      Exchanged(if ValidateResponse(response, func) then Some(response) else None, Serial(rest, s.sent + [frame]))
  }

  // ------------------------------------------------ commands (:57-119)

  /** The shape of `reset_output`, `set_output_current` and `clear_fault`: success when
      the response validates and echoes the three data bytes. */
  function EchoCommand(s: Serial, func: Byte, data: seq<Byte>): (r: Exchanged<bool>)
    requires |data| == 3
    ensures r.serial.outcomes == Advance(s)
    ensures r.serial.sent == s.sent || r.serial.sent == s.sent + [BuildFrame(func, data)]
    ensures r.value ==> r.serial.sent == s.sent + [BuildFrame(func, data)]
    ensures NextOutcome(s).Received? && |NextOutcome(s).bytes| <= ReadSize ==>
      var reply := NextOutcome(s).bytes;
      r.value <==> ValidateResponse(reply, func) && reply[4..7] == data
    ensures !NextOutcome(s).Received? ==> !r.value
  {
    var x := SendAndReceive(s, BuildFrame(func, data), func);
    Exchanged(x.value.Some? && x.value.value[4..7] == data, x.serial)
  }

  /** The request data of reset, status and clear: 1, 0, reserved 0. */
  const Request: seq<Byte> := [0x01, 0x00, 0x00]

  /** `reset_output`, function 0x02. */
  function ResetOutput(s: Serial): (r: Exchanged<bool>)
    ensures r.serial.outcomes == Advance(s)
    ensures r.value ==> r.serial.sent == s.sent + [BuildFrame(0x02, Request)]
    ensures !NextOutcome(s).Received? ==> !r.value
    ensures Replies(s, DocumentedFrame(0x02, Request)) ==> r.value
  {
    RequestConfirmed(s, 0x02);
    EchoCommand(s, 0x02, Request)
  }

  /** `clear_fault`, function 0x06. */
  function ClearFault(s: Serial): (r: Exchanged<bool>)
    ensures r.serial.outcomes == Advance(s)
    ensures r.value ==> r.serial.sent == s.sent + [BuildFrame(0x06, Request)]
    ensures !NextOutcome(s).Received? ==> !r.value
    ensures Replies(s, DocumentedFrame(0x06, Request)) ==> r.value
  {
    RequestConfirmed(s, 0x06);
    EchoCommand(s, 0x06, Request)
  }

  /** The data of `set_output_current`: the current high byte first, then reserved 0. */
  function CurrentData(ma: int): (d: seq<Byte>)
    ensures |d| == 3 && d[2] == 0
    ensures (d[0] as int) * 256 + d[1] as int == ma % 65536
  {
    var hi, lo := (ma / 256) % 256, ma % 256;
    assert ma % 65536 == hi * 256 + lo by {
      DivDiv(ma, 256, 256);
    }
    [hi, lo, 0]
  }

  /** `set_output_current`, function 0x03: above 3500 mA it returns False without
      sending anything. */
  function SetOutputCurrent(s: Serial, ma: int): (r: Exchanged<bool>)
    ensures ma > MaxCurrent ==> r == Exchanged(false, s)
    ensures ma <= MaxCurrent ==> r.serial.outcomes == Advance(s)
    ensures r.value ==> ma <= MaxCurrent && r.serial.sent == s.sent + [BuildFrame(0x03, CurrentData(ma))]
  {
    if ma > MaxCurrent then Exchanged(false, s)
    else EchoCommand(s, 0x03, CurrentData(ma))
  }

  /** The status decoding of `get_device_status`: 0 is normal, otherwise the lowest of
      bits 0, 1, 2 that is set decides. */
  datatype LaserStatus = Normal | OverTemperature | OverCurrent | UnderCurrent | UnknownStatus

  function StatusOf(b: Byte): LaserStatus
  {
    if b == 0 then Normal
    else if b % 2 == 1 then OverTemperature
    else if (b / 2) % 2 == 1 then OverCurrent
    else if (b / 4) % 2 == 1 then UnderCurrent
    else UnknownStatus
  }

  /** Each status names exactly its bit pattern; an alarm bit outranks every higher one. */
  lemma StatusPriority(b: Byte)
    ensures StatusOf(b) == Normal <==> b == 0
    ensures StatusOf(b) == OverTemperature <==> b % 2 == 1
    ensures StatusOf(b) == OverCurrent <==> b % 4 == 2
    ensures StatusOf(b) == UnderCurrent <==> b % 8 == 4
    ensures StatusOf(b) == UnknownStatus <==> b != 0 && b % 8 == 0
  {
  }

  /** `get_device_status`, function 0x05: the status and the temperature in tenths of a
      degree (`(byte1 * 256 + byte2) * 0.1`), or None. */
  function GetDeviceStatus(s: Serial): (r: Exchanged<Option<(LaserStatus, nat)>>)
    ensures r.serial.outcomes == Advance(s)
    ensures r.value.Some? ==> r.value.value.1 < 65536
    ensures !NextOutcome(s).Received? ==> r.value.None?
  {
    var x := SendAndReceive(s, BuildFrame(0x05, Request), 0x05);
    match x.value
    case None => Exchanged(None, x.serial)
    case Some(response) =>
      Exchanged(Some((StatusOf(response[4]), (response[5] as int) * 256 + response[6] as int)), x.serial)
  }

  // ------------------------------------------------ answered exchanges

  /** The device answers the next exchange with `reply`. */
  predicate Replies(s: Serial, reply: seq<Byte>)
  {
    |s.outcomes| > 0 && s.outcomes[0] == Received(reply)
  }

  /** A device that answers with the documented echo frame confirms reset and clear. */
  lemma RequestConfirmed(s: Serial, func: Byte)
    ensures Replies(s, DocumentedFrame(func, Request)) ==>
      EchoCommand(s, func, Request).value && EchoCommand(s, func, Request).serial.sent == s.sent + [BuildFrame(func, Request)]
  {
    if Replies(s, DocumentedFrame(func, Request)) {
      DocumentedValid(func, Request);
      assert DocumentedFrame(func, Request)[4..7] == Request;
    }
  }

  /** The request frame of reset, status and clear itself validates: its last two data
      bytes are 0, so the two checksum ranges agree. */
  lemma RequestFrameValid(func: Byte)
    ensures ValidateResponse(BuildFrame(func, Request), func)
  {
    BuiltFrameValid(func, Request);
    assert Request[1..] == [0, 0];
    SumPair(0, 0);
  }

  /** Setting a current in range: a documented echo confirms it, while a device that
      echoes the driver's own request frame confirms it only when the low byte is 0. */
  lemma CurrentAnswered(s: Serial, ma: int, reply: seq<Byte>)
    requires 0 <= ma <= MaxCurrent && Replies(s, reply)
    ensures reply == DocumentedFrame(0x03, CurrentData(ma)) ==> SetOutputCurrent(s, ma).value
    ensures reply == BuildFrame(0x03, CurrentData(ma)) ==> (SetOutputCurrent(s, ma).value <==> ma % 256 == 0)
  {
    var data := CurrentData(ma);
    if reply == DocumentedFrame(0x03, data) {
      DocumentedValid(0x03, data);
      assert reply[4..7] == data;
    }
    if reply == BuildFrame(0x03, data) {
      BuiltFrameValid(0x03, data);
      assert data[1..] == [data[1], 0];
      SumPair(data[1], 0);
      assert data[1] == ma % 256;
    }
  }

  /** A status reply in the documented format reports its status byte and temperature. */
  lemma StatusAnswered(s: Serial, status: Byte, t1: Byte, t2: Byte)
    requires Replies(s, DocumentedFrame(0x05, [status, t1, t2]))
    ensures GetDeviceStatus(s).value == Some((StatusOf(status), (t1 as int) * 256 + t2 as int))
  {
    var reply := DocumentedFrame(0x05, [status, t1, t2]);
    DocumentedValid(0x05, [status, t1, t2]);
    assert reply[4] == status && reply[5] == t1 && reply[6] == t2;
  }
}
