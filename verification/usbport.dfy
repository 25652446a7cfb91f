/** `send_command` (dlpyc900/dlpyc900.py:71-146) over an abstract USB transport.

    The transport is a value, not a device: `faults` scripts the outcome of
    successive `dev.write` attempts (true = the attempt raises `usb.USBError`;
    once the script is used up every attempt succeeds), `answers` scripts what
    successive `dev.read(0x81, 64)` calls return, and `log` records every
    packet the device accepted.  The 0.1 s sleeps are dropped. */
module UsbPort {
  import opened Bytes
  import opened Results
  import opened UsbFrame

  datatype ReadOutcome = Timeout | Answer(bytes: seq<Byte>)

  datatype Port = Port(faults: seq<bool>, answers: seq<ReadOutcome>, log: seq<seq<Byte>>)

  /** No write attempt left in the script fails. */
  predicate Reliable(p: Port)
  {
    true !in p.faults
  }

  function Rest<T>(s: seq<T>): seq<T>
  {
    if |s| == 0 then [] else s[1..]
  }

  lemma RestReliable(p: Port)
    requires Reliable(p)
    ensures true !in Rest(p.faults)
  {
    if |p.faults| > 0 {
      assert forall b :: b in p.faults[1..] ==> b in p.faults;
    }
  }

  /** The log grew from `before` to `after` by a prefix of `packets`: a transfer that
      stops half-way has delivered its first packets and nothing else. */
  ghost predicate Delivered<T>(before: seq<T>, after: seq<T>, packets: seq<T>)
  {
    |before| <= |after| && after[..|before|] == before && after[|before|..] <= packets
  }

  /** A transfer that stopped inside `xs` also stopped inside `xs + ys`. */
  lemma DeliveredPrefix<T>(before: seq<T>, after: seq<T>, xs: seq<T>, ys: seq<T>)
    requires Delivered(before, after, xs)
    ensures Delivered(before, after, xs + ys)
  {
  }

  /** Delivering all of `xs` and then a prefix of `ys` delivers a prefix of `xs + ys`. */
  lemma DeliveredAfter<T>(before: seq<T>, after: seq<T>, xs: seq<T>, ys: seq<T>)
    requires Delivered(before + xs, after, ys)
    ensures Delivered(before, after, xs + ys)
  {
    assert after[..|before|] == (before + xs)[..|before|] == before;
    assert after[|before|..] == xs + after[|before + xs|..];
  }

  /** One `dev.write(1, packet)`: consumes one scripted outcome; a failing attempt raises
      and delivers nothing. */
  function Attempt(p: Port, packet: seq<Byte>): (r: Step<(), Port>)
    ensures r.state.faults == Rest(p.faults) && r.state.answers == p.answers
    ensures r.result.Ok? <==> (|p.faults| == 0 || !p.faults[0])
    ensures r.state.log == if r.result.Ok? then p.log + [packet] else p.log
  {
    var p' := p.(faults := Rest(p.faults));
    if |p.faults| > 0 && p.faults[0] then Step(Err(UsbError), p')
    else Step(Ok(()), p'.(log := p.log + [packet]))
  }

  /** `try: write except USBError: sleep; write` -- one retry, a second failure propagates. */
  function WriteRetrying(p: Port, packet: seq<Byte>): (r: Step<(), Port>)
    ensures r.state.answers == p.answers
    ensures r.state.log == if r.result.Ok? then p.log + [packet] else p.log
    ensures Reliable(p) ==> r.result.Ok? && Reliable(r.state)
    ensures |p.faults| >= 2 && p.faults[0] && p.faults[1] ==>
      r == Step(Err(UsbError), p.(faults := p.faults[2..]))
    ensures |p.faults| >= 2 && p.faults[0] && !p.faults[1] ==>
      r == Step(Ok(()), p.(faults := p.faults[2..], log := p.log + [packet]))
    ensures (|p.faults| == 0 || !p.faults[0]) ==>
      r == Step(Ok(()), p.(faults := Rest(p.faults), log := p.log + [packet]))
  {
    var first := Attempt(p, packet);
    assert Reliable(p) ==> Reliable(first.state) by {
      if Reliable(p) {
        RestReliable(p);
      }
    }
    if first.result.Ok? then first else Attempt(first.state, packet)
  }

  lemma DeliveredCons(before: seq<seq<Byte>>, mid: seq<seq<Byte>>, after: seq<seq<Byte>>, packets: seq<seq<Byte>>)
    requires |packets| > 0 && mid == before + [packets[0]]
    requires Delivered(mid, after, packets[1..])
    ensures Delivered(before, after, packets)
    ensures mid + packets[1..] == before + packets
  {
    assert after[|before|..] == [packets[0]] + after[|mid|..];
    assert packets == [packets[0]] + packets[1..];
  }

  /** The loop over the later packets of a long command, each written with one retry. */
  function WriteAll(p: Port, packets: seq<seq<Byte>>): (r: Step<(), Port>)
    ensures r.state.answers == p.answers
    ensures Delivered(p.log, r.state.log, packets)
    ensures r.result.Ok? ==> r.state.log == p.log + packets
    // two failed attempts in a row on the next chunk raise
    ensures |packets| > 0 && |p.faults| >= 2 && p.faults[0] && p.faults[1] ==>
      r == Step(Err(UsbError), p.(faults := p.faults[2..]))
    decreases |packets|
  {
    if |packets| == 0 then
      Step(Ok(()), p)
    else
      var first := WriteRetrying(p, packets[0]);
      if first.result.Err? then
        first
      else
        var r := WriteAll(first.state, packets[1..]);
        DeliveredCons(p.log, first.state.log, r.state.log, packets);
        r
  }

  lemma {:induction false} WriteAllReliable(p: Port, packets: seq<seq<Byte>>)
    requires Reliable(p)
    ensures WriteAll(p, packets).result.Ok? && Reliable(WriteAll(p, packets).state)
    decreases |packets|
  {
    if |packets| > 0 {
      WriteAllReliable(WriteRetrying(p, packets[0]).state, packets[1..]);
    }
  }

  /** One failed attempt on a chunk is absorbed: the loop goes on as if the attempt had
      succeeded the first time. */
  lemma ChunkRetried(p: Port, packets: seq<seq<Byte>>)
    requires |packets| > 0 && |p.faults| >= 2 && p.faults[0] && !p.faults[1]
    ensures WriteAll(p, packets) == WriteAll(p.(faults := p.faults[1..]), packets)
    ensures WriteAll(p, packets)
         == WriteAll(p.(faults := p.faults[2..], log := p.log + [packets[0]]), packets[1..])
  {
    assert p.faults[1..][1..] == p.faults[2..];
  }

  /** `dev.read(0x81, 64)`: at most 64 bytes; a timeout (or an exhausted script) raises. */
  function Read(p: Port): (r: Step<seq<Byte>, Port>)
    ensures r.state == p.(answers := Rest(p.answers))
    ensures r.result.Ok? ==> |r.result.value| <= PacketSize
    ensures r.result.Ok? <==> |p.answers| > 0 && p.answers[0].Answer?
  {
    var p' := p.(answers := Rest(p.answers));
    if |p.answers| == 0 then Step(Err(UsbError), p')
    else match p.answers[0]
      case Timeout => Step(Err(UsbError), p')
      case Answer(bs) => Step(Ok(if |bs| <= PacketSize then bs else bs[..PacketSize]), p')
  }

  /** The packet-writing half of `send_command`, after the size check. */
  function WriteFrame(p: Port, header: seq<Byte>, payload: seq<Byte>): (r: Step<(), Port>)
    requires |header| == HeaderSize
    ensures r.state.answers == p.answers
    ensures Delivered(p.log, r.state.log, Packets(header, payload))
    ensures r.result.Ok? ==> r.state.log == p.log + Packets(header, payload)
    ensures Reliable(p) ==> r.result.Ok? && Reliable(r.state)
  {
    var ps := Packets(header, payload);
    if |header| + |payload| < PacketSize + 1 then
      var r := WriteRetrying(p, ps[0]);
      assert ps == [ps[0]];
      assert Reliable(p) ==> Reliable(r.state) by {
        if Reliable(p) {
          RestReliable(p);
        }
      }
      r
    else
      var first := Attempt(p, ps[0]);
      if first.result.Err? then
        first
      else
        assert Reliable(p) ==> Reliable(first.state) by {
          if Reliable(p) {
            RestReliable(p);
          }
        }
        var r := WriteAll(first.state, ps[1..]);
        assert Reliable(p) ==> r.result.Ok? && Reliable(r.state) by {
          if Reliable(p) {
            WriteAllReliable(first.state, ps[1..]);
          }
        }
        DeliveredCons(p.log, first.state.log, r.state.log, ps);
        assert ps == [ps[0]] + ps[1..];
        r
  }

  /** `send_command(mode, sequence_byte, command, payload)`.  A write returns `None`; a
      read returns the parsed reply, raising when the reply is empty, carries the error
      flag (bit 5 of its first byte) or is shorter than 4 bytes. */
  function SendCommand(p: Port, mode: string, sequence: Byte, command: int, payload: seq<Byte>)
    : (r: Step<Option<Reply>, Port>)
    // the size check raises before anything is written or read
    ensures |payload| + HeaderSize > BufferLimit ==> r == Step(Err(PayloadTooLarge), p)
    // the device only ever receives a prefix of this command's packets
    ensures Delivered(p.log, r.state.log, CommandPackets(mode, sequence, command, payload))
    // a long command's first packet is not retried
    ensures (&& |payload| > FirstPacketPayload && |payload| + HeaderSize <= BufferLimit
             && |p.faults| > 0 && p.faults[0]) ==>
      r == Step(Err(UsbError), p.(faults := p.faults[1..]))
    // a call that returns has delivered every packet of the command
    ensures r.result.Ok? ==> r.state.log == p.log + CommandPackets(mode, sequence, command, payload)
    // a write never reads, and returns None
    ensures mode != "r" ==> r.state.answers == p.answers
    ensures mode != "r" && r.result.Ok? ==> r.result.value == None
    // a read that returns has consumed one answer and its reply carries no error flag
    ensures mode == "r" && r.result.Ok? ==>
      r.result.value.Some? && !r.result.value.value.errorFlag && r.state.answers == Rest(p.answers)
    // over a reliable port the whole command reaches the device
    ensures Reliable(p) && |payload| + HeaderSize <= BufferLimit ==>
      Reliable(r.state) && r.state.log == p.log + CommandPackets(mode, sequence, command, payload)
    ensures Reliable(p) && |payload| + HeaderSize <= BufferLimit && mode != "r" ==> r.result == Ok(None)
    // a short command's single packet is retried once: two failures in a row raise
    ensures |payload| <= FirstPacketPayload && |p.faults| >= 2 && p.faults[0] && p.faults[1] ==>
      r == Step(Err(UsbError), p.(faults := p.faults[2..]))
  {
    var header := Header(mode, sequence, command, |payload|);
    if |payload| + HeaderSize > BufferLimit then
      Step(Err(PayloadTooLarge), p)
    else
      var w := WriteFrame(p, header, payload);
      if w.result.Err? then Step(Err(UsbError), w.state)
      else if mode == "r" then
        var a := Read(w.state);
        match a.result
        case Err(e) => Step(Err(e), a.state)
        case Ok(answer) =>
          if |answer| == 0 then Step(Err(IndexError), a.state)
          else if (answer[0] / 32) % 2 == 1 then Step(Err(ReplyErrorFlag), a.state)
          else Step(ParseReply(Some(answer)), a.state)
      else Step(ParseReply(None), w.state)
  }

  /** A short command absorbs one failed attempt on its packet: the call behaves as if
      that attempt had not happened. */
  lemma ShortCommandRetried(p: Port, mode: string, sequence: Byte, command: int, payload: seq<Byte>)
    requires |payload| <= FirstPacketPayload && |p.faults| >= 2 && p.faults[0] && !p.faults[1]
    ensures SendCommand(p, mode, sequence, command, payload)
         == SendCommand(p.(faults := p.faults[1..]), mode, sequence, command, payload)
  {
    assert p.faults[1..][1..] == p.faults[2..];
  }
}
