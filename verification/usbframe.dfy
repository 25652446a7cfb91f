/** The DLPC900 USB command frame (dlpyc900/dlpyc900.py:31-44, 89-137).

    A command is a 6-byte header (flag, sequence, length, command code)
    followed by its payload; the frame is cut into 64-byte USB packets: the
    first carries the header and up to 58 payload bytes, every later one up to
    64 payload bytes, and the last is padded with zeros.  Layout after the
    DLPC900 Programmer's Guide (TI DLPU018), section 1.1 "USB". */
module UsbFrame {
  import opened Bytes
  import opened BitStrings
  import opened Results

  const PacketSize: nat := 64
  const HeaderSize: nat := 6
  const FirstPacketPayload: nat := 58
  const BufferLimit: nat := 512

  /** Flag byte: bit 7 is set for a read ("r"); any other mode string writes; bit 6 is
      always set. */
  function FlagByte(mode: string): (b: Byte)
    ensures b == if mode == "r" then 0xC0 else 0x40
  {
    var bits := (if mode == "r" then "1" else "0") + "1000000";
    assert Value(bits) == if mode == "r" then 0xC0 else 0x40 by {
      assert "1000000" == "1" + ZeroDigits(6);
      ValueOneZeros(6);
      assert bits == bits[..1] + "1000000";
      ValueAppend(bits[..1], "1000000");
    }
    ValueBound(bits);
    BitsToBytes(bits)[0]
  }

  /** The 6-byte header as it goes on the wire: flag, sequence byte, payload length + 2
      and the command code, both little-endian. */
  function Header(mode: string, sequence: Byte, command: int, payloadLength: nat): (h: seq<Byte>)
    ensures |h| == HeaderSize
  {
    [if mode == "r" then 0xC0 else 0x40, sequence] + LE(payloadLength + 2, 2) + LE(command, 2)
  }

  /** The header as `send_command` builds it: the flag from an 8-digit bit string, the
      length through `number_to_bits(len + 2, 16)` and `bits_to_bytes`, the command with
      `& 0xFF` and `>> 8`. */
  function BuiltHeader(mode: string, sequence: Byte, command: int, payloadLength: nat): seq<Byte>
  {
    var temp := BitsToBytes(NumberToBits(payloadLength + 2, 16));
    [FlagByte(mode), sequence, temp[0], temp[1], command % 256, (command / 256) % 256]
  }

  function Pad(s: seq<Byte>): (p: seq<Byte>)
    requires |s| <= PacketSize
    ensures |p| == PacketSize && p[..|s|] == s
  {
    s + Zeros(PacketSize - |s|)
  }

  /** The packets after the first: 64-byte slices of `rest`, the last one zero-padded. */
  function Chunks(rest: seq<Byte>): (ps: seq<seq<Byte>>)
    ensures |ps| == CeilDiv(|rest|, PacketSize)
    ensures forall i :: 0 <= i < |ps| ==> |ps[i]| == PacketSize
    decreases |rest|
  {
    if |rest| == 0 then []
    else if |rest| <= PacketSize then [Pad(rest)]
    else [rest[..PacketSize]] + Chunks(rest[PacketSize..])
  }

  /** Number of USB packets a payload of p bytes occupies. */
  function PacketCount(p: nat): nat
  {
    if p <= FirstPacketPayload then 1 else 1 + CeilDiv(p - FirstPacketPayload, PacketSize)
  }

  /** The packets `send_command` writes for one command, in order. */
  function Packets(header: seq<Byte>, payload: seq<Byte>): (ps: seq<seq<Byte>>)
    requires |header| == HeaderSize
    ensures |ps| == PacketCount(|payload|)
    ensures forall i :: 0 <= i < |ps| ==> |ps[i]| == PacketSize
  {
    if |header| + |payload| < PacketSize + 1 then [Pad(header + payload)]
    else [header + payload[..FirstPacketPayload]] + Chunks(payload[FirstPacketPayload..])
  }

  function Flatten(ps: seq<seq<Byte>>): seq<Byte>
  {
    if |ps| == 0 then [] else ps[0] + Flatten(ps[1..])
  }

  function CommandPackets(mode: string, sequence: Byte, command: int, payload: seq<Byte>): seq<seq<Byte>>
  {
    Packets(Header(mode, sequence, command, |payload|), payload)
  }

  /** A reply split into its parts, as `parse_reply` returns them.  The Python tuple holds
      the flag byte as its 8-digit binary numeral (`FlagBits`); no caller reads it. */
  datatype Reply = Reply(errorFlag: bool, flag: Byte, sequence: Byte, length: nat, data: seq<Byte>) {
    function FlagBits(): string
    {
      NumberToBits(flag, 8)
    }
  }

  /** `parse_reply`: None passes through; fewer than 4 bytes raise IndexError; the data
      is cut to the declared length or to what is there, whichever is shorter. */
  function ParseReply(reply: Option<seq<Byte>>): (r: Result<Option<Reply>>)
    ensures reply.None? <==> r == Ok(None)
    ensures reply.Some? && |reply.value| < 4 <==> r == Err(IndexError)
    ensures reply.Some? && |reply.value| >= 4 ==> r.Ok? && r.value.Some?
    ensures r.Ok? && r.value.Some? ==>
      var rep, bs := r.value.value, reply.value;
      && rep.flag == bs[0]
      && rep.sequence == bs[1]
      && rep.length == FromLE(bs[2..4])
      && rep.errorFlag == ((bs[0] / 32) % 2 == 1)
      && rep.data <= bs[4..]
      && |rep.data| == (if rep.length < |bs| - 4 then rep.length else |bs| - 4)
  {
    match reply
    case None => Ok(None)
    case Some(bs) =>
      if |bs| < 4 then Err(IndexError)
      else
        var length := Word(bs[2], bs[3]);
        var end := if 4 + length < |bs| then 4 + length else |bs|;
        Ok(Some(Reply((bs[0] / 32) % 2 == 1, bs[0], bs[1], length, bs[4..end])))
  }

  /** A reply frame as the device sends it: flag 0xC0 (bit 5, the error flag, clear),
      the sequence byte, the data length little-endian, the data, zero padding. */
  function ReplyPacket(sequence: Byte, data: seq<Byte>): seq<Byte>
    requires |data| <= PacketSize - 4
  {
    Pad([0xC0, sequence] + LE(|data|, 2) + data)
  }

  // ---------------------------------------------------------------- lemmas

  /** The packets concatenate to the frame followed by zero padding. */
  lemma {:induction false} ChunksConcat(rest: seq<Byte>)
    ensures Flatten(Chunks(rest)) == rest + Zeros(PacketSize * |Chunks(rest)| - |rest|)
    decreases |rest|
  {
    var ps := Chunks(rest);
    if |rest| == 0 {
    } else if |rest| <= PacketSize {
      assert ps[1..] == [];
      assert |ps| == 1;
    } else {
      var tail := rest[PacketSize..];
      ChunksConcat(tail);
      assert ps[1..] == Chunks(tail);
      assert rest == rest[..PacketSize] + tail;
      assert Zeros(PacketSize * |ps| - |rest|) == Zeros(PacketSize * |Chunks(tail)| - |tail|);
    }
  }

  lemma PacketsConcat(header: seq<Byte>, payload: seq<Byte>)
    requires |header| == HeaderSize
    ensures var ps := Packets(header, payload);
      Flatten(ps) == header + payload + Zeros(PacketSize * |ps| - HeaderSize - |payload|)
  {
    var ps := Packets(header, payload);
    if |header| + |payload| < PacketSize + 1 {
      assert ps[1..] == [];
    } else {
      var rest := payload[FirstPacketPayload..];
      ChunksConcat(rest);
      assert ps[1..] == Chunks(rest);
      assert payload == payload[..FirstPacketPayload] + rest;
      assert Zeros(PacketSize * |ps| - HeaderSize - |payload|) == Zeros(PacketSize * |Chunks(rest)| - |rest|);
    }
  }

  /** Packet-count boundaries: 58 payload bytes still fit one packet, 59 need two. */
  lemma PacketBoundary()
    ensures PacketCount(FirstPacketPayload) == 1
    ensures PacketCount(FirstPacketPayload + 1) == 2
    ensures PacketCount(60) == 2
  {
  }

  /** `parse_reply` of the single packet of a short command gives back its parts:
      no error flag, the sequence byte, length p+2 and the command bytes then the payload. */
  lemma ParseCommandPacket(mode: string, sequence: Byte, command: int, payload: seq<Byte>)
    requires |payload| <= FirstPacketPayload
    ensures var r := ParseReply(Some(CommandPackets(mode, sequence, command, payload)[0]));
      && r.Ok? && r.value.Some?
      && r.value.value == Reply(false, FlagByte(mode), sequence, |payload| + 2, LE(command, 2) + payload)
  {
    var n := |payload|;
    var h := Header(mode, sequence, command, n);
    var pkt := CommandPackets(mode, sequence, command, payload)[0];
    ShortPacket(h, payload);
    var data := h[4..6] + payload;
    assert h + payload == [h[0], h[1]] + h[2..4] + data;
    assert h[2..4] == LE(n + 2, 2) by {
      Pow2Values();
    }
    LaidOut(pkt, h[0], h[1], data);
    ParseLaidOut(pkt, h[0], h[1], data);
    assert (h[0] / 32) % 2 == 0;
  }

  lemma ShortPacket(h: seq<Byte>, payload: seq<Byte>)
    requires |h| == HeaderSize && |payload| <= FirstPacketPayload
    ensures Packets(h, payload)[0] == Pad(h + payload)
  {
  }

  /** Parsing a packet laid out as flag, sequence, little-endian length, data gives those
      parts back. */
  lemma ParseLaidOut(pkt: seq<Byte>, flag: Byte, sequence: Byte, data: seq<Byte>)
    requires |pkt| == PacketSize && |data| <= PacketSize - 4
    requires pkt[0] == flag && pkt[1] == sequence
    requires pkt[2] == |data| && pkt[3] == 0
    requires pkt[4..4 + |data|] == data
    ensures ParseReply(Some(pkt)) ==
      Ok(Some(Reply((flag / 32) % 2 == 1, flag, sequence, |data|, data)))
  {
  }

  lemma LaidOut(pkt: seq<Byte>, flag: Byte, sequence: Byte, data: seq<Byte>)
    requires |pkt| == PacketSize && |data| <= PacketSize - 4
    requires pkt[..4 + |data|] == [flag, sequence] + LE(|data|, 2) + data
    ensures pkt[0] == flag && pkt[1] == sequence
    ensures pkt[2] == |data| && pkt[3] == 0
    ensures pkt[4..4 + |data|] == data
  {
    var n := |data|;
    var pre := [flag, sequence] + LE(n, 2) + data;
    SmallLE(n);
    assert pkt[0] == pre[0];
    assert pkt[1] == pre[1];
    assert pkt[2] == pre[2];
    assert pkt[3] == pre[3];
    assert pkt[4..4 + n] == pre[4..];
  }

  lemma SmallLE(n: nat)
    requires n < 256
    ensures LE(n, 2) == [n, 0]
  {
    assert n % 256 == n && n / 256 == 0;
    assert LE(0, 1) == [0];
  }

  /** A device reply parses to its sequence byte and its data. */
  lemma ParseReplyPacket(sequence: Byte, data: seq<Byte>)
    requires |data| <= PacketSize - 4
    ensures var r := ParseReply(Some(ReplyPacket(sequence, data)));
      r.Ok? && r.value.Some? && !r.value.value.errorFlag
      && r.value.value.sequence == sequence && r.value.value.data == data
  {
    var pkt := ReplyPacket(sequence, data);
    assert pkt[..4 + |data|] == [0xC0, sequence] + LE(|data|, 2) + data;
    LaidOut(pkt, 0xC0, sequence, data);
    ParseLaidOut(pkt, 0xC0, sequence, data);
  }

  /** Every header `send_command` can send (the payload is at most 506 bytes) is the wire
      layout: the bit-string detour yields the little-endian length bytes. */
  lemma BuiltHeaderIsHeader(mode: string, sequence: Byte, command: int, payloadLength: nat)
    requires payloadLength + HeaderSize <= BufferLimit
    ensures BuiltHeader(mode, sequence, command, payloadLength) == Header(mode, sequence, command, payloadLength)
  {
    var temp := BitsToBytes(NumberToBits(payloadLength + 2, 16));
    Pow2Values();
    NumberToBitsBytes(payloadLength + 2, 2);
    assert temp[..2] == LE(payloadLength + 2, 2);
    assert LE(command, 2) == [command % 256, (command / 256) % 256] by {
      assert LE(command / 256 / 256, 0) == [];
    }
  }
}
