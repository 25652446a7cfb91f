/** Per-command payload encoders and reply decoders of the DLPC900 driver
    (dlpyc900/dlpyc900.py).  Every function here is pure: it builds the bytes
    a command carries or reads the fields out of the bytes a reply carries.
    Python's `x & mask` with a contiguous mask is `BitField`, `|` is `Or`. */
module Payloads {
  import opened Bytes
  import opened BitStrings
  import opened Results

  // ------------------------------------------------ port/clock (:299-340)

  /** `set_port_clock_definition`: data port in bits 0-1, pixel clock in bits 2-3,
      data enable in bit 4, VSync/HSync select in bit 5. */
  function PortClockByte(dataPort: int, pxClock: int, dataEnable: int, vhsync: int): nat
  {
    Or(Or(Or(BitField(dataPort, 0, 2), BitField(pxClock, 0, 2) * 4),
          BitField(dataEnable, 0, 1) * 16),
       BitField(vhsync, 0, 1) * 32)
  }

  datatype PortClock = PortClock(dataPort: nat, pxClock: nat, dataEnable: nat, vhsync: nat)

  /** `get_port_clock_definition`: the four fields read back out of the byte. */
  function DecodePortClock(b: Byte): (r: PortClock)
    ensures r.dataPort < 4 && r.pxClock < 4 && r.dataEnable < 2 && r.vhsync < 2
  {
    PortClock(b % 4, (b / 4) % 4, (b / 16) % 2, (b / 32) % 2)
  }

  /** The four fields occupy disjoint bits, so the ORs are additions. */
  lemma PortClockSum(dataPort: int, pxClock: int, dataEnable: int, vhsync: int)
    ensures PortClockByte(dataPort, pxClock, dataEnable, vhsync)
         == dataPort % 4 + 4 * (pxClock % 4) + 16 * (dataEnable % 2) + 32 * (vhsync % 2)
  {
    Pow2Small();
    LowField(dataPort, 2, 4);
    LowField(pxClock, 2, 4);
    LowField(dataEnable, 1, 2);
    LowField(vhsync, 1, 2);
    OrChain(dataPort % 4, pxClock % 4, dataEnable % 2, vhsync % 2);
  }

  lemma OrChain(a: nat, b: nat, c: nat, d: nat)
    requires a < 4 && b < 4 && c < 2 && d < 2
    ensures Or(Or(Or(a, b * 4), c * 16), d * 32) == a + 4 * b + 16 * c + 32 * d
  {
    OrShifted(a, b, 2, 4);
    OrShifted(a + b * 4, c, 4, 16);
    OrShifted(a + b * 4 + c * 16, d, 5, 32);
  }

  /** `x | (y << k)` for x below 2^k is `x + y * 2^k`. */
  lemma OrShifted(x: nat, y: nat, k: nat, m: nat)
    requires m == Pow2(k) && x < m
    ensures Or(x, y * m) == x + y * m
  {
    DivUnique(y * m, m, y, 0);
    OrAdd(x, y * m, k, m);
  }

  lemma DecodePortClockSum(a: nat, b: nat, c: nat, d: nat)
    requires a < 4 && b < 4 && c < 2 && d < 2
    ensures DecodePortClock(a + 4 * b + 16 * c + 32 * d) == PortClock(a, b, c, d)
  {
    var x := a + 4 * b + 16 * c + 32 * d;
    DivUnique(x, 4, b + 4 * c + 8 * d, a);
    DivUnique(b + 4 * c + 8 * d, 4, c + 2 * d, b);
    DivUnique(x, 16, c + 2 * d, a + 4 * b);
    DivUnique(c + 2 * d, 2, d, c);
    DivUnique(x, 32, d, a + 4 * b + 16 * c);
  }

  /** The byte the setter builds has six bits, and reading it back yields exactly the
      masked inputs. */
  lemma PortClockRoundTrip(dataPort: int, pxClock: int, dataEnable: int, vhsync: int)
    ensures PortClockByte(dataPort, pxClock, dataEnable, vhsync) < 64
    ensures DecodePortClock(PortClockByte(dataPort, pxClock, dataEnable, vhsync))
         == PortClock(dataPort % 4, pxClock % 4, dataEnable % 2, vhsync % 2)
  {
    PortClockSum(dataPort, pxClock, dataEnable, vhsync);
    DecodePortClockSum(dataPort % 4, pxClock % 4, dataEnable % 2, vhsync % 2);
  }

  /** Reading a byte back and writing its fields again keeps its low six bits. */
  lemma PortClockOfDecoded(b: Byte)
    ensures var f := DecodePortClock(b);
      PortClockByte(f.dataPort, f.pxClock, f.dataEnable, f.vhsync) == b % 64
  {
    var f := DecodePortClock(b);
    PortClockOfFields(f.dataPort, f.pxClock, f.dataEnable, f.vhsync);
    LowSixBits(b);
  }

  lemma PortClockOfFields(a: nat, b: nat, c: nat, d: nat)
    requires a < 4 && b < 4 && c < 2 && d < 2
    ensures PortClockByte(a, b, c, d) == a + 4 * b + 16 * c + 32 * d
  {
    assert a % 4 == a && b % 4 == b && c % 2 == c && d % 2 == d;
    var s := a % 4 + 4 * (b % 4) + 16 * (c % 2) + 32 * (d % 2);
    assert PortClockByte(a, b, c, d) == s by { PortClockSum(a, b, c, d); }
  }

  lemma LowSixBits(b: nat)
    ensures b % 64 == b % 4 + 4 * ((b / 4) % 4) + 16 * ((b / 16) % 2) + 32 * ((b / 32) % 2)
  {
    DivDiv(b, 4, 4);
    DivDiv(b, 16, 2);
    DivDiv(b, 32, 2);
    var q4, q16, q32 := b / 4, b / 16, b / 32;
    assert b == 4 * q4 + b % 4;
    assert q4 == 4 * q16 + q4 % 4;
    assert q16 == 2 * q32 + q16 % 2;
    assert q32 == 2 * (b / 64) + q32 % 2;
    DivUnique(b, 64, b / 64, b % 4 + 4 * (q4 % 4) + 16 * (q16 % 2) + 32 * (q32 % 2));
  }

  // ------------------------------------------------ input source (:342-376)

  /** `set_input_source`: source in bits 0-2, parallel bit depth in bits 3-4. */
  function InputSourceByte(source: int, bitdepth: int): nat
  {
    Or(BitField(source, 0, 3), BitField(bitdepth, 0, 2) * 8)
  }

  datatype InputSource = InputSource(source: nat, bitdepth: nat)

  function DecodeInputSource(b: Byte): (r: InputSource)
    ensures r.source < 8 && r.bitdepth < 4
  {
    InputSource(b % 8, (b / 8) % 4)
  }

  lemma InputSourceRoundTrip(source: int, bitdepth: int)
    ensures InputSourceByte(source, bitdepth) < 32
    ensures DecodeInputSource(InputSourceByte(source, bitdepth)) == InputSource(source % 8, bitdepth % 4)
  {
    var a, b := source % 8, bitdepth % 4;
    assert InputSourceByte(source, bitdepth) == a + 8 * b by {
      Pow2Small();
      LowField(source, 3, 8);
      LowField(bitdepth, 2, 4);
      OrAdd(a, b * 8, 3, 8);
    }
    DivUnique(a + 8 * b, 8, b, a);
  }

  // ------------------------------------------------ pattern LUT (:475-539)

  /** `start_pattern_from_LUT`: the entry count through the 10-bit split, then the
      number of patterns to show (0 = repeat forever) through the 32-bit one. */
  function LutStartPayload(entries: nat, patterns: nat): (r: seq<Byte>)
    ensures |r| >= 6
    ensures entries < 1024 && patterns < 0x1_0000_0000 ==> |r| == 6
  {
    Pow2Values();
    assert Pow2(10) == 1024 by { assert Pow2(9) == 512; }
    if entries < 1024 && patterns < 0x1_0000_0000 then
      NumberToBitsLength(entries, 10);
      NumberToBitsLength(patterns, 32);
      BitsToBytes(NumberToBits(entries, 10)) + BitsToBytes(NumberToBits(patterns, 32))
    else
      BitsToBytes(NumberToBits(entries, 10)) + BitsToBytes(NumberToBits(patterns, 32))
  }

  /** In range the payload is [n & 3, n >> 2] followed by the count little-endian. */
  lemma LutStartLayout(entries: nat, patterns: nat)
    requires entries < 1024 && patterns < 0x1_0000_0000
    ensures LutStartPayload(entries, patterns) == [entries % 4, entries / 4] + LE(patterns, 4)
  {
    TenBitSplit(entries);
    Pow2Values();
    NumberToBitsBytes(patterns, 4);
  }

  /** For 1024-2047 entries the numeral has 11 digits and the split moves: the first
      byte becomes the low 3 bits and the second the high 8. */
  lemma LutStartOverflow(entries: nat)
    requires 1024 <= entries < 2048
    ensures BitsToBytes(NumberToBits(entries, 10)) == [entries % 8, entries / 8]
  {
    Pow2Values();
    assert Pow2(10) == 1024 && Pow2(11) == 2048;
    BinaryLengthExact(entries, 11);
    var s := NumberToBits(entries, 10);
    var hi, lo := s[..8], s[8..];
    assert s == hi + lo;
    ValueAppend(hi, lo);
    ValueBound(lo);
    ValueBound(hi);
    DivUnique(entries, 8, Value(hi), Value(lo));
  }

  /** The entry of `setup_pattern_LUT_definition` as its caller supplies it. */
  datatype LutEntry = LutEntry(
    patternIndex: int,
    disableTrigger2: bool,
    extendedBitDepth: bool,
    exposure: int,
    dark: int,
    color: int,
    bitdepth: int,
    imagePatternIndex: int,
    bitPosition: int)

  function BoolInt(b: bool): nat
  {
    if b then 1 else 0
  }

  /** Byte 5 as written: `(bitdepth-1) & 0x07 << 1` parses as `(bitdepth-1) & 0x0E` and
      `color & 0x07 << 4` as `color & 0x70`; clear-after-exposure and wait-for-trigger
      are 0. */
  function LutByte5(bitdepth: int, color: int): nat
  {
    Or(Or(Or(BitField(0, 0, 1), BitField(bitdepth - 1, 1, 3)), BitField(color, 4, 3)), BitField(0, 7, 1))
  }

  /** Byte 9 as written: `extended & 0x01 << 1` parses as `extended & 0x02`. */
  function LutByte9(disableTrigger2: bool, extendedBitDepth: bool): nat
  {
    Or(BitField(BoolInt(disableTrigger2), 0, 1), BitField(BoolInt(extendedBitDepth), 1, 1))
  }

  /** The 12-byte payload of `setup_pattern_LUT_definition` (command 0x1A34). */
  function LutEntryPayload(e: LutEntry): (r: seq<Byte>)
    ensures |r| == 12
  {
    var b5 := LutByte5(e.bitdepth, e.color);
    var b9 := LutByte9(e.disableTrigger2, e.extendedBitDepth);
    LutByte5Value(e.bitdepth, e.color);
    LutByte9Value(e.disableTrigger2, e.extendedBitDepth);
    var bitPositionByte := BitField(e.bitPosition, 0, 5) * 8;
    Pow2Small();
    LE(e.patternIndex, 2) + LE(e.exposure, 3) + [b5] + LE(e.dark, 3) + [b9]
      + [e.imagePatternIndex % 256, OrByte((e.imagePatternIndex / 256) % 256, bitPositionByte)]
  }

  /** Byte 5 keeps bits 1-3 of bitdepth-1 and bits 4-6 of the colour, in place. */
  lemma LutByte5Value(bitdepth: int, color: int)
    ensures LutByte5(bitdepth, color) == BitField(bitdepth - 1, 1, 3) + BitField(color, 4, 3)
    ensures LutByte5(bitdepth, color) < 128
  {
    Pow2Values();
    var d, c := BitField(bitdepth - 1, 1, 3), BitField(color, 4, 3);
    assert BitField(0, 0, 1) == 0 && BitField(0, 7, 1) == 0;
    assert d == ((bitdepth - 1) / 2) % 8 * 2;
    assert c == (color / 16) % 8 * 16;
    OrDisjoint(d, c, 4);
  }

  /** Byte 9 is the disable flag alone: the extended-bit-depth flag is masked away. */
  lemma LutByte9Value(disable: bool, extended: bool)
    ensures LutByte9(disable, extended) == BoolInt(disable)
  {
    Pow2Values();
    assert BitField(BoolInt(extended), 1, 1) == 0;
  }

  /** The field layout of the payload, each field read back little-endian. */
  lemma LutEntryLayout(e: LutEntry)
    ensures var r := LutEntryPayload(e);
      && FromLE(r[0..2]) == e.patternIndex % 65536
      && FromLE(r[2..5]) == e.exposure % 0x100_0000
      && r[5] == BitField(e.bitdepth - 1, 1, 3) + BitField(e.color, 4, 3)
      && FromLE(r[6..9]) == e.dark % 0x100_0000
      && r[9] == BoolInt(e.disableTrigger2)
      && r[10] == e.imagePatternIndex % 256
      && r[11] == OrByte((e.imagePatternIndex / 256) % 256, (e.bitPosition % 32) * 8)
  {
    LutEntryCounts(e);
    LutEntryFlags(e);
    LutEntryTail(e);
  }

  lemma LutEntryCounts(e: LutEntry)
    ensures var r := LutEntryPayload(e);
      && FromLE(r[0..2]) == e.patternIndex % 65536
      && FromLE(r[2..5]) == e.exposure % 0x100_0000
      && FromLE(r[6..9]) == e.dark % 0x100_0000
  {
    var r := LutEntryPayload(e);
    assert r[0..2] == LE(e.patternIndex, 2);
    assert r[2..5] == LE(e.exposure, 3);
    assert r[6..9] == LE(e.dark, 3);
    Pow2Values();
    FromLEOfLE(e.patternIndex, 2);
    FromLEOfLE(e.exposure, 3);
    FromLEOfLE(e.dark, 3);
  }

  lemma LutEntryFlags(e: LutEntry)
    ensures var r := LutEntryPayload(e);
      && r[5] == BitField(e.bitdepth - 1, 1, 3) + BitField(e.color, 4, 3)
      && r[9] == BoolInt(e.disableTrigger2)
  {
    LutByte5Value(e.bitdepth, e.color);
    LutByte9Value(e.disableTrigger2, e.extendedBitDepth);
  }

  lemma LutEntryTail(e: LutEntry)
    ensures var r := LutEntryPayload(e);
      && r[10] == e.imagePatternIndex % 256
      && r[11] == OrByte((e.imagePatternIndex / 256) % 256, (e.bitPosition % 32) * 8)
  {
    LowField(e.bitPosition, 5, 32);
  }

  /** Colours 0-7, the documented range, leave no trace in byte 5: only bits 4-6 of
      the colour number are kept, not bits 0-2. */
  lemma LutColorDropped(bitdepth: int, color: int)
    requires 0 <= color < 8
    ensures LutByte5(bitdepth, color) == LutByte5(bitdepth, 0)
  {
    LutByte5Value(bitdepth, color);
    LutByte5Value(bitdepth, 0);
    Pow2Values();
  }

  /** The documented byte 5 (DLPU018 section 2.4.4.3.5): bit-depth-1 in bits 1-3, colour
      in bits 4-6. */
  function DocumentedLutByte5(bitdepth: int, color: int): nat
  {
    BitField(bitdepth - 1, 0, 3) * 2 + BitField(color, 0, 3) * 16
  }

  /** The documented byte decodes back to its fields. */
  lemma DocumentedLutByte5Fields(bitdepth: int, color: int)
    ensures var b := DocumentedLutByte5(bitdepth, color);
      b < 128 && (b / 2) % 8 == (bitdepth - 1) % 8 && b / 16 == color % 8 && b % 2 == 0
  {
    Pow2Values();
    var d, c := (bitdepth - 1) % 8, color % 8;
    var b := d * 2 + c * 16;
    DivUnique(b, 2, d + 8 * c, 0);
    DivUnique(d + 8 * c, 8, c, d);
    DivUnique(b, 16, c, d * 2);
  }

  /** The defaults (bit depth 8, colour 1 = red) show the as-written byte differs from
      the documented one: 0x06 instead of 0x1E. */
  lemma LutByte5Defaults(bitdepth: int, color: int)
    requires bitdepth == 8 && color == 1
    ensures LutByte5(bitdepth, color) == 0x06
    ensures DocumentedLutByte5(bitdepth, color) == 0x1E
  {
    assert Pow2(0) == 1 && Pow2(1) == 2 && Pow2(3) == 8 && Pow2(4) == 16;
    assert BitField(7, 1, 3) == 6 && BitField(1, 4, 3) == 0;
    assert BitField(7, 0, 3) == 7 && BitField(1, 0, 3) == 1;
    LutByte5Value(bitdepth, color);
  }

  /** As written and documented byte 5 agree exactly when bitdepth-1 is 0 or 15
      modulo 16 and the colour's bits 4-6 equal its bits 0-2. Within the documented
      ranges (bitdepth 1-8, colour 0-7) that is only bitdepth 1 with colour 0. */
  lemma LutByte5Agreement(bitdepth: int, color: int)
    ensures LutByte5(bitdepth, color) == DocumentedLutByte5(bitdepth, color)
        <==> ((bitdepth - 1) % 16) / 2 == (bitdepth - 1) % 8 && (color / 16) % 8 == color % 8
  {
    Pow2Values();
    LutByte5Value(bitdepth, color);
    var d1 := ((bitdepth - 1) / 2) % 8;
    var c1 := (color / 16) % 8;
    var d2, c2 := (bitdepth - 1) % 8, color % 8;
    assert LutByte5(bitdepth, color) == d1 * 2 + c1 * 16;
    assert DocumentedLutByte5(bitdepth, color) == d2 * 2 + c2 * 16;
    DivDiv(bitdepth - 1, 2, 8);
    SplitDiv16(bitdepth - 1);
    Digits2x16(d1, c1, d2, c2);
  }

  lemma SplitDiv16(x: int)
    ensures ((x / 2) % 8) == (x % 16) / 2
  {
    var q := x / 16;
    var r := x % 16;
    assert x == 16 * q + r;
    DivUnique(x, 2, 8 * q + r / 2, r % 2);
    DivUnique(8 * q + r / 2, 8, q, r / 2);
  }

  lemma Digits2x16(d1: int, c1: int, d2: int, c2: int)
    requires 0 <= d1 < 8 && 0 <= c1 < 8 && 0 <= d2 < 8 && 0 <= c2 < 8
    ensures d1 * 2 + c1 * 16 == d2 * 2 + c2 * 16 <==> d1 == d2 && c1 == c2
  {
    if d1 * 2 + c1 * 16 == d2 * 2 + c2 * 16 {
      DivUnique(d1 + 8 * c1, 8, c1, d1);
      DivUnique(d2 + 8 * c2, 8, c2, d2);
    }
  }

  /** With an image index below 256 byte 11 carries the bit position alone, in bits 3-7. */
  lemma LutBitPositionByte(e: LutEntry)
    requires 0 <= e.imagePatternIndex < 256
    ensures LutEntryPayload(e)[11] == (e.bitPosition % 32) * 8
    ensures LutEntryPayload(e)[11] / 8 == e.bitPosition % 32
  {
    LutEntryTail(e);
    assert (e.imagePatternIndex / 256) % 256 == 0;
  }

  // ------------------------------------------------ little-endian config payloads (:641-726)

  /** `set_input_source_config`: width, height and frame rate, 16 bits each. */
  function SourceConfigPayload(width: int, height: int, frameRate: int): (r: seq<Byte>)
    ensures |r| == 6
    ensures FromLE(r[0..2]) == width % 65536
    ensures FromLE(r[2..4]) == height % 65536
    ensures FromLE(r[4..6]) == frameRate % 65536
  {
    Pow2Values();
    FromLEOfLE(width, 2);
    FromLEOfLE(height, 2);
    FromLEOfLE(frameRate, 2);
    var r := LE(width, 2) + LE(height, 2) + LE(frameRate, 2);
    assert r[0..2] == LE(width, 2) && r[2..4] == LE(height, 2) && r[4..6] == LE(frameRate, 2);
    r
  }

  /** `set_min_led_pulse_width_us`, `set_trigger_in1` and the on-the-fly length
      announcement: one value over 32 bits. */
  function Word32Payload(value: int): (r: seq<Byte>)
    ensures |r| == 4
    ensures FromLE(r) == value % 0x1_0000_0000
    ensures forall i :: 0 <= i < 4 ==> r[i] == (value / Pow2(8 * i)) % 256
  {
    Pow2Values();
    FromLEOfLE(value, 4);
    LEByte(value, 4, 0);
    LEByte(value, 4, 1);
    LEByte(value, 4, 2);
    LEByte(value, 4, 3);
    LE(value, 4)
  }

  /** `set_trigger_out1`: polarity, then rising and falling delay, 16 bits each. */
  function TriggerOutPayload(polarity: bool, risingDelay: int, fallingDelay: int): (r: seq<Byte>)
    ensures |r| == 5
    ensures r[0] == BoolInt(polarity)
    ensures FromLE(r[1..3]) == risingDelay % 65536
    ensures FromLE(r[3..5]) == fallingDelay % 65536
  {
    Pow2Values();
    FromLEOfLE(risingDelay, 2);
    FromLEOfLE(fallingDelay, 2);
    var r := [BoolInt(polarity)] + LE(risingDelay, 2) + LE(fallingDelay, 2);
    assert r[1..3] == LE(risingDelay, 2) && r[3..5] == LE(fallingDelay, 2);
    r
  }

  // ------------------------------------------------ firmware version (:609-625)

  datatype Version = Version(major: Byte, minor: Byte, patch: nat)

  datatype FirmwareVersion = FirmwareVersion(app: Version, api: Version, swConfig: Version, seqConfig: Version)

  /** One 4-byte group: patch little-endian in bytes 0-1, minor in byte 2, major in byte 3. */
  function DecodeVersion(d: seq<Byte>): (v: Version)
    requires |d| >= 4
    ensures v.patch < 65536
  {
    Version(d[3], d[2], Word(d[0], d[1]))
  }

  function EncodeVersion(v: Version): (d: seq<Byte>)
    requires v.patch < 65536
    ensures |d| == 4
  {
    LE(v.patch, 2) + [v.minor, v.major]
  }

  /** `get_firmware_version` on the first 16 reply bytes. */
  function DecodeFirmware(d: seq<Byte>): FirmwareVersion
    requires |d| >= 16
  {
    FirmwareVersion(DecodeVersion(d[0..4]), DecodeVersion(d[4..8]), DecodeVersion(d[8..12]), DecodeVersion(d[12..16]))
  }

  predicate ValidFirmware(f: FirmwareVersion)
  {
    f.app.patch < 65536 && f.api.patch < 65536 && f.swConfig.patch < 65536 && f.seqConfig.patch < 65536
  }

  function EncodeFirmware(f: FirmwareVersion): (d: seq<Byte>)
    requires ValidFirmware(f)
    ensures |d| == 16
  {
    EncodeVersion(f.app) + EncodeVersion(f.api) + EncodeVersion(f.swConfig) + EncodeVersion(f.seqConfig)
  }

  lemma VersionRoundTrip(v: Version)
    requires v.patch < 65536
    ensures DecodeVersion(EncodeVersion(v)) == v
  {
    Pow2Values();
    LEByte(v.patch, 2, 0);
    LEByte(v.patch, 2, 1);
    DivUnique(v.patch, 256, v.patch / 256, v.patch % 256);
  }

  /** The four (major, minor, patch) triples survive encoding and decoding. */
  lemma FirmwareRoundTrip(f: FirmwareVersion)
    requires ValidFirmware(f)
    ensures DecodeFirmware(EncodeFirmware(f)) == f
  {
    var d := EncodeFirmware(f);
    assert d[0..4] == EncodeVersion(f.app);
    assert d[4..8] == EncodeVersion(f.api);
    assert d[8..12] == EncodeVersion(f.swConfig);
    assert d[12..16] == EncodeVersion(f.seqConfig);
    VersionRoundTrip(f.app);
    VersionRoundTrip(f.api);
    VersionRoundTrip(f.swConfig);
    VersionRoundTrip(f.seqConfig);
  }

  // ------------------------------------------------ hardware id (:241-259)

  datatype Hardware = UnknownHardware | DLP6500 | DLP9000 | DLP670S | DLP500YX | DLP5500 | UndocumentedHardware

  /** The `hardware_pos` table, with KeyError mapped to "undocumented hardware". */
  function HardwareOf(code: Byte): Hardware
  {
    match code
    case 0 => UnknownHardware
    case 1 => DLP6500
    case 2 => DLP9000
    case 3 => DLP670S
    case 4 => DLP500YX
    case 5 => DLP5500
    case _ => UndocumentedHardware
  }

  /** The table's key for each documented product. */
  function HardwareCode(h: Hardware): (c: Byte)
    requires !h.UndocumentedHardware?
  {
    match h
    case UnknownHardware => 0
    case DLP6500 => 1
    case DLP9000 => 2
    case DLP670S => 3
    case DLP500YX => 4
    case DLP5500 => 5
  }

  lemma HardwareTable(code: Byte, h: Hardware)
    ensures HardwareOf(code).UndocumentedHardware? <==> code > 5
    ensures !h.UndocumentedHardware? ==> HardwareOf(HardwareCode(h)) == h
    ensures code <= 5 ==> HardwareCode(HardwareOf(code)) == code
  {
  }

  /** The firmware tag: each reply byte after the first as a character. */
  function FirmwareTag(d: seq<Byte>): (s: string)
    ensures |s| == |d|
    ensures forall i :: 0 <= i < |d| ==> s[i] as int == d[i]
  {
    seq(|d|, i requires 0 <= i < |d| => d[i] as char)
  }

  // ------------------------------------------------ error codes (:261-296, :628-638)

  datatype DeviceError =
    | BatchChecksum | DeviceFailure | InvalidCommand | IncompatibleHardware
    | NotAllowedInMode | InvalidParameter | ItemNotPresent | OutOfResource
    | InvalidBmpCompression | BitNumberOutOfRange | BmpNotInFlash | DarkTimeOutOfRange
    | SignalDelayOutOfRange | ExposureOutOfRange | PatternNumberOutOfRange
    | InvalidPatternDefinition | ImageAddressOutOfRange | InternalError
    | UndocumentedError(code: Byte)

  /** The `error_dict` lookup of `check_for_error`, with KeyError as "Undocumented error". */
  function DeviceErrorOf(code: Byte): DeviceError
  {
    match code
    case 1 => BatchChecksum
    case 2 => DeviceFailure
    case 3 => InvalidCommand
    case 4 => IncompatibleHardware
    case 5 => NotAllowedInMode
    case 6 => InvalidParameter
    case 7 => ItemNotPresent
    case 8 => OutOfResource
    case 9 => InvalidBmpCompression
    case 10 => BitNumberOutOfRange
    case 11 => BmpNotInFlash
    case 12 => DarkTimeOutOfRange
    case 13 => SignalDelayOutOfRange
    case 14 => ExposureOutOfRange
    case 15 => PatternNumberOutOfRange
    case 16 => InvalidPatternDefinition
    case 17 => ImageAddressOutOfRange
    case 255 => InternalError
    case _ => UndocumentedError(code)
  }

  /** The code each error is reported under. */
  function DeviceErrorCode(e: DeviceError): Byte
  {
    match e
    case BatchChecksum => 1
    case DeviceFailure => 2
    case InvalidCommand => 3
    case IncompatibleHardware => 4
    case NotAllowedInMode => 5
    case InvalidParameter => 6
    case ItemNotPresent => 7
    case OutOfResource => 8
    case InvalidBmpCompression => 9
    case BitNumberOutOfRange => 10
    case BmpNotInFlash => 11
    case DarkTimeOutOfRange => 12
    case SignalDelayOutOfRange => 13
    case ExposureOutOfRange => 14
    case PatternNumberOutOfRange => 15
    case InvalidPatternDefinition => 16
    case ImageAddressOutOfRange => 17
    case InternalError => 255
    case UndocumentedError(c) => c
  }

  predicate Documented(code: Byte)
  {
    1 <= code <= 17 || code == 255
  }

  /** The lookup loses no information, and is undocumented exactly off the table. */
  lemma DeviceErrorTable(code: Byte)
    ensures DeviceErrorCode(DeviceErrorOf(code)) == code
    ensures DeviceErrorOf(code).UndocumentedError? <==> !Documented(code)
  {
  }

  lemma DeviceErrorOfCode(e: DeviceError)
    requires !e.UndocumentedError? || !Documented(e.code)
    ensures DeviceErrorOf(DeviceErrorCode(e)) == e
  {
  }

  /** `get_error_description`: the reply bytes as characters, NUL bytes skipped. */
  function Description(d: seq<Byte>): (s: string)
    ensures |s| <= |d|
    ensures forall i :: 0 <= i < |s| ==> s[i] != 0 as char
    decreases |d|
  {
    if |d| == 0 then ""
    else (if d[0] == 0 then "" else [d[0] as char]) + Description(d[1..])
  }

  /** The description of a concatenation is the concatenation of the
      descriptions: each byte is dropped or kept on its own. */
  lemma {:induction false} DescriptionAppend(a: seq<Byte>, b: seq<Byte>)
    ensures Description(a + b) == Description(a) + Description(b)
    decreases |a|
  {
    if |a| > 0 {
      assert (a + b)[1..] == a[1..] + b;
      DescriptionAppend(a[1..], b);
    } else {
      assert a + b == b;
    }
  }

  /** One byte describes as nothing when it is NUL and as its own character
      otherwise. */
  lemma DescriptionByte(x: Byte)
    ensures Description([x]) == if x == 0 then "" else [x as char]
  {
    assert [x][1..] == [];
  }

  /** NUL padding after the text does not change the description. */
  lemma {:induction false} DescriptionPadding(d: seq<Byte>, n: nat)
    ensures Description(d + Zeros(n)) == Description(d)
    decreases |d|
  {
    if |d| == 0 {
      assert d + Zeros(n) == Zeros(n);
      ZerosDescription(n);
    } else {
      assert (d + Zeros(n))[1..] == d[1..] + Zeros(n);
      DescriptionPadding(d[1..], n);
    }
  }

  lemma {:induction false} ZerosDescription(n: nat)
    ensures Description(Zeros(n)) == ""
    decreases n
  {
    if n > 0 {
      assert Zeros(n)[1..] == Zeros(n - 1);
      ZerosDescription(n - 1);
    }
  }

  /** Text without NUL bytes comes through character for character. */
  lemma {:induction false} DescriptionOfText(d: seq<Byte>)
    requires forall i :: 0 <= i < |d| ==> d[i] != 0
    ensures Description(d) == FirmwareTag(d)
    decreases |d|
  {
    if |d| > 0 {
      DescriptionOfText(d[1..]);
      assert FirmwareTag(d) == [d[0] as char] + FirmwareTag(d[1..]);
    }
  }

  // ------------------------------------------------ status bytes (:149-239)

  /** `get_main_status`: `bits_to_bools(number_to_bits(b, 8))[:6]`, the first six
      characters of the most-significant-first numeral. */
  function MainStatus(b: Byte): (r: seq<int>)
    ensures |r| == 6
    ensures forall i :: 0 <= i < 6 ==> r[i] == 0 || r[i] == 1
  {
    var bits := NumberToBits(b, 8);
    Pow2Values();
    NumberToBitsLength(b, 8);
    BitsToBools(bits)[..6]
  }

  /** Element i of the tuple is bit 7-i of the status byte: the tuple holds bits 7..2,
      and bits 1 and 0 are not reported. */
  lemma MainStatusBits(b: Byte, i: nat)
    requires i < 6
    ensures MainStatus(b)[i] == (b / Pow2(7 - i)) % 2
  {
    Pow2Values();
    ByteBitAt(b, i);
  }

  /** What `get_hardware_status` reports, from the characters of the 8-digit numeral;
      character 5 is never looked at. */
  datatype HardwareReport = HardwareReport(
    initialized: bool,       // character 0
    incompatible: bool,      // character 1
    resetError: bool,        // character 2
    forcedSwapError: bool,   // character 3
    secondaryPresent: bool,  // character 4
    sequencerAbort: bool,    // character 6
    sequencerError: bool,    // character 7
    errors: nat)

  function HardwareStatusReport(b: Byte): (r: HardwareReport)
  {
    Pow2Values();
    NumberToBitsLength(b, 8);
    var bits := NumberToBits(b, 8);
    var init, incompatible, reset, swap := bits[0] == '1', bits[1] == '1', bits[2] == '1', bits[3] == '1';
    var abort, seqError := bits[6] == '1', bits[7] == '1';
    HardwareReport(init, incompatible, reset, swap, bits[4] == '1', abort, seqError,
      BoolInt(!init) + BoolInt(incompatible) + BoolInt(reset) + BoolInt(swap) + BoolInt(abort) + BoolInt(seqError))
  }

  /** The report reads the numeral most-significant-first, so "initialised" is bit 7 and
      "sequencer error" bit 0 of the byte. */
  lemma HardwareReportBits(b: Byte)
    ensures var r := HardwareStatusReport(b);
      && r.initialized == ((b / 128) % 2 == 1)
      && r.incompatible == ((b / 64) % 2 == 1)
      && r.resetError == ((b / 32) % 2 == 1)
      && r.forcedSwapError == ((b / 16) % 2 == 1)
      && r.secondaryPresent == ((b / 8) % 2 == 1)
      && r.sequencerAbort == ((b / 2) % 2 == 1)
      && r.sequencerError == (b % 2 == 1)
      && r.errors == (1 - (b / 128) % 2) + (b / 64) % 2 + (b / 32) % 2 + (b / 16) % 2 + (b / 2) % 2 + b % 2
  {
    var r := HardwareStatusReport(b);
    HardwareReportFlags(b);
    assert BoolInt(!r.initialized) == 1 - (b / 128) % 2;
    assert BoolInt(r.incompatible) == (b / 64) % 2;
    assert BoolInt(r.resetError) == (b / 32) % 2;
    assert BoolInt(r.forcedSwapError) == (b / 16) % 2;
    assert BoolInt(r.sequencerAbort) == (b / 2) % 2;
    assert BoolInt(r.sequencerError) == b % 2;
  }

  /** Each flag of the report is the bit of the byte its numeral character stands for. */
  lemma HardwareReportFlags(b: Byte)
    ensures var r := HardwareStatusReport(b);
      && r.initialized == ((b / 128) % 2 == 1)
      && r.incompatible == ((b / 64) % 2 == 1)
      && r.resetError == ((b / 32) % 2 == 1)
      && r.forcedSwapError == ((b / 16) % 2 == 1)
      && r.secondaryPresent == ((b / 8) % 2 == 1)
      && r.sequencerAbort == ((b / 2) % 2 == 1)
      && r.sequencerError == (b % 2 == 1)
  {
    var bits := NumberToBits(b, 8);
    assert |bits| == 8 by { ByteBitAt(b, 0); }
    assert (bits[0] == '1') == ((b / 128) % 2 == 1) by { Pow2Small(); ByteBitAt(b, 0); }
    assert (bits[1] == '1') == ((b / 64) % 2 == 1) by { Pow2Small(); ByteBitAt(b, 1); }
    assert (bits[2] == '1') == ((b / 32) % 2 == 1) by { Pow2Small(); ByteBitAt(b, 2); }
    assert (bits[3] == '1') == ((b / 16) % 2 == 1) by { Pow2Small(); ByteBitAt(b, 3); }
    assert (bits[4] == '1') == ((b / 8) % 2 == 1) by { Pow2Small(); ByteBitAt(b, 4); }
    assert (bits[6] == '1') == ((b / 2) % 2 == 1) by { Pow2Small(); ByteBitAt(b, 6); }
    assert (bits[7] == '1') == (b % 2 == 1) by { Pow2Small(); ByteBitAt(b, 7); }
  }

  // ------------------------------------------------ power mode (:568-587)

  datatype PowerMode = Normal | Idle | Standby | UndocumentedState

  /** `get_current_powermode` from the idle (0x0201) and sleep (0x0200) bytes; sleep 0
      with an idle byte other than 0 or 1 falls off the end of the function: None. */
  function PowerModeOf(idle: Byte, sleep: Byte): Option<PowerMode>
  {
    if sleep == 0 then
      if idle == 0 then Some(Normal)
      else if idle == 1 then Some(Idle)
      else None
    else if sleep == 1 then Some(Standby)
    else Some(UndocumentedState)
  }

  /** The (idle, sleep) register values that denote each documented mode. */
  function PowerRegisters(m: PowerMode): (Byte, Byte)
    requires !m.UndocumentedState?
  {
    match m
    case Normal => (0, 0)
    case Idle => (1, 0)
    case Standby => (0, 1)
  }

  lemma PowerModeTable(idle: Byte, sleep: Byte, m: PowerMode)
    ensures !m.UndocumentedState? ==> PowerModeOf(PowerRegisters(m).0, PowerRegisters(m).1) == Some(m)
    ensures PowerModeOf(idle, sleep) == Some(Standby) <==> sleep == 1
    ensures PowerModeOf(idle, sleep) == None <==> sleep == 0 && idle > 1
    ensures PowerModeOf(idle, sleep) == Some(UndocumentedState) <==> sleep > 1
  {
  }
}
