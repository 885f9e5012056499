/** The two forms of the CRC in crcsw.c: bit by bit with reflected input and output, and by table.
    The left-shifting division, reflected, is the right-shifting one that the tables tabulate. */
module Crc {
  import opened CrcTables
  import opened BitFacts

  predicate Width(n: bv32) {
    n == 8 || n == 16 || n == 32
  }

  predicate PolySize(n: bv32) {
    n == 16 || n == 32
  }

  /** The last stage of a reflection. */
  function Down(y: bv32, n: bv32): bv32
    requires Width(n)
  {
    if n == 8 then y >> 24 else if n == 16 then y >> 16 else y
  }

  /** The low n bits in opposite order; the bits above them are ignored. */
  function Reflected(x: bv32, n: bv32): bv32
    requires Width(n)
  {
    Down(Reverse(x), n)
  }

  predicate TestBit(x: bv32, k: bv32)
    requires k < 32
  {
    (x >> k) & 1 == 1
  }

  /** What reflecting means: bit n - 1 - k of the result is bit k of the argument. */
  lemma ReflectedBit(x: bv32, n: bv32, k: bv32)
    requires Width(n) && k < n
    ensures TestBit(Reflected(x, n), n - 1 - k) == TestBit(x, k)
  {
  }

  predicate Odd(x: bv32) { x & 1 != 0 }

  function Half(x: bv32): bv32 { x >> 1 }

  function Xor(a: bv32, b: bv32): bv32 { a ^ b }

  function Low(x: bv32): bv32 { x & 0xFF }

  function Rest(x: bv32): bv32 { x >> 8 }

  // ---- The reflecting loop ----

  function Top(r: bv32, n: bv32, bit: bv32): bv32
    requires bit <= n <= 32
  {
    r & (0xFFFF_FFFF << (n - bit))
  }

  function Mirrored(n: bv32, bit: bv32): bv32
    requires bit < n <= 32
  {
    1 << ((n - 1) - bit)
  }

  function Shifted(x: bv32, bit: bv32): bv32
    requires bit <= 32
  {
    x >> bit
  }

  function Or(a: bv32, b: bv32): bv32 { a | b }

  function And(a: bv32, b: bv32): bv32 { a & b }

  lemma LowBit(x: bv32, bit: bv32)
    requires bit < 32
    ensures Odd(Shifted(x, bit)) == TestBit(x, bit)
  {
  }

  lemma NextBit(r: bv32, n: bv32, bit: bv32)
    requires Width(n) && bit < n
    ensures Top(r, n, bit + 1) == Or(Top(r, n, bit), And(r, Mirrored(n, bit)))
  {
  }

  lemma OneBit(r: bv32, n: bv32, bit: bv32)
    requires Width(n) && bit < n
    ensures And(r, Mirrored(n, bit)) == if TestBit(r, n - 1 - bit) then Mirrored(n, bit) else 0
  {
  }

  lemma OrZero(a: bv32)
    ensures Or(a, 0) == a
  {
  }

  lemma NoTop(x: bv32, n: bv32)
    requires Width(n)
    ensures Top(Reflected(x, n), n, 0) == 0
  {
  }

  lemma AllTop(r: bv32, n: bv32)
    requires Width(n)
    ensures Top(r, n, n) == r
  {
  }

  lemma ShiftNone(x: bv32)
    ensures Shifted(x, 0) == x
  {
  }

  lemma ShiftMore(x: bv32, bit: bv32)
    requires bit < 32
    ensures Shifted(Shifted(x, bit), 1) == Shifted(x, bit + 1)
  {
  }

  /** After `bit` turns the top bits of the reflection are in place, and the data is shifted down. */
  predicate Reflecting(x: bv32, n: bv32, bit: bv32, data: bv32, r: bv32)
    requires Width(n)
  {
    bit <= n && data == Shifted(x, bit) && r == Top(Reflected(x, n), n, bit)
  }

  lemma ReflectBegins(x: bv32, n: bv32)
    requires Width(n)
    ensures Reflecting(x, n, 0, x, 0)
  {
    hide Reflected, Top, Shifted;
    NoTop(x, n);
    ShiftNone(x);
  }

  lemma ReflectTurns(x: bv32, n: bv32, bit: bv32, data: bv32, r: bv32)
    requires Width(n) && bit < n && Reflecting(x, n, bit, data, r)
    ensures Reflecting(x, n, bit + 1, Shifted(data, 1), if Odd(data) then Or(r, Mirrored(n, bit)) else r)
  {
    hide Reflected, Top, Mirrored, Shifted, TestBit, Odd, Or, And;
    ReflectedBit(x, n, bit);
    LowBit(x, bit);
    NextBit(Reflected(x, n), n, bit);
    OneBit(Reflected(x, n), n, bit);
    OrZero(Top(Reflected(x, n), n, bit));
    ShiftMore(x, bit);
  }

  lemma ReflectEnds(x: bv32, n: bv32, data: bv32, r: bv32)
    requires Width(n) && Reflecting(x, n, n, data, r)
    ensures r == Reflected(x, n)
  {
    hide Reflected, Top, Shifted;
    AllTop(Reflected(x, n), n);
  }

  /** The local function reflect of the driver. */
  method Reflect(value: bv32, nBits: bv32) returns (reflection: bv32)
    requires Width(nBits)
    ensures reflection == Reflected(value, nBits)
  {
    hide Reflected, Reflecting;
    reflection := 0;
    var data := value;
    var bit: bv32 := 0;
    ReflectBegins(value, nBits);
    while bit < nBits
      invariant bit <= nBits
      invariant Reflecting(value, nBits, bit, data, reflection)
      decreases nBits - bit
    {
      ReflectTurns(value, nBits, bit, data, reflection);
      if data & 1 != 0 {
        reflection := reflection | (1 << ((nBits - 1) - bit));
      }
      data := data >> 1;
      bit := bit + 1;
    }
    ReflectEnds(value, nBits, data, reflection);
  }

  // ---- One division step, left and right ----

  /** Is the top bit of an n-bit register set? Bits above it are not looked at. */
  predicate TopBit(n: bv32, x: bv32)
    requires PolySize(n)
  {
    x & (if n == 16 then 0x8000 else 0x8000_0000) != 0
  }

  function Double(x: bv32): bv32 { x << 1 }

  function Divide(n: bv32, poly: bv32, x: bv32): bv32
    requires PolySize(n)
  {
    if TopBit(n, x) then Xor(Double(x), poly) else Double(x)
  }

  function DivideSteps(n: bv32, poly: bv32, x: bv32, k: nat): bv32
    requires PolySize(n)
    decreases k
  {
    if k == 0 then x else DivideSteps(n, poly, Divide(n, poly, x), k - 1)
  }

  lemma DownXor(a: bv32, b: bv32, n: bv32)
    requires Width(n)
    ensures Down(Xor(a, b), n) == Xor(Down(a, n), Down(b, n))
  {
    if n == 8 {
      XorDown24(a, b);
    } else if n == 16 {
      XorDown16(a, b);
    }
  }

  lemma ReversedXor(x: bv32, y: bv32)
    ensures Reverse(Xor(x, y)) == Xor(Reverse(x), Reverse(y))
  {
    hide Reverse;
    ReverseXor(x, y);
  }

  lemma ReflectedXor(x: bv32, y: bv32, n: bv32)
    requires Width(n)
    ensures Reflected(Xor(x, y), n) == Xor(Reflected(x, n), Reflected(y, n))
  {
    hide Reverse, Xor, Down;
    ReversedXor(x, y);
    DownXor(Reverse(x), Reverse(y), n);
  }

  lemma ReflectedDouble(x: bv32, n: bv32)
    requires Width(n)
    ensures Reflected(Double(x), n) == Half(Reflected(x, n))
  {
    hide Reverse;
    ReverseDouble(x);
    HalfDown(Reverse(x));
  }

  lemma ReflectedTop(x: bv32, n: bv32)
    requires PolySize(n)
    ensures TopBit(n, x) <==> Odd(Reflected(x, n))
  {
    hide Reverse;
    ReverseTop(x);
  }

  /** Reflection turns a left step into a right step by the reflected polynomial. For n = 16 this
      holds although the register keeps whatever was shifted out above bit 15. */
  lemma DivideReflects(n: bv32, poly: bv32, x: bv32)
    requires PolySize(n)
    ensures Reflected(Divide(n, poly, x), n) == Step(Reflected(poly, n), Reflected(x, n))
  {
    hide Step, Reflected, TopBit, Xor, Double, Half, Odd;
    StepIs(Reflected(poly, n), Reflected(x, n));
    ReflectedXor(Double(x), poly, n);
    ReflectedDouble(x, n);
    ReflectedTop(x, n);
  }

  lemma {:induction false} DivideStepsReflect(n: bv32, poly: bv32, x: bv32, k: nat)
    requires PolySize(n)
    ensures Reflected(DivideSteps(n, poly, x, k), n) == Steps(Reflected(poly, n), Reflected(x, n), k)
    decreases k
  {
    hide Reflected, Divide, Step;
    if k > 0 {
      DivideReflects(n, poly, x);
      DivideStepsReflect(n, poly, Divide(n, poly, x), k - 1);
    }
  }

  // ---- Eight right steps are one table look-up ----

  lemma XorParts(x: bv32, y: bv32)
    ensures Half(Xor(x, y)) == Xor(Half(x), Half(y))
    ensures Odd(Xor(x, y)) <==> Odd(x) != Odd(y)
  {
    HalfXor(x, y);
    OddXor(x, y);
  }

  lemma XorThree(a: bv32, b: bv32, p: bv32)
    ensures Xor(Xor(a, p), b) == Xor(Xor(a, b), p) == Xor(a, Xor(b, p))
    ensures Xor(Xor(a, p), Xor(b, p)) == Xor(a, b)
  {
    XorMoves(a, b, p);
    XorCancels(a, b, p);
  }

  lemma StepIs(poly: bv32, x: bv32)
    ensures Step(poly, x) == if Odd(x) then Xor(Half(x), poly) else Half(x)
  {
  }

  lemma StepLinear(poly: bv32, x: bv32, y: bv32)
    ensures Step(poly, Xor(x, y)) == Xor(Step(poly, x), Step(poly, y))
  {
    hide Step, Xor, Half, Odd;
    StepIs(poly, x);
    StepIs(poly, y);
    StepIs(poly, Xor(x, y));
    XorParts(x, y);
    XorThree(Half(x), Half(y), poly);
  }

  lemma {:induction false} StepsLinear(poly: bv32, x: bv32, y: bv32, k: nat)
    ensures Steps(poly, Xor(x, y), k) == Xor(Steps(poly, x, k), Steps(poly, y, k))
    decreases k
  {
    hide Step, Xor;
    if k > 0 {
      StepLinear(poly, x, y);
      StepsLinear(poly, Step(poly, x), Step(poly, y), k - 1);
    }
  }

  /** While zeros are shifted out, a step is a plain shift. */
  lemma StepDouble(poly: bv32, y: bv32)
    requires y < 0x8000_0000
    ensures Step(poly, Double(y)) == y
  {
    Doubled(y);
  }

  function Raised(z: bv32): bv32 { z << 8 }

  lemma EightZeros(poly: bv32, z: bv32)
    requires z < 0x100_0000
    ensures Steps(poly, Raised(z), 8) == z
  {
    hide Step, Steps;
    var y1 := Double(z); DoubleMore(z); StepDouble(poly, z);
    var y2 := Double(y1); DoubleMore(y1); StepDouble(poly, y1);
    var y3 := Double(y2); DoubleMore(y2); StepDouble(poly, y2);
    var y4 := Double(y3); DoubleMore(y3); StepDouble(poly, y3);
    var y5 := Double(y4); DoubleMore(y4); StepDouble(poly, y4);
    var y6 := Double(y5); DoubleMore(y5); StepDouble(poly, y5);
    var y7 := Double(y6); DoubleMore(y6); StepDouble(poly, y6);
    var y8 := Double(y7); StepDouble(poly, y7);
    EightDoubles(z);
    EightIsSteps(poly, y8);
  }

  lemma LowAndRest(x: bv32)
    ensures x == Xor(Low(x), Raised(Rest(x)))
    ensures Rest(x) < 0x100_0000
  {
    LowAndHigh(x);
  }

  /** Eight steps of a register are one look-up of its low byte and a shift by a byte. */
  lemma EightSteps(poly: bv32, x: bv32)
    ensures Steps(poly, x, 8) == Xor(Steps(poly, Low(x), 8), Rest(x))
  {
    hide Steps, Xor, Low, Rest, Raised;
    LowAndRest(x);
    StepsLinear(poly, Low(x), Raised(Rest(x)), 8);
    EightZeros(poly, Rest(x));
  }

  // ---- The driver ----

  /** Which table a configuration points to. */
  datatype Table = NoTable | TableOfCrc32 | TableOfCrc16

  function Entry(table: Table, idx: bv8): bv32
    requires table != NoTable
  {
    if table == TableOfCrc32 then Crc32Table(idx) else Crc16Table(idx)
  }

  datatype Config = Config(
    polySize: bv32, poly: bv32, initialVal: bv32, finalVal: bv32,
    reflectData: bool, reflectRemainder: bool, table: Table)

  const CRC32_CONFIG: Config :=
    Config(32, 0x04C1_1DB7, 0xFFFF_FFFF, 0xFFFF_FFFF, true, true, TableOfCrc32)

  const CRC16_CONFIG: Config :=
    Config(16, 0x8005, 0, 0, true, true, TableOfCrc16)

  type Message = seq<bv8>

  function LowByte(x: bv32): bv8 {
    (x & 0xFF) as bv8
  }

  function TableByte(table: Table, crc: bv32, d: bv8): bv32
    requires table != NoTable
  {
    Xor(Entry(table, LowByte(Xor(crc, d as bv32))), Rest(crc))
  }

  /** data << (poly_size - 8). */
  function AlignTo(n: bv32, data: bv32): bv32
    requires PolySize(n)
  {
    if n == 16 then data << 8 else data << 24
  }

  /** A data byte where the bitwise loop adds it: at the top of an n-bit register. */
  function Aligned(cfg: Config, d: bv8): bv32
    requires PolySize(cfg.polySize)
  {
    AlignTo(cfg.polySize, if cfg.reflectData then Reflected(d as bv32, 8) else d as bv32)
  }

  function BitwiseByte(cfg: Config, crc: bv32, d: bv8): bv32
    requires PolySize(cfg.polySize)
  {
    DivideSteps(cfg.polySize, cfg.poly, Xor(crc, Aligned(cfg, d)), 8)
  }

  function OneByte(cfg: Config, crc: bv32, d: bv8): bv32
    requires PolySize(cfg.polySize)
  {
    if cfg.table != NoTable then TableByte(cfg.table, crc, d) else BitwiseByte(cfg, crc, d)
  }

  /** The register after a message. */
  function Register(cfg: Config, crc: bv32, msg: Message): bv32
    requires PolySize(cfg.polySize)
    decreases |msg|
  {
    if msg == [] then crc else Register(cfg, OneByte(cfg, crc, msg[0]), msg[1..])
  }

  function Mask(n: bv32): bv32 {
    if n == 16 then 0xFFFF else 0xFFFF_FFFF
  }

  /** The value returned for a register. */
  function Result(cfg: Config, crc: bv32): bv32
    requires PolySize(cfg.polySize)
  {
    var r := if cfg.table == NoTable && cfg.reflectRemainder then Reflected(crc, cfg.polySize) else crc;
    And(Xor(r, cfg.finalVal), Mask(cfg.polySize))
  }

  /** The CRC of a message: reset, then one call. */
  function Checksum(cfg: Config, msg: Message): bv32
    requires PolySize(cfg.polySize)
  {
    Result(cfg, Register(cfg, cfg.initialVal, msg))
  }

  predicate Shipped(cfg: Config) {
    cfg == CRC32_CONFIG || cfg == CRC16_CONFIG
  }

  lemma ShippedTable(cfg: Config, idx: bv8)
    requires Shipped(cfg)
    ensures PolySize(cfg.polySize) && cfg.table != NoTable && cfg.reflectData && cfg.reflectRemainder
    ensures Entry(cfg.table, idx) == Steps(Reflected(cfg.poly, cfg.polySize), idx as bv32, 8)
  {
    hide Steps, Crc32Table, Crc16Table;
    Crc32TableIs(idx);
    Crc16TableIs(idx);
    assert Reflected(0x04C1_1DB7, 32) == CRC32_REFLECTED;
    assert Reflected(0x8005, 16) == CRC16_REFLECTED;
  }

  lemma AlignedReflects(cfg: Config, d: bv8)
    requires PolySize(cfg.polySize) && cfg.reflectData
    ensures Reflected(Aligned(cfg, d), cfg.polySize) == d as bv32
  {
    hide Reflected, AlignTo;
    Aligned16(d);
    Aligned32(d);
  }

  lemma Aligned16(d: bv8)
    ensures Reflected(AlignTo(16, Reflected(d as bv32, 8)), 16) == d as bv32
  {
    hide Reverse;
    ByteTwice16(d);
  }

  lemma Aligned32(d: bv8)
    ensures Reflected(AlignTo(32, Reflected(d as bv32, 8)), 32) == d as bv32
  {
    hide Reverse;
    ByteTwice32(d);
  }

  lemma ByteParts(c: bv32, d: bv8)
    ensures LowByte(Xor(c, d as bv32)) as bv32 == Low(Xor(c, d as bv32))
    ensures Rest(Xor(c, d as bv32)) == Rest(c)
  {
    ByteXor(c, d);
  }

  /** A table step is the reflection of the eight steps of the bitwise loop. */
  lemma ByteAgrees(cfg: Config, crc: bv32, d: bv8)
    requires Shipped(cfg)
    ensures PolySize(cfg.polySize) && cfg.table != NoTable
    ensures TableByte(cfg.table, Reflected(crc, cfg.polySize), d)
            == Reflected(BitwiseByte(cfg, crc, d), cfg.polySize)
  {
    hide Steps, Reflected, Aligned, DivideSteps, Xor, Entry, LowByte, Low, Rest, Shipped;
    ShippedTable(cfg, 0);
    var n, c := cfg.polySize, Reflected(crc, cfg.polySize);
    var poly := Reflected(cfg.poly, n);
    ShippedTable(cfg, LowByte(Xor(c, d as bv32)));
    ByteParts(c, d);
    EightSteps(poly, Xor(c, d as bv32));
    DivideStepsReflect(n, cfg.poly, Xor(crc, Aligned(cfg, d)), 8);
    ReflectedXor(crc, Aligned(cfg, d), n);
    AlignedReflects(cfg, d);
  }

  lemma {:induction false} RegistersAgree(cfg: Config, crc: bv32, msg: Message)
    requires Shipped(cfg)
    ensures PolySize(cfg.polySize)
    ensures Register(cfg, Reflected(crc, cfg.polySize), msg)
            == Reflected(Register(cfg.(table := NoTable), crc, msg), cfg.polySize)
    decreases |msg|
  {
    hide Reflected, BitwiseByte, TableByte;
    ShippedTable(cfg, 0);
    if msg != [] {
      ByteAgrees(cfg, crc, msg[0]);
      BitwiseIgnoresTable(cfg, crc, msg[0]);
      RegistersAgree(cfg, BitwiseByte(cfg, crc, msg[0]), msg[1..]);
    }
  }

  lemma BitwiseIgnoresTable(cfg: Config, crc: bv32, d: bv8)
    requires PolySize(cfg.polySize)
    ensures BitwiseByte(cfg.(table := NoTable), crc, d) == BitwiseByte(cfg, crc, d)
  {
    hide DivideSteps, Reflected, Xor, AlignTo;
  }

  /** Table form refines bitwise form: for both configurations and every message, the table loop
      returns what the bitwise loop with reflected input and output returns. */
  lemma TableRefinesBitwise(cfg: Config, msg: Message)
    requires Shipped(cfg)
    ensures PolySize(cfg.polySize)
    ensures Checksum(cfg, msg) == Checksum(cfg.(table := NoTable), msg)
  {
    hide Register;
    ShippedTable(cfg, 0);
    assert Reflected(cfg.initialVal, cfg.polySize) == cfg.initialVal;
    RegistersAgree(cfg, cfg.initialVal, msg);
  }

  /** One call on a whole message and several calls on its parts, after one reset, agree. */
  lemma {:induction false} SplitMessage(cfg: Config, crc: bv32, a: Message, b: Message)
    requires PolySize(cfg.polySize)
    ensures Register(cfg, crc, a + b) == Register(cfg, Register(cfg, crc, a), b)
    decreases |a|
  {
    hide OneByte;
    if a == [] {
      assert a + b == b;
    } else {
      assert (a + b)[1..] == a[1..] + b;
      SplitMessage(cfg, OneByte(cfg, crc, a[0]), a[1..], b);
    }
  }

  // ---- RFC 1952, section 8 ----

  /** An entry of the table that the sample code of RFC 1952 builds. */
  function RfcEntry(n: bv32): bv32 {
    Steps(0xEDB8_8320, n, 8)
  }

  function RfcUpdate(c: bv32, msg: Message): bv32
    decreases |msg|
  {
    if msg == [] then c
    else RfcUpdate(Xor(RfcEntry(Low(Xor(c, msg[0] as bv32))), Rest(c)), msg[1..])
  }

  /** The CRC of section 8 of RFC 1952: the register is complemented before and after. */
  function RfcCrc(msg: Message): bv32 {
    Xor(RfcUpdate(Xor(0, 0xFFFF_FFFF), msg), 0xFFFF_FFFF)
  }

  lemma {:induction false} RegisterIsRfc(c: bv32, msg: Message)
    ensures Register(CRC32_CONFIG, c, msg) == RfcUpdate(c, msg)
    decreases |msg|
  {
    hide Steps, Xor, Low, Rest, LowByte, Crc32Table;
    if msg != [] {
      var x := Xor(c, msg[0] as bv32);
      Crc32TableIs(LowByte(x));
      LowByteIs(x);
      RegisterIsRfc(OneByte(CRC32_CONFIG, c, msg[0]), msg[1..]);
    }
  }

  lemma LowByteIs(x: bv32)
    ensures LowByte(x) as bv32 == Low(x)
  {
  }

  /** The CRC-32 of the driver, in either form, is that of IEEE 802.3 as RFC 1952 computes it. */
  lemma Crc32IsRfc1952(msg: Message)
    ensures Checksum(CRC32_CONFIG, msg) == RfcCrc(msg) == Checksum(CRC32_CONFIG.(table := NoTable), msg)
  {
    hide Register, RfcUpdate;
    RegisterIsRfc(0xFFFF_FFFF, msg);
    TableRefinesBitwise(CRC32_CONFIG, msg);
    StartValues(RfcUpdate(0xFFFF_FFFF, msg));
  }

  lemma StartValues(r: bv32)
    ensures Xor(0, 0xFFFF_FFFF) == 0xFFFF_FFFF && And(Xor(r, 0xFFFF_FFFF), Mask(32)) == Xor(r, 0xFFFF_FFFF)
  {
  }

  // ---- The 16-bit configuration ----

  /** The serial form of the 16-bit CRC with polynomial x^16 + x^15 + x^2 + 1: eight right-shifting
      steps a byte, low bit first. */
  function Serial16(c: bv32, msg: Message): bv32
    decreases |msg|
  {
    if msg == [] then c else Serial16(Steps(0xA001, Xor(c, msg[0] as bv32), 8), msg[1..])
  }

  lemma {:induction false} RegisterIsSerial16(c: bv32, msg: Message)
    ensures Register(CRC16_CONFIG, c, msg) == Serial16(c, msg)
    decreases |msg|
  {
    hide Steps, Xor, Low, Rest, LowByte, Crc16Table;
    if msg != [] {
      var x := Xor(c, msg[0] as bv32);
      Crc16TableIs(LowByte(x));
      LowByteIs(x);
      EightSteps(0xA001, x);
      ByteParts(c, msg[0]);
      RegisterIsSerial16(OneByte(CRC16_CONFIG, c, msg[0]), msg[1..]);
    }
  }

  predicate Fits16(c: bv32) { c <= 0xFFFF }

  lemma StepFits16(x: bv32)
    requires Fits16(x)
    ensures Fits16(Step(0xA001, x))
  {
  }

  lemma {:induction false} StepsFit16(x: bv32, k: nat)
    requires Fits16(x)
    ensures Fits16(Steps(0xA001, x, k))
    decreases k
  {
    hide Step, Fits16;
    if k > 0 {
      StepFits16(x);
      StepsFit16(Step(0xA001, x), k - 1);
    }
  }

  lemma ByteFits16(c: bv32, d: bv8)
    requires Fits16(c)
    ensures Fits16(Xor(c, d as bv32))
  {
  }

  lemma {:induction false} SerialFits16(c: bv32, msg: Message)
    requires Fits16(c)
    ensures Fits16(Serial16(c, msg))
    decreases |msg|
  {
    hide Steps, Xor, Fits16;
    if msg != [] {
      ByteFits16(c, msg[0]);
      StepsFit16(Xor(c, msg[0] as bv32), 8);
      SerialFits16(Steps(0xA001, Xor(c, msg[0] as bv32), 8), msg[1..]);
    }
  }

  lemma Masked16(c: bv32)
    requires Fits16(c)
    ensures And(Xor(c, 0), Mask(16)) == c
  {
  }

  /** The CRC-16 of the driver, in either form: start at 0, no final complement. */
  lemma Crc16IsSerial(msg: Message)
    ensures Checksum(CRC16_CONFIG, msg) == Serial16(0, msg) == Checksum(CRC16_CONFIG.(table := NoTable), msg)
  {
    hide Register, Serial16, Xor, And;
    RegisterIsSerial16(0, msg);
    TableRefinesBitwise(CRC16_CONFIG, msg);
    SerialFits16(0, msg);
    Masked16(Serial16(0, msg));
  }

  // ---- Configurations without reflection ----

  function ByteMirrored(d: bv8): bv8 {
    LowByte(Reflected(d as bv32, 8))
  }

  function BytesMirrored(msg: Message): Message {
    seq(|msg|, i requires 0 <= i < |msg| => ByteMirrored(msg[i]))
  }

  lemma ByteMirroredIs(d: bv8)
    ensures ByteMirrored(d) as bv32 == Reflected(d as bv32, 8)
  {
    hide Reverse;
    var x := Reverse(d as bv32);
    TopByteFits(x);
  }

  lemma TopByteFits(x: bv32)
    ensures LowByte(x >> 24) as bv32 == x >> 24
  {
  }

  lemma {:induction false} MirroredRegister(cfg: Config, crc: bv32, msg: Message)
    requires PolySize(cfg.polySize) && cfg.table == NoTable && cfg.reflectData
    ensures Register(cfg.(reflectData := false), crc, BytesMirrored(msg)) == Register(cfg, crc, msg)
    decreases |msg|
  {
    hide DivideSteps, Reflected, Xor, AlignTo, ByteMirrored;
    if msg != [] {
      ByteMirroredIs(msg[0]);
      assert BytesMirrored(msg)[1..] == BytesMirrored(msg[1..]);
      MirroredRegister(cfg, OneByte(cfg, crc, msg[0]), msg[1..]);
    }
  }

  /** Reflecting the input is the same as reflecting each byte of the message. */
  lemma MirroredInput(cfg: Config, msg: Message)
    requires PolySize(cfg.polySize) && cfg.table == NoTable && cfg.reflectData
    ensures Checksum(cfg.(reflectData := false), BytesMirrored(msg)) == Checksum(cfg, msg)
  {
    hide Register;
    MirroredRegister(cfg, cfg.initialVal, msg);
  }

  lemma {:induction false} RegisterIgnores(cfg: Config, f: bv32, crc: bv32, msg: Message)
    requires PolySize(cfg.polySize) && cfg.table == NoTable
    ensures Register(cfg.(reflectRemainder := false, finalVal := f), crc, msg) == Register(cfg, crc, msg)
    decreases |msg|
  {
    hide DivideSteps, Reflected, Xor, AlignTo;
    if msg != [] {
      RegisterIgnores(cfg, f, OneByte(cfg, crc, msg[0]), msg[1..]);
    }
  }

  lemma ReflectedTwice(x: bv32, n: bv32)
    requires PolySize(n)
    ensures Reflected(Reflected(x, n), n) == And(x, Mask(n))
  {
    hide Reverse;
    ReverseTwice(x);
    MaskAll(x);
  }

  function HighHalf(x: bv32): bv32 { (x >> 16) << 16 }

  lemma HighHalfIs(x: bv32)
    ensures x == Xor(And(x, Mask(16)), HighHalf(x))
    ensures Xor(x, 0) == x
  {
    HalfWords(x);
  }

  lemma HighHalfLost(x: bv32)
    ensures Reflected(HighHalf(x), 16) == 0
  {
    hide Reverse;
    ReverseHigh(x >> 16);
  }

  /** Reflecting takes and gives n bits. */
  lemma ReflectedMasked(x: bv32, n: bv32)
    requires PolySize(n)
    ensures Reflected(And(x, Mask(n)), n) == Reflected(x, n)
  {
    if n == 16 {
      hide Reflected, And, Xor, Mask, HighHalf;
      HighHalfIs(x);
      HighHalfLost(x);
      ReflectedXor(And(x, Mask(16)), HighHalf(x), 16);
      HighHalfIs(Reflected(And(x, Mask(16)), 16));
    } else {
      MaskAll(x);
    }
  }

  lemma ReflectedFits(x: bv32, n: bv32)
    requires PolySize(n)
    ensures And(Reflected(x, n), Mask(n)) == Reflected(x, n)
  {
    hide Reverse;
    MaskAll(Reverse(x));
  }

  lemma MaskXor(a: bv32, f: bv32, m: bv32)
    ensures And(Xor(a, f), m) == Xor(And(a, m), And(f, m))
  {
  }

  lemma MaskedReflection(c: bv32, f: bv32, n: bv32)
    requires PolySize(n)
    ensures And(Xor(Reflected(c, n), f), Mask(n)) == Reflected(And(Xor(c, Reflected(f, n)), Mask(n)), n)
  {
    hide Reflected, Xor, And, Mask;
    MaskXor(Reflected(c, n), f, Mask(n));
    ReflectedFits(c, n);
    ReflectedMasked(Xor(c, Reflected(f, n)), n);
    ReflectedXor(c, Reflected(f, n), n);
    ReflectedTwice(f, n);
  }

  /** Without a table, reflecting the output is the same as reflecting the final value and the checksum. */
  lemma MirroredOutput(cfg: Config, msg: Message)
    requires PolySize(cfg.polySize) && cfg.table == NoTable && cfg.reflectRemainder
    ensures var n := cfg.polySize;
            var plain := cfg.(reflectRemainder := false, finalVal := Reflected(cfg.finalVal, n));
            Checksum(cfg, msg) == Reflected(Checksum(plain, msg), n)
  {
    hide Register, Reflected, Xor, And, OneByte;
    var n, f := cfg.polySize, cfg.finalVal;
    RegisterIgnores(cfg, Reflected(f, n), cfg.initialVal, msg);
    MaskedReflection(Register(cfg, cfg.initialVal, msg), f, n);
  }
}
