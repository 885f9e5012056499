/** The code as polynomial division over GF(2), and the bursts it detects. */
module PecPolynomial {
  import opened Pec

  type Bits = seq<bool>

  /** The bits of a byte, most significant first. */
  function Bits8(x: bv8): Bits {
    [Bit(x, 128), Bit(x, 64), Bit(x, 32), Bit(x, 16), Bit(x, 8), Bit(x, 4), Bit(x, 2), Bit(x, 1)]
  }

  function MessageBits(msg: Message): Bits
    decreases |msg|
  {
    if msg == [] then [] else Bits8(msg[0]) + MessageBits(msg[1..])
  }

  /** One message bit enters at the top of the register, which then takes a step. */
  function BitStep(s: bv8, b: bool): bv8 {
    Step(s ^ (if b then 128 else 0))
  }

  function PecBits(s: bv8, bits: Bits): bv8
    decreases |bits|
  {
    if bits == [] then s else PecBits(BitStep(s, bits[0]), bits[1..])
  }

  lemma {:induction false} PecBitsSplit(s: bv8, a: Bits, b: Bits)
    ensures PecBits(s, a + b) == PecBits(PecBits(s, a), b)
    decreases |a|
  {
    hide BitStep;
    if a == [] {
      assert a + b == b;
    } else {
      assert (a + b)[1..] == a[1..] + b;
      PecBitsSplit(BitStep(s, a[0]), a[1..], b);
    }
  }

  // ---- A byte at a time is a bit at a time ----

  function Double(y: bv8): bv8 { y << 1 }

  function Xor(a: bv8, b: bv8): bv8 { a ^ b }

  function TopBits(y: bv8, k: nat): Bits
    decreases k
  {
    if k == 0 then [] else [Bit(y, 128)] + TopBits(Double(y), k - 1)
  }

  function Up(y: bv8, k: nat): bv8
    decreases k
  {
    if k == 0 then y else Up(Double(y), k - 1)
  }

  lemma StepTop(y: bv8)
    ensures Step(y) == if Bit(y, 128) then Xor(Double(y), PEC_POLY) else Double(y)
    ensures Step(128) == PEC_POLY
  {
  }

  lemma XorTop(a: bv8, b: bv8)
    ensures Bit(Xor(a, b), 128) == (Bit(a, 128) != Bit(b, 128))
  {
  }

  lemma XorDouble(a: bv8, b: bv8)
    ensures Double(Xor(a, b)) == Xor(Double(a), Double(b))
  {
  }

  lemma XorMoves(a: bv8, b: bv8, p: bv8)
    ensures Xor(Xor(a, p), b) == Xor(Xor(a, b), p) == Xor(a, Xor(b, p))
  {
  }

  lemma XorCancels(a: bv8, b: bv8, p: bv8)
    ensures Xor(Xor(a, p), Xor(b, p)) == Xor(a, b)
  {
  }

  lemma XorNothing(a: bv8)
    ensures Xor(a, 0) == a
  {
  }

  /** The step is linear over GF(2). */
  lemma StepLinear(a: bv8, b: bv8)
    ensures Step(Xor(a, b)) == Xor(Step(a), Step(b))
  {
    hide Step, Xor, Double, Bit;
    StepTop(a);
    StepTop(b);
    StepTop(Xor(a, b));
    XorTop(a, b);
    XorDouble(a, b);
    XorMoves(Double(a), Double(b), PEC_POLY);
    XorCancels(Double(a), Double(b), PEC_POLY);
  }

  lemma BitStepIs(s: bv8, b: bool)
    ensures BitStep(s, b) == Step(Xor(s, if b then 128 else 0))
  {
    hide Step;
  }

  /** Of what is added to the register now, the top bit acts now and the rest one step later. */
  lemma StepMoves(s: bv8, y: bv8)
    ensures Step(Xor(s, y)) == Xor(BitStep(s, Bit(y, 128)), Double(y))
  {
    hide Step, Xor, Double, Bit, BitStep;
    BitStepIs(s, Bit(y, 128));
    StepLinear(s, y);
    StepTop(y);
    StepLinear(s, 128);
    XorNothing(s);
    XorMoves(Step(s), Double(y), PEC_POLY);
  }

  lemma {:induction false} StepsAreBits(s: bv8, y: bv8, k: nat)
    ensures Steps(Xor(s, y), k) == Xor(PecBits(s, TopBits(y, k)), Up(y, k))
    decreases k
  {
    hide Step, BitStep, Xor, Double, Bit;
    if k > 0 {
      StepMoves(s, y);
      var bits := TopBits(y, k);
      assert bits[0] == Bit(y, 128) && bits[1..] == TopBits(Double(y), k - 1);
      StepsAreBits(BitStep(s, Bit(y, 128)), Double(y), k - 1);
    }
  }

  lemma DoubleBits(y: bv8)
    ensures Bit(Double(y), 128) == Bit(y, 64) && Bit(Double(y), 64) == Bit(y, 32) && Bit(Double(y), 32) == Bit(y, 16)
    ensures Bit(Double(y), 16) == Bit(y, 8) && Bit(Double(y), 8) == Bit(y, 4) && Bit(Double(y), 4) == Bit(y, 2)
    ensures Bit(Double(y), 2) == Bit(y, 1) && !Bit(Double(y), 1)
  {
  }

  lemma NoBits(y: bv8)
    requires !Bit(y, 128) && !Bit(y, 64) && !Bit(y, 32) && !Bit(y, 16)
    requires !Bit(y, 8) && !Bit(y, 4) && !Bit(y, 2) && !Bit(y, 1)
    ensures y == 0
  {
  }

  lemma NextTop(y: bv8, k: nat)
    requires k > 0
    ensures TopBits(y, k) == [Bit(y, 128)] + TopBits(Double(y), k - 1) && Up(y, k) == Up(Double(y), k - 1)
    ensures TopBits(y, 0) == [] && Up(y, 0) == y
  {
  }

  function Four(y: bv8): bv8 {
    Double(Double(Double(Double(y))))
  }

  lemma FourBits(y: bv8)
    ensures Bit(Four(y), 128) == Bit(y, 8) && Bit(Four(y), 64) == Bit(y, 4)
    ensures Bit(Four(y), 32) == Bit(y, 2) && Bit(Four(y), 16) == Bit(y, 1)
    ensures !Bit(Four(y), 8) && !Bit(Four(y), 4) && !Bit(Four(y), 2) && !Bit(Four(y), 1)
  {
    hide Bit, Double;
    DoubleBits(y);
    DoubleBits(Double(y));
    DoubleBits(Double(Double(y)));
    DoubleBits(Double(Double(Double(y))));
  }

  function TopFour(y: bv8): Bits {
    [Bit(y, 128), Bit(y, 64), Bit(y, 32), Bit(y, 16)]
  }

  lemma FourTops(y: bv8, k: nat)
    ensures TopBits(y, k + 4) == TopFour(y) + TopBits(Four(y), k)
    ensures Up(y, k + 4) == Up(Four(y), k)
  {
    hide Bit, Double, TopBits, Up;
    var y1 := Double(y);
    var y2 := Double(y1);
    var y3 := Double(y2);
    NextTop(y, k + 4);
    NextTop(y1, k + 3);
    NextTop(y2, k + 2);
    NextTop(y3, k + 1);
    DoubleBits(y);
    DoubleBits(y1);
    DoubleBits(y2);
  }

  lemma TwoFours(d: bv8)
    ensures TopFour(d) + TopFour(Four(d)) == Bits8(d) && Four(Four(d)) == 0
  {
    hide Bit, Four;
    FourBits(d);
    FourBits(Four(d));
    NoBits(Four(Four(d)));
  }

  lemma EightTopBits(d: bv8)
    ensures TopBits(d, 8) == Bits8(d) && Up(d, 8) == 0
  {
    hide Bit, Four, TopBits, Up, TopFour, Bits8;
    FourTops(d, 4);
    FourTops(Four(d), 0);
    TwoFours(d);
    NextTop(Four(Four(d)), 1);
    assert TopFour(Four(d)) + [] == TopFour(Four(d));
  }

  lemma ByteIsBits(s: bv8, d: bv8)
    ensures Steps(s ^ d, 8) == PecBits(s, Bits8(d))
  {
    hide Steps, PecBits, Bits8, TopBits, Up;
    StepsAreBits(s, d, 8);
    EightTopBits(d);
    XorNothing(PecBits(s, Bits8(d)));
  }

  lemma {:induction false} PecIsBits(r: bv8, msg: Message)
    ensures PecFrom(r, msg) == PecBits(r, MessageBits(msg))
    decreases |msg|
  {
    hide Steps, Bits8, PecBits;
    if msg == [] {
      EmptyBits(r);
    } else {
      ByteIsBits(r, msg[0]);
      PecIsBits(Steps(r ^ msg[0], 8), msg[1..]);
      PecBitsSplit(r, Bits8(msg[0]), MessageBits(msg[1..]));
    }
  }

  lemma EmptyBits(r: bv8)
    ensures PecBits(r, []) == r
  {
  }

  // ---- Bursts ----

  function Pack(a: bool, b: bool, c: bool, d: bool, e: bool, f: bool, g: bool, h: bool): bv8 {
    (if a then 128 else 0) | (if b then 64 else 0) | (if c then 32 else 0) | (if d then 16 else 0)
    | (if e then 8 else 0) | (if f then 4 else 0) | (if g then 2 else 0) | (if h then 1 else 0)
  }

  lemma PackBits(a: bool, b: bool, c: bool, d: bool, e: bool, f: bool, g: bool, h: bool)
    ensures var x := Pack(a, b, c, d, e, f, g, h);
            && Bit(x, 128) == a && Bit(x, 64) == b && Bit(x, 32) == c && Bit(x, 16) == d
            && Bit(x, 8) == e && Bit(x, 4) == f && Bit(x, 2) == g && Bit(x, 1) == h
  {
  }

  lemma {:induction false} BitsInjective(a: bv8, b: bv8, bits: Bits)
    ensures PecBits(a, bits) == PecBits(b, bits) <==> a == b
    decreases |bits|
  {
    hide Step;
    if bits != [] {
      var x: bv8 := if bits[0] then 128 else 0;
      XorSame(x, a, b);
      StepsInjective(a ^ x, b ^ x, 1);
      assert Steps(a ^ x, 1) == Steps(Step(a ^ x), 0) && Steps(b ^ x, 1) == Steps(Step(b ^ x), 0);
      BitsInjective(BitStep(a, bits[0]), BitStep(b, bits[0]), bits[1..]);
    }
  }

  /** Every window of eight bits is a byte. */
  lemma WindowIsByte(w: Bits) returns (d: bv8)
    requires |w| == 8
    ensures Bits8(d) == w
  {
    hide Bit, Pack;
    d := Pack(w[0], w[1], w[2], w[3], w[4], w[5], w[6], w[7]);
    PackBits(w[0], w[1], w[2], w[3], w[4], w[5], w[6], w[7]);
  }

  lemma WindowsDiffer(s: bv8, v: Bits, w: Bits)
    requires |v| == |w| == 8 && v != w
    ensures PecBits(s, v) != PecBits(s, w)
  {
    hide Steps, PecBits, Bits8;
    var a := WindowIsByte(v);
    var b := WindowIsByte(w);
    ByteIsBits(s, a);
    ByteIsBits(s, b);
    XorSame(s, a, b);
    StepsInjective(s ^ a, s ^ b, 8);
  }

  /** Bit strings that agree outside a window of eight bits, and differ, have different codes. */
  lemma BurstChangesCode(s: bv8, u: Bits, v: Bits, i: nat)
    requires |u| == |v| && i + 8 <= |u| && u != v && u[..i] == v[..i] && u[i + 8..] == v[i + 8..]
    ensures PecBits(s, u) != PecBits(s, v)
  {
    hide PecBits;
    var a, b := u[i..i + 8], v[i..i + 8];
    assert u == u[..i] + a + u[i + 8..] && v == v[..i] + b + v[i + 8..];
    PecBitsSplit(s, u[..i], a);
    PecBitsSplit(s, v[..i], b);
    PecBitsSplit(s, u[..i] + a, u[i + 8..]);
    PecBitsSplit(s, v[..i] + b, v[i + 8..]);
    WindowsDiffer(PecBits(s, u[..i]), a, b);
    BitsInjective(PecBits(s, u[..i] + a), PecBits(s, v[..i] + b), u[i + 8..]);
  }

  /** Every burst of at most eight bits, anywhere in data and code, is detected. */
  lemma BurstErrorsDetected(msg: Message, received: Message, p: bv8, i: nat)
    requires |received| == |msg|
    requires var u, v := MessageBits(msg + [PecOf(msg)]), MessageBits(received + [p]);
             |u| == |v| && i + 8 <= |u| && u != v && u[..i] == v[..i] && u[i + 8..] == v[i + 8..]
    ensures p != PecOf(received)
  {
    hide PecFrom, PecBits, MessageBits;
    AppendedCodeGivesZero(msg, PecOf(msg));
    AppendedCodeGivesZero(received, p);
    PecIsBits(PEC_SEED, msg + [PecOf(msg)]);
    PecIsBits(PEC_SEED, received + [p]);
    BurstChangesCode(PEC_SEED, MessageBits(msg + [PecOf(msg)]), MessageBits(received + [p]), i);
  }

  // ---- Polynomials over GF(2) ----

  /** Coefficients, that of the highest power first. */
  type Poly = Bits

  /** The coefficient of x^i. */
  function Coef(p: Poly, i: nat): bool {
    if i < |p| then p[|p| - 1 - i] else false
  }

  ghost predicate Same(p: Poly, q: Poly) {
    forall i: nat :: Coef(p, i) == Coef(q, i)
  }

  function Sum(p: Poly, q: Poly): (r: Poly)
    ensures forall i: nat :: Coef(r, i) == (Coef(p, i) != Coef(q, i))
  {
    var n := if |p| > |q| then |p| else |q|;
    seq(n, k requires 0 <= k < n => Coef(p, n - 1 - k) != Coef(q, n - 1 - k))
  }

  /** Times x. */
  function X(p: Poly): (r: Poly)
    ensures forall i: nat :: Coef(r, i) == (i > 0 && Coef(p, i - 1))
  {
    p + [false]
  }

  function Mul(p: Poly, q: Poly): Poly
    decreases |p|
  {
    if p == [] then [] else Sum(X(Mul(p[..|p| - 1], q)), if p[|p| - 1] then q else [])
  }

  function Zeros(n: nat): Poly {
    seq(n, _ => false)
  }

  /** x^8 + x^2 + x + 1. */
  const GENERATOR: Poly := [true, false, false, false, false, false, true, true, true]

  /** The seed 0x41. */
  const SEED: Poly := [false, true, false, false, false, false, false, true]

  /** 0x41 * x^n + M(x) * x^8, for a message of n bits with polynomial M. */
  function Dividend(bits: Bits): Poly {
    Sum(SEED + Zeros(|bits|), bits + Zeros(8))
  }

  function Quotient(bits: Bits): Poly
    decreases |bits|
  {
    if bits == [] then []
    else
      var n := |bits| - 1;
      Quotient(bits[..n]) + [Bit(PecBits(PEC_SEED, bits[..n]), 128) != bits[n]]
  }

  lemma MulLast(p: Poly, q: Poly, i: nat)
    requires p != []
    ensures Coef(Mul(p, q), i) ==
            ((i > 0 && Coef(Mul(p[..|p| - 1], q), i - 1)) != (p[|p| - 1] && Coef(q, i)))
  {
  }

  /** Appending a coefficient to the second factor. */
  lemma {:induction false} MulAppend(p: Poly, q: Poly, t: bool, i: nat)
    ensures Coef(Mul(p, q + [t]), i) == ((i > 0 && Coef(Mul(p, q), i - 1)) != (t && Coef(p, i)))
    decreases |p|
  {
    hide Mul;
    if p == [] {
      EmptyMul(q);
      EmptyMul(q + [t]);
    } else {
      MulLast(p, q + [t], i);
      if i > 0 {
        MulLast(p, q, i - 1);
        MulAppend(p[..|p| - 1], q, t, i - 1);
      }
    }
  }

  lemma EmptyMul(q: Poly)
    ensures Mul([], q) == []
  {
  }

  /** One more bit in the dividend. */
  lemma DividendNext(bits: Bits, b: bool, i: nat)
    ensures Coef(Dividend(bits + [b]), i) == ((i > 0 && Coef(Dividend(bits), i - 1)) != (b && i == 8))
  {
    var k := |bits|;
    assert Coef(SEED + Zeros(k + 1), i) == (i > 0 && Coef(SEED + Zeros(k), i - 1));
    assert Coef(bits + [b] + Zeros(8), i) == ((i > 0 && Coef(bits + Zeros(8), i - 1)) != (b && i == 8));
  }

  /** One more bit in the remainder. */
  lemma RemainderNext(s: bv8, b: bool, i: nat)
    ensures var t := Bit(s, 128) != b;
            Coef(Bits8(BitStep(s, b)), i) ==
              (((i > 0 && Coef(Bits8(s), i - 1)) != (b && i == 8)) != (t && Coef(GENERATOR, i)))
  {
    hide Step, Bit, Bits8, Coef, GENERATOR;
    var u := s ^ (if b then 128 else 0);
    TopFlipped(s, b);
    assert BitStep(s, b) == Step(u);
    RemainderShifts(s, u, b, i);
  }

  ghost predicate SameBelowTop(s: bv8, u: bv8) {
    && Bit(u, 64) == Bit(s, 64) && Bit(u, 32) == Bit(s, 32) && Bit(u, 16) == Bit(s, 16)
    && Bit(u, 8) == Bit(s, 8) && Bit(u, 4) == Bit(s, 4) && Bit(u, 2) == Bit(s, 2) && Bit(u, 1) == Bit(s, 1)
  }

  lemma RemainderShifts(s: bv8, u: bv8, b: bool, i: nat)
    requires Bit(u, 128) == (Bit(s, 128) != b) && SameBelowTop(s, u)
    ensures Coef(Bits8(Step(u)), i) ==
              (((i > 0 && Coef(Bits8(s), i - 1)) != (b && i == 8)) != (Bit(u, 128) && Coef(GENERATOR, i)))
  {
    hide Step, Bit, Bits8, Coef, GENERATOR;
    StepBits(u);
    ByteCoef(Step(u), i);
    GeneratorCoef(i);
    if i > 0 {
      ByteCoef(s, i - 1);
    }
  }

  lemma ByteCoef(x: bv8, i: nat)
    ensures Coef(Bits8(x), i) ==
            (if i == 0 then Bit(x, 1) else if i == 1 then Bit(x, 2) else if i == 2 then Bit(x, 4)
             else if i == 3 then Bit(x, 8) else if i == 4 then Bit(x, 16) else if i == 5 then Bit(x, 32)
             else if i == 6 then Bit(x, 64) else if i == 7 then Bit(x, 128) else false)
  {
    hide Bit;
  }

  lemma GeneratorCoef(i: nat)
    ensures Coef(GENERATOR, i) == (i == 0 || i == 1 || i == 2 || i == 8)
  {
  }

  lemma TopFlipped(s: bv8, b: bool)
    ensures var u := s ^ (if b then 128 else 0);
            Bit(u, 128) == (Bit(s, 128) != b) && SameBelowTop(s, u)
  {
  }

  lemma {:induction false} DivisionAt(bits: Bits, i: nat)
    ensures Coef(Dividend(bits), i) ==
            (Coef(Mul(GENERATOR, Quotient(bits)), i) != Coef(Bits8(PecBits(PEC_SEED, bits)), i))
    decreases |bits|
  {
    hide Dividend, Mul, Bits8, BitStep, Bit;
    if bits == [] {
      DivisionStarts(i);
    } else {
      var n := |bits| - 1;
      var prev, b := bits[..n], bits[n];
      var s := PecBits(PEC_SEED, prev);
      assert bits == prev + [b];
      DividendNext(prev, b, i);
      RemainderNext(s, b, i);
      MulAppend(GENERATOR, Quotient(prev), Bit(s, 128) != b, i);
      PecBitsSplit(PEC_SEED, prev, [b]);
      assert PecBits(s, [b]) == PecBits(BitStep(s, b), []);
      if i > 0 {
        DivisionAt(prev, i - 1);
      }
    }
  }

  lemma DivisionStarts(i: nat)
    ensures Coef(Dividend([]), i) == (Coef(Mul(GENERATOR, []), i) != Coef(Bits8(PEC_SEED), i))
  {
    hide Mul, Bits8;
    NoQuotient(GENERATOR, i);
    SeedBits();
  }

  lemma SeedBits()
    ensures Bits8(PEC_SEED) == SEED
  {
  }

  lemma {:induction false} NoQuotient(p: Poly, i: nat)
    ensures !Coef(Mul(p, []), i)
    decreases |p|
  {
    hide Mul;
    if p == [] {
      EmptyMul([]);
    } else {
      MulLast(p, [], i);
      if i > 0 {
        NoQuotient(p[..|p| - 1], i - 1);
      }
    }
  }

  /** d = q * (x^8 + x^2 + x + 1) + r. */
  ghost predicate Divides(d: Poly, q: Poly, r: Poly) {
    Same(d, Sum(Mul(GENERATOR, q), r))
  }

  /** pec8_calc is polynomial division: the dividend 0x41 * x^(8n) + M(x) * x^8 is a multiple of
      the generator plus the code. */
  lemma PecIsARemainder(msg: Message)
    ensures exists q :: Divides(Dividend(MessageBits(msg)), q, Bits8(PecOf(msg)))
  {
    hide Dividend, Mul, Bits8, PecBits, PecFrom;
    var bits := MessageBits(msg);
    PecIsBits(PEC_SEED, msg);
    forall i: nat
      ensures Coef(Dividend(bits), i) == Coef(Sum(Mul(GENERATOR, Quotient(bits)), Bits8(PecOf(msg))), i)
    {
      DivisionAt(bits, i);
    }
    assert Divides(Dividend(bits), Quotient(bits), Bits8(PecOf(msg)));
  }

  // ---- The remainder is unique ----

  function Back(q: Poly, i: nat, k: nat): bool {
    i >= k && Coef(q, i - k)
  }

  lemma MulFrom(p: Poly, q: Poly, c: bool, i: nat)
    ensures Coef(Mul(p + [c], q), i) == ((i > 0 && Coef(Mul(p, q), i - 1)) != (c && Coef(q, i)))
  {
    hide Mul;
    MulLast(p + [c], q, i);
    assert (p + [c])[..|p|] == p;
  }

  /** Times x^k, when k zero coefficients follow. */
  lemma {:induction false} MulZeros(p: Poly, q: Poly, k: nat, i: nat)
    ensures Coef(Mul(p + Zeros(k), q), i) == (i >= k && Coef(Mul(p, q), i - k))
    decreases k
  {
    hide Mul;
    if k == 0 {
      assert p + Zeros(0) == p;
    } else {
      assert p + Zeros(k) == p + Zeros(k - 1) + [false];
      MulFrom(p + Zeros(k - 1), q, false, i);
      if i > 0 {
        MulZeros(p, q, k - 1, i - 1);
      }
    }
  }

  lemma MulOne(q: Poly, i: nat)
    ensures Coef(Mul([true], q), i) == Coef(q, i)
  {
    hide Mul;
    MulFrom([], q, true, i);
    assert [] + [true] == [true];
    EmptyMul(q);
  }

  /** A multiple of the generator, coefficient by coefficient. */
  lemma MulGenerator(q: Poly, i: nat)
    ensures Coef(Mul(GENERATOR, q), i) == (Back(q, i, 8) != (Back(q, i, 2) != (Back(q, i, 1) != Coef(q, i))))
  {
    hide Mul, GENERATOR, Coef;
    var p6 := [true] + Zeros(5);
    var p7 := p6 + [true];
    var p8 := p7 + [true];
    GeneratorParts();
    MulFrom(p8, q, true, i);
    if i >= 1 {
      MulFrom(p7, q, true, i - 1);
    }
    if i >= 2 {
      MulFrom(p6, q, true, i - 2);
    }
    if i >= 3 {
      MulZeros([true], q, 5, i - 3);
    }
    if i >= 8 {
      MulOne(q, i - 8);
    }
  }

  lemma GeneratorParts()
    ensures GENERATOR == [true] + Zeros(5) + [true] + [true] + [true]
  {
  }

  /** Two multiples of the generator that agree from x^8 on have the same quotient. */
  lemma {:induction false} QuotientsAgree(q: Poly, q': Poly, j: nat, n: nat)
    requires forall i: nat :: i >= 8 ==> Coef(Mul(GENERATOR, q), i) == Coef(Mul(GENERATOR, q'), i)
    requires j <= n && n >= |q| && n >= |q'|
    ensures forall k: nat :: k >= j ==> Coef(q, k) == Coef(q', k)
    decreases n - j
  {
    hide Mul, GENERATOR;
    if j < n {
      QuotientsAgree(q, q', j + 1, n);
      MulGenerator(q, j + 8);
      MulGenerator(q', j + 8);
      assert Coef(Mul(GENERATOR, q), j + 8) == Coef(Mul(GENERATOR, q'), j + 8);
      assert Coef(q, j + 6) == Coef(q', j + 6) && Coef(q, j + 7) == Coef(q', j + 7);
      assert Coef(q, j + 8) == Coef(q', j + 8);
    }
  }

  lemma HighPart(d: Poly, q: Poly, r: Poly, q': Poly, r': Poly, i: nat)
    requires |r| == |r'| == 8 && Divides(d, q, r) && Divides(d, q', r') && i >= 8
    ensures Coef(Mul(GENERATOR, q), i) == Coef(Mul(GENERATOR, q'), i)
  {
    hide Mul, GENERATOR;
    BothDivide(d, q, r, q', r', i);
  }

  lemma SameQuotient(d: Poly, q: Poly, r: Poly, q': Poly, r': Poly)
    requires |r| == |r'| == 8 && Divides(d, q, r) && Divides(d, q', r')
    ensures Same(q, q')
  {
    hide Mul, GENERATOR, Divides, Coef;
    forall i: nat | i >= 8 ensures Coef(Mul(GENERATOR, q), i) == Coef(Mul(GENERATOR, q'), i) {
      HighPart(d, q, r, q', r', i);
    }
    QuotientsAgree(q, q', 0, |q| + |q'|);
  }

  lemma LowPart(d: Poly, q: Poly, r: Poly, q': Poly, r': Poly, i: nat)
    requires Divides(d, q, r) && Divides(d, q', r') && Same(q, q')
    ensures Coef(r, i) == Coef(r', i)
  {
    hide Mul, GENERATOR, Coef;
    BothDivide(d, q, r, q', r', i);
    MulGenerator(q, i);
    MulGenerator(q', i);
    assert Coef(q, i) == Coef(q', i);
    if i >= 1 {
      assert Coef(q, i - 1) == Coef(q', i - 1);
    }
    if i >= 2 {
      assert Coef(q, i - 2) == Coef(q', i - 2);
    }
    if i >= 8 {
      assert Coef(q, i - 8) == Coef(q', i - 8);
    }
  }

  lemma RemaindersAgree(d: Poly, q: Poly, r: Poly, q': Poly, r': Poly)
    requires |r| == |r'| == 8 && Divides(d, q, r) && Divides(d, q', r')
    ensures r == r'
  {
    hide Divides;
    SameQuotient(d, q, r, q', r');
    forall k | 0 <= k < 8 ensures r[k] == r'[k] {
      LowPart(d, q, r, q', r', 7 - k);
      assert Coef(r, 7 - k) == r[k] && Coef(r', 7 - k) == r'[k];
    }
  }

  lemma BothDivide(d: Poly, q: Poly, r: Poly, q': Poly, r': Poly, i: nat)
    requires Divides(d, q, r) && Divides(d, q', r')
    ensures (Coef(Mul(GENERATOR, q), i) != Coef(r, i)) == (Coef(Mul(GENERATOR, q'), i) != Coef(r', i))
  {
    hide Mul, GENERATOR;
    assert Coef(d, i) == Coef(Sum(Mul(GENERATOR, q), r), i);
    assert Coef(d, i) == Coef(Sum(Mul(GENERATOR, q'), r'), i);
  }

  /** The code is the remainder: a polynomial of degree below 8 is the remainder of the dividend
      modulo x^8 + x^2 + x + 1 if and only if it has the bits that pec8_calc returns. */
  lemma PecIsTheRemainder(msg: Message, r: Poly)
    requires |r| == 8
    ensures (exists q :: Divides(Dividend(MessageBits(msg)), q, r)) <==> r == Bits8(PecOf(msg))
  {
    hide Dividend, Divides, Bits8, MessageBits, PecFrom;
    PecIsARemainder(msg);
    EightBits(PecOf(msg));
    var d := Dividend(MessageBits(msg));
    var q0 :| Divides(d, q0, Bits8(PecOf(msg)));
    if q :| Divides(d, q, r) {
      RemaindersAgree(d, q, r, q0, Bits8(PecOf(msg)));
    }
  }

  lemma EightBits(x: bv8)
    ensures |Bits8(x)| == 8
  {
  }
}
