/** The packet error code of ltc6803.c: an 8-bit remainder modulo x^8 + x^2 + x + 1. */
module Pec {

  const PEC_POLY: bv8 := 7
  const PEC_SEED: bv8 := 0x41

  type Message = seq<bv8>

  /** One turn of the bit loop. */
  function Step(r: bv8): bv8 {
    if r & 128 != 0 then (r << 1) ^ PEC_POLY else r << 1
  }

  function Steps(r: bv8, k: nat): bv8
    decreases k
  {
    if k == 0 then r else Steps(Step(r), k - 1)
  }

  function PecFrom(r: bv8, msg: Message): bv8
    decreases |msg|
  {
    if msg == [] then r else PecFrom(Steps(r ^ msg[0], 8), msg[1..])
  }

  function PecOf(msg: Message): bv8 {
    PecFrom(PEC_SEED, msg)
  }

  /** pec8_calc. */
  method Pec8Calc(len: nat, data: seq<bv8>) returns (remainder: bv8)
    requires len <= |data|
    ensures remainder == PecOf(data[..len])
  {
    remainder := PEC_SEED;
    var byte := 0;
    while byte < len
      invariant 0 <= byte <= len
      invariant PecOf(data[..len]) == PecFrom(remainder, data[byte..len])
    {
      assert data[byte..len][1..] == data[byte + 1..len];
      remainder := remainder ^ data[byte];
      ghost var start := remainder;
      var bit := 8;
      while bit > 0
        invariant 0 <= bit <= 8
        invariant Steps(start, 8) == Steps(remainder, bit)
      {
        if remainder & 128 != 0 {
          remainder := (remainder << 1) ^ PEC_POLY;
        } else {
          remainder := remainder << 1;
        }
        bit := bit - 1;
      }
      byte := byte + 1;
    }
  }

  lemma {:induction false} PecSplit(r: bv8, a: Message, b: Message)
    ensures PecFrom(r, a + b) == PecFrom(PecFrom(r, a), b)
    decreases |a|
  {
    hide Steps;
    if a == [] {
      assert a + b == b;
    } else {
      assert (a + b)[1..] == a[1..] + b;
      PecSplit(Steps(r ^ a[0], 8), a[1..], b);
    }
  }

  // ---- The step is a bijection ----

  function Unstep(r: bv8): bv8 {
    if r & 1 != 0 then ((r ^ PEC_POLY) >> 1) | 128 else r >> 1
  }

  lemma StepUndone(r: bv8)
    ensures Unstep(Step(r)) == r && Step(Unstep(r)) == r
  {
  }

  lemma {:induction false} StepsInjective(a: bv8, b: bv8, k: nat)
    ensures Steps(a, k) == Steps(b, k) <==> a == b
    decreases k
  {
    hide Step, Unstep;
    if k > 0 {
      StepUndone(a);
      StepUndone(b);
      StepsInjective(Step(a), Step(b), k - 1);
    }
  }

  lemma XorSame(r: bv8, a: bv8, b: bv8)
    ensures r ^ a == r ^ b <==> a == b
    ensures a ^ r == b ^ r <==> a == b
  {
  }

  /** Registers that differ stay different while the same bytes come in. */
  lemma {:induction false} TailKeepsDifference(a: bv8, b: bv8, msg: Message)
    ensures PecFrom(a, msg) == PecFrom(b, msg) <==> a == b
    decreases |msg|
  {
    hide Steps;
    if msg != [] {
      XorSame(msg[0], a, b);
      StepsInjective(a ^ msg[0], b ^ msg[0], 8);
      TailKeepsDifference(Steps(a ^ msg[0], 8), Steps(b ^ msg[0], 8), msg[1..]);
    }
  }

  /** Two messages of equal length that differ in one byte only have different codes. */
  lemma OneByteDetected(head: Message, a: bv8, b: bv8, tail: Message)
    requires a != b
    ensures PecOf(head + [a] + tail) != PecOf(head + [b] + tail)
  {
    hide Steps;
    var r := PecOf(head);
    PecSplit(PEC_SEED, head, [a]);
    PecSplit(PEC_SEED, head, [b]);
    PecSplit(PEC_SEED, head + [a], tail);
    PecSplit(PEC_SEED, head + [b], tail);
    OneByte(r, a);
    OneByte(r, b);
    XorSame(r, a, b);
    StepsInjective(r ^ a, r ^ b, 8);
    TailKeepsDifference(PecFrom(r, [a]), PecFrom(r, [b]), tail);
  }

  lemma OneByte(r: bv8, d: bv8)
    ensures PecFrom(r, [d]) == Steps(r ^ d, 8)
  {
    hide Steps;
    assert [d][1..] == [];
  }

  lemma ZeroStays(k: nat)
    ensures Steps(0, k) == 0
    decreases k
  {
    if k > 0 {
      ZeroStays(k - 1);
    }
  }

  lemma XorZero(r: bv8, p: bv8)
    ensures r ^ p == 0 <==> p == r
  {
  }

  /** A message followed by a byte has remainder 0 exactly when that byte is its code. */
  lemma AppendedCodeGivesZero(msg: Message, p: bv8)
    ensures PecOf(msg + [p]) == 0 <==> p == PecOf(msg)
  {
    hide Steps;
    var r := PecOf(msg);
    PecSplit(PEC_SEED, msg, [p]);
    OneByte(r, p);
    ZeroStays(8);
    StepsInjective(r ^ p, 0, 8);
    XorZero(r, p);
  }

  // ---- Parity ----

  /** Is the bit of the given weight set? */
  predicate Bit(x: bv8, weight: bv8) {
    x & weight != 0
  }

  /** Is the number of ones in a byte odd? */
  predicate OddWeight(x: bv8) {
    OddFrom(x, 128)
  }

  /** Is the number of ones among the bits of this weight and below odd? */
  predicate OddFrom(x: bv8, weight: bv8)
    decreases weight
  {
    if weight == 0 then false else Either(Bit(x, weight), OddFrom(x, weight >> 1))
  }

  predicate Either(a: bool, b: bool) {
    a != b
  }

  lemma EitherSwaps(a: bool, b: bool, c: bool, d: bool)
    ensures Either(Either(a, b), Either(c, d)) == Either(Either(a, c), Either(b, d))
  {
  }

  predicate OddBits(msg: Message)
    decreases |msg|
  {
    if msg == [] then false else OddWeight(msg[0]) != OddBits(msg[1..])
  }

  lemma SpellOut(x: bv8)
    ensures OddWeight(x) == Either(Bit(x, 128), Either(Bit(x, 64), Either(Bit(x, 32), Either(Bit(x, 16),
                            Either(Bit(x, 8), Either(Bit(x, 4), Either(Bit(x, 2), Bit(x, 1))))))))
  {
    hide Bit, Either;
    assert OddFrom(x, 2) == Either(Bit(x, 2), OddFrom(x, 1)) && OddFrom(x, 1) == Either(Bit(x, 1), false);
    assert Either(Bit(x, 1), false) == Bit(x, 1) by { EitherFalse(Bit(x, 1)); }
    assert OddFrom(x, 8) == Either(Bit(x, 8), Either(Bit(x, 4), OddFrom(x, 2)));
    assert OddFrom(x, 32) == Either(Bit(x, 32), Either(Bit(x, 16), OddFrom(x, 8)));
    assert OddFrom(x, 128) == Either(Bit(x, 128), Either(Bit(x, 64), OddFrom(x, 32)));
  }

  lemma EitherFalse(a: bool)
    ensures Either(a, false) == a
  {
  }

  /** The bits after one step: shifted, and those of x^2, x and 1 flipped if a 1 fell out. */
  lemma StepBits(r: bv8)
    ensures Bit(Step(r), 128) == Bit(r, 64) && Bit(Step(r), 64) == Bit(r, 32)
    ensures Bit(Step(r), 32) == Bit(r, 16) && Bit(Step(r), 16) == Bit(r, 8) && Bit(Step(r), 8) == Bit(r, 4)
    ensures Bit(Step(r), 4) == Either(Bit(r, 2), Bit(r, 128)) && Bit(Step(r), 2) == Either(Bit(r, 1), Bit(r, 128))
    ensures Bit(Step(r), 1) == Bit(r, 128)
  {
  }

  lemma StepKeepsParity(r: bv8)
    ensures OddWeight(Step(r)) == OddWeight(r)
  {
    hide Bit, Step, OddWeight;
    SpellOut(r);
    SpellOut(Step(r));
    StepBits(r);
  }

  lemma {:induction false} StepsKeepParity(r: bv8, k: nat)
    ensures OddWeight(Steps(r, k)) == OddWeight(r)
    decreases k
  {
    hide OddWeight, Step;
    if k > 0 {
      StepKeepsParity(r);
      StepsKeepParity(Step(r), k - 1);
    }
  }

  lemma XorParity(a: bv8, b: bv8)
    ensures OddWeight(a ^ b) == (OddWeight(a) != OddWeight(b))
  {
    XorFrom(a, b, 128);
  }

  lemma HalfWeight(weight: bv8)
    requires weight != 0 && weight & (weight - 1) == 0
    ensures (weight >> 1) & ((weight >> 1) - 1) == 0 && weight >> 1 < weight
  {
  }

  lemma {:induction false} XorFrom(a: bv8, b: bv8, weight: bv8)
    requires weight & (weight - 1) == 0
    ensures OddFrom(a ^ b, weight) == Either(OddFrom(a, weight), OddFrom(b, weight))
    decreases weight
  {
    hide Bit;
    if weight != 0 {
      HalfWeight(weight);
      XorBit(a, b, weight);
      XorFrom(a, b, weight >> 1);
      hide Either;
      EitherSwaps(Bit(a, weight), OddFrom(a, weight >> 1), Bit(b, weight), OddFrom(b, weight >> 1));
    }
  }

  lemma XorBit(a: bv8, b: bv8, weight: bv8)
    requires weight != 0 && weight & (weight - 1) == 0
    ensures Bit(a ^ b, weight) == Either(Bit(a, weight), Bit(b, weight))
  {
  }

  lemma {:induction false} PecParity(r: bv8, msg: Message)
    ensures OddWeight(PecFrom(r, msg)) == (OddWeight(r) != OddBits(msg))
    decreases |msg|
  {
    hide OddWeight, Steps;
    if msg != [] {
      XorParity(r, msg[0]);
      StepsKeepParity(r ^ msg[0], 8);
      PecParity(Steps(r ^ msg[0], 8), msg[1..]);
    }
  }

  lemma {:induction false} OddBitsAppend(msg: Message, p: bv8)
    ensures OddBits(msg + [p]) == (OddBits(msg) != OddWeight(p))
    decreases |msg|
  {
    hide OddWeight;
    if msg == [] {
      assert msg + [p] == [p];
      assert [p][1..] == [];
    } else {
      assert (msg + [p])[1..] == msg[1..] + [p];
      OddBitsAppend(msg[1..], p);
    }
  }

  /** Data and code together always have an even number of ones. */
  lemma EvenWeight(msg: Message)
    ensures !OddBits(msg + [PecOf(msg)])
  {
    PecParity(PEC_SEED, msg);
    SpellOut(PEC_SEED);
    OddBitsAppend(msg, PecOf(msg));
  }

  function Difference(a: Message, b: Message): Message
    requires |a| == |b|
    decreases |a|
  {
    if a == [] then [] else [a[0] ^ b[0]] + Difference(a[1..], b[1..])
  }

  lemma {:induction false} DifferenceParity(a: Message, b: Message)
    requires |a| == |b|
    ensures OddBits(Difference(a, b)) == (OddBits(a) != OddBits(b))
    decreases |a|
  {
    hide OddWeight;
    if a != [] {
      XorParity(a[0], b[0]);
      assert Difference(a, b)[1..] == Difference(a[1..], b[1..]);
      DifferenceParity(a[1..], b[1..]);
    }
  }

  /** Every error of odd weight, in data and code bits taken together, is detected. */
  lemma OddErrorsDetected(msg: Message, received: Message, p: bv8)
    requires |received| == |msg|
    requires OddBits(Difference(msg + [PecOf(msg)], received + [p]))
    ensures p != PecOf(received)
  {
    DifferenceParity(msg + [PecOf(msg)], received + [p]);
    EvenWeight(msg);
    EvenWeight(received);
  }
}
