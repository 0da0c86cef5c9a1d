/** The 1-Wire CRC-8 of mp707 (mp707/patches/010-RODOS_support.patch).

    `CRC8` is the byte routine.  Its specification feeds single bits, elements of the
    two-element field `bv1`, to an eight-bit register; a byte enters the register
    least significant bit first. */
module Crc8 {
  import opened CNumbers

  type Bit = bv1

  function BitAt(d: bv8, i: nat): Bit
    requires i < 8
  {
    ((d >> i) & 1) as Bit
  }

  function Bits(d: bv8): (bits: seq<Bit>)
    ensures |bits| == 8
  {
    seq(8, i requires 0 <= i < 8 => BitAt(d, i))
  }

  // The feedback of one turn: bits 7, 3 and 2.
  function Taps(t: Bit): bv8 {
    (t as bv8 << 7) | (t as bv8 << 3) | (t as bv8 << 2)
  }

  // The register moves down by one; the bit that falls out meets the data bit.
  function BitStep(r: bv8, b: Bit): bv8 {
    (r >> 1) ^ Taps((r & 1) as Bit ^ b)
  }

  function Run(r: bv8, bits: seq<Bit>): bv8 {
    if bits == [] then r
    else BitStep(Run(r, bits[..|bits| - 1]), bits[|bits| - 1])
  }

  function ByteStep(crc: bv8, d: bv8): bv8 {
    Run(crc, Bits(d))
  }

  function Fold(crc: bv8, msg: seq<bv8>): bv8 {
    if msg == [] then crc
    else ByteStep(Fold(crc, msg[..|msg| - 1]), msg[|msg| - 1])
  }

  // A message as the bit sequence that reaches the register.
  function Flatten(msg: seq<bv8>): (bits: seq<Bit>)
    ensures |bits| == 8 * |msg|
  {
    if msg == [] then [] else Flatten(msg[..|msg| - 1]) + Bits(msg[|msg| - 1])
  }

  // The two branches of the source are one field expression.
  lemma MachineStep(r: bv8, x: bv8, b: Bit)
    requires x & 1 == b as bv8
    ensures (r ^ x) & 0x01 == 0x01 ==> ((r ^ 0x18) >> 1) | 0x80 == BitStep(r, b)
    ensures (r ^ x) & 0x01 != 0x01 ==> (r >> 1) & 0x7F == BitStep(r, b)
  {
  }

  lemma RunPrefix(r: bv8, bits: seq<Bit>, i: nat)
    requires i < |bits|
    ensures Run(r, bits[..i + 1]) == BitStep(Run(r, bits[..i]), bits[i])
  {
    assert bits[..i + 1][..i] == bits[..i];
  }

  /** The routine itself. */
  method CRC8(crc: bv8, d: bv8) returns (r: bv8)
    ensures r == ByteStep(crc, d)
  {
    ghost var bits := Bits(d);
    r := crc;
    for i := 0 to 8
      invariant r == Run(crc, bits[..i])
    {
      MachineStep(r, d >> i, bits[i]);
      RunPrefix(crc, bits, i);
      if (r ^ (d >> i)) & 0x01 == 0x01 {
        r := ((r ^ 0x18) >> 1) | 0x80;
      } else {
        r := (r >> 1) & 0x7F;
      }
    }
    assert bits[..8] == bits;
  }

  lemma RunSnoc(r: bv8, bits: seq<Bit>, b: Bit)
    ensures Run(r, bits + [b]) == BitStep(Run(r, bits), b)
  {
    assert (bits + [b])[..|bits|] == bits;
  }

  lemma {:induction false} RunAppend(r: bv8, a: seq<Bit>, b: seq<Bit>)
    ensures Run(r, a + b) == Run(Run(r, a), b)
  {
    if b == [] {
      assert a + b == a;
    } else {
      var n := |b| - 1;
      RunAppend(r, a, b[..n]);
      RunSnoc(r, a + b[..n], b[n]);
      assert a + b == a + b[..n] + [b[n]];
    }
  }

  /** Feeding bytes and feeding their bits is the same thing. */
  lemma {:induction false} FoldIsRun(crc: bv8, msg: seq<bv8>)
    ensures Fold(crc, msg) == Run(crc, Flatten(msg))
  {
    if msg != [] {
      var init := msg[..|msg| - 1];
      FoldIsRun(crc, init);
      RunAppend(crc, Flatten(init), Bits(msg[|msg| - 1]));
    }
  }

  // ---------- The register as a linear machine ----------

  function XorBits(a: seq<Bit>, b: seq<Bit>): (c: seq<Bit>)
    requires |a| == |b|
    ensures |c| == |a|
  {
    seq(|a|, i requires 0 <= i < |a| => a[i] ^ b[i])
  }

  // Stated with names for the sums, so that users need not look inside the step.
  lemma BitStepLinear(r1: bv8, r2: bv8, b1: Bit, b2: Bit, r: bv8, b: Bit)
    requires r == r1 ^ r2 && b == b1 ^ b2
    ensures BitStep(r, b) == BitStep(r1, b1) ^ BitStep(r2, b2)
  {
  }

  lemma XorPrefix(a: seq<Bit>, b: seq<Bit>, n: nat)
    requires |a| == |b| && n <= |a|
    ensures XorBits(a, b)[..n] == XorBits(a[..n], b[..n])
  {
  }

  lemma RunLinearLast(r1: bv8, r2: bv8, b1: seq<Bit>, b2: seq<Bit>, b: seq<Bit>)
    requires |b1| == |b2| > 0 && b == XorBits(b1, b2)
    requires Run(r1 ^ r2, b[..|b1| - 1]) == Run(r1, b1[..|b1| - 1]) ^ Run(r2, b2[..|b1| - 1])
    ensures Run(r1 ^ r2, b) == Run(r1, b1) ^ Run(r2, b2)
  {
    var n := |b1| - 1;
    hide BitStep;
    BitStepLinear(Run(r1, b1[..n]), Run(r2, b2[..n]), b1[n], b2[n], Run(r1 ^ r2, b[..n]), b[n]);
  }

  /** Superposition: registers and bit streams may be combined by exclusive or. */
  lemma {:induction false} RunLinear(r1: bv8, r2: bv8, b1: seq<Bit>, b2: seq<Bit>)
    requires |b1| == |b2|
    ensures Run(r1 ^ r2, XorBits(b1, b2)) == Run(r1, b1) ^ Run(r2, b2)
  {
    if b1 != [] {
      var n := |b1| - 1;
      RunLinear(r1, r2, b1[..n], b2[..n]);
      XorPrefix(b1, b2, n);
      RunLinearLast(r1, r2, b1, b2, XorBits(b1, b2));
    }
  }

  // The step that undoes `BitStep` for a known data bit.
  function BitBack(r: bv8, b: Bit): bv8 {
    var t := ((r >> 7) & 1) as Bit;
    ((r ^ Taps(t)) << 1) | (t ^ b) as bv8
  }

  lemma BitStepBijective(r: bv8, b: Bit)
    ensures BitBack(BitStep(r, b), b) == r
    ensures BitStep(BitBack(r, b), b) == r
  {
  }

  function Back(r: bv8, bits: seq<Bit>): bv8
    decreases |bits|
  {
    if bits == [] then r
    else Back(BitBack(r, bits[|bits| - 1]), bits[..|bits| - 1])
  }

  /** For a fixed bit stream the register map is a bijection with inverse `Back`. */
  lemma {:induction false} RunBijective(r: bv8, bits: seq<Bit>)
    ensures Back(Run(r, bits), bits) == r
    ensures Run(Back(r, bits), bits) == r
    decreases |bits|
  {
    if bits != [] {
      var n := |bits| - 1;
      BitStepBijective(Run(r, bits[..n]), bits[n]);
      RunBijective(r, bits[..n]);
      BitStepBijective(r, bits[n]);
      RunBijective(BitBack(r, bits[n]), bits[..n]);
    }
  }

  lemma RunInjective(r1: bv8, r2: bv8, bits: seq<Bit>)
    requires Run(r1, bits) == Run(r2, bits)
    ensures r1 == r2
  {
    RunBijective(r1, bits);
    RunBijective(r2, bits);
  }

  // The byte after i single shifts.
  function Shifted(c: bv8, i: nat): bv8
    requires i <= 8
  {
    c >> i
  }

  lemma ShiftEnds(c: bv8)
    ensures Shifted(c, 0) == c && Shifted(c, 8) == 0
  {
  }

  lemma ShiftOnce(r: bv8, b: Bit)
    requires r & 1 == b as bv8
    ensures BitStep(r, b) == r >> 1
  {
  }

  lemma ShiftAgain(c: bv8, i: nat)
    requires i < 8
    ensures (c >> i) >> 1 == c >> (i + 1)
  {
    if i == 0 {} else if i == 1 {} else if i == 2 {} else if i == 3 {}
    else if i == 4 {} else if i == 5 {} else if i == 6 {} else {}
  }

  lemma OwnStep(c: bv8, i: nat)
    requires i < 8
    ensures BitStep(Shifted(c, i), Bits(c)[i]) == Shifted(c, i + 1)
  {
    ShiftOnce(c >> i, Bits(c)[i]);
    ShiftAgain(c, i);
  }

  // Fed its own bits, the register only ever shifts down.
  lemma {:induction false} OwnBits(c: bv8, i: nat)
    requires i <= 8
    ensures Run(c, Bits(c)[..i]) == Shifted(c, i)
  {
    hide BitStep, Bits, Shifted;
    if i == 0 {
      ShiftEnds(c);
    } else {
      OwnBits(c, i - 1);
      RunPrefix(c, Bits(c), i - 1);
      OwnStep(c, i - 1);
    }
  }

  lemma OwnBitsClear(c: bv8)
    ensures Run(c, Bits(c)) == 0
  {
    OwnBits(c, 8);
    ShiftEnds(c);
    assert Bits(c)[..8] == Bits(c);
  }

  lemma ShiftXor(a: bv8, b: bv8, i: nat)
    requires i < 8
    ensures (a ^ b) >> i == (a >> i) ^ (b >> i)
  {
    if i == 0 {} else if i == 1 {} else if i == 2 {} else if i == 3 {}
    else if i == 4 {} else if i == 5 {} else if i == 6 {} else {}
  }

  lemma LowXor(a: bv8, b: bv8)
    ensures (a & 1) as Bit ^ (b & 1) as Bit == ((a ^ b) & 1) as Bit
  {
  }

  lemma BitsXorAt(a: bv8, b: bv8, i: nat)
    requires i < 8
    ensures BitAt(a, i) ^ BitAt(b, i) == BitAt(a ^ b, i)
  {
    ShiftXor(a, b, i);
    LowXor(a >> i, b >> i);
  }

  lemma BitsXor(a: bv8, b: bv8)
    ensures XorBits(Bits(a), Bits(b)) == Bits(a ^ b)
  {
    forall i | 0 <= i < 8
      ensures XorBits(Bits(a), Bits(b))[i] == Bits(a ^ b)[i]
    {
      BitsXorAt(a, b, i);
    }
  }

  lemma XorCancels(c: bv8, d: bv8)
    ensures c ^ c == 0 && d ^ c == c ^ d && d ^ 0 == d
  {
  }

  /** A byte step sees its register and its data only through their exclusive or,
      so the 256-entry table x -> ByteStep(0, x) computes every step. */
  lemma DependsOnXor(c: bv8, d: bv8)
    ensures ByteStep(c, d) == ByteStep(0, c ^ d)
  {
    OwnBitsClear(c);
    RunLinear(c, c, Bits(d), Bits(c));
    BitsXor(d, c);
    XorCancels(c, d);
    XorCancels(c, ByteStep(c, d));
  }

  // A driver that looks each step up in a table of 256 entries.
  function FoldTable(table: seq<bv8>, crc: bv8, msg: seq<bv8>): bv8
    requires |table| == 256
  {
    if msg == [] then crc
    else table[(FoldTable(table, crc, msg[..|msg| - 1]) ^ msg[|msg| - 1]) as int]
  }

  ghost predicate IsStepTable(table: seq<bv8>)
    requires |table| == 256
  {
    forall x: bv8 :: table[x as int] == ByteStep(0, x)
  }

  function StepTable(): seq<bv8> {
    seq(256, i requires 0 <= i < 256 => ByteStep(0, i as bv8))
  }

  lemma StepTableIs()
    ensures |StepTable()| == 256 && IsStepTable(StepTable())
  {
    hide ByteStep;
    forall x: bv8 ensures StepTable()[x as int] == ByteStep(0, x) {
      ByteThereAndBack(x);
    }
  }

  lemma {:induction false} TableFolds(table: seq<bv8>, crc: bv8, msg: seq<bv8>)
    requires |table| == 256 && IsStepTable(table)
    ensures FoldTable(table, crc, msg) == Fold(crc, msg)
  {
    hide ByteStep;
    if msg != [] {
      TableFolds(table, crc, msg[..|msg| - 1]);
      DependsOnXor(Fold(crc, msg[..|msg| - 1]), msg[|msg| - 1]);
    }
  }

  lemma TableStep(table: seq<bv8>, x: bv8)
    requires |table| == 256
    ensures FoldTable(table, 0, [x]) == table[x as int] && Fold(0, [x]) == ByteStep(0, x)
  {
    hide ByteStep;
    assert [x][..0] == [];
    XorCancels(x, x);
  }

  /** A table of 256 entries computes the CRC of all messages from all registers exactly
      when its entries are the steps from register zero. */
  lemma TableExact(table: seq<bv8>)
    requires |table| == 256
    ensures IsStepTable(table) <==> forall crc, msg :: FoldTable(table, crc, msg) == Fold(crc, msg)
  {
    hide FoldTable, Fold, ByteStep;
    if IsStepTable(table) {
      forall crc, msg ensures FoldTable(table, crc, msg) == Fold(crc, msg) {
        TableFolds(table, crc, msg);
      }
    } else {
      var x :| table[x as int] != ByteStep(0, x);
      TableStep(table, x);
    }
  }

  /** The receiver's check: after a message the register is cleared by exactly one
      trailing byte, the CRC of that message. */
  lemma ResidueIsZero(crc: bv8, msg: seq<bv8>, check: bv8)
    ensures Fold(crc, msg + [check]) == 0 <==> check == Fold(crc, msg)
  {
    assert (msg + [check])[..|msg|] == msg;
    OwnBitsClear(check);
    if Fold(crc, msg + [check]) == 0 {
      RunInjective(Fold(crc, msg), check, Bits(check));
    }
  }

  // ---------- The check value ----------

  function Nibble(r: bv8, a: Bit, b: Bit, c: Bit, d: Bit): bv8 {
    BitStep(BitStep(BitStep(BitStep(r, a), b), c), d)
  }

  lemma FourBits(r: bv8, a: Bit, b: Bit, c: Bit, d: Bit)
    ensures Run(r, [a, b, c, d]) == Nibble(r, a, b, c, d)
  {
    hide BitStep;
    RunSnoc(r, [], a);
    RunSnoc(r, [a], b);
    RunSnoc(r, [a, b], c);
    RunSnoc(r, [a, b, c], d);
    assert [] + [a] == [a] && [a] + [b] == [a, b];
    assert [a, b] + [c] == [a, b, c] && [a, b, c] + [d] == [a, b, c, d];
  }

  lemma BitsListed(d: bv8)
    ensures Bits(d) == [BitAt(d, 0), BitAt(d, 1), BitAt(d, 2), BitAt(d, 3)]
                       + [BitAt(d, 4), BitAt(d, 5), BitAt(d, 6), BitAt(d, 7)]
  {
    hide BitAt;
  }

  lemma TwoNibbles(r: bv8, d: bv8)
    ensures ByteStep(r, d)
         == Nibble(Nibble(r, BitAt(d, 0), BitAt(d, 1), BitAt(d, 2), BitAt(d, 3)),
                   BitAt(d, 4), BitAt(d, 5), BitAt(d, 6), BitAt(d, 7))
  {
    hide Nibble, BitAt, Run, Bits;
    var low := [BitAt(d, 0), BitAt(d, 1), BitAt(d, 2), BitAt(d, 3)];
    var high := [BitAt(d, 4), BitAt(d, 5), BitAt(d, 6), BitAt(d, 7)];
    BitsListed(d);
    RunAppend(r, low, high);
    FourBits(r, BitAt(d, 0), BitAt(d, 1), BitAt(d, 2), BitAt(d, 3));
    FourBits(Run(r, low), BitAt(d, 4), BitAt(d, 5), BitAt(d, 6), BitAt(d, 7));
  }

  lemma FoldSnoc(crc: bv8, msg: seq<bv8>, d: bv8)
    ensures Fold(crc, msg + [d]) == ByteStep(Fold(crc, msg), d)
  {
    hide ByteStep;
    assert (msg + [d])[..|msg|] == msg;
  }

  lemma FirstDigits()
    ensures Fold(0, [0x31, 0x32, 0x33]) == 0x95
  {
    hide ByteStep;
    TwoNibbles(0, 0x31);
    TwoNibbles(0xE0, 0x32);
    TwoNibbles(0xEB, 0x33);
    assert Fold(0, []) == 0;
    FoldSnoc(0, [], 0x31);
    FoldSnoc(0, [0x31], 0x32);
    FoldSnoc(0, [0x31, 0x32], 0x33);
    assert [] + [0x31] == [0x31] && [0x31] + [0x32] == [0x31, 0x32] && [0x31, 0x32] + [0x33] == [0x31, 0x32, 0x33];
  }

  /** The CRC of the nine digits "123456789" from a cleared register, the value by which
      implementations of the 1-Wire CRC are compared. */
  lemma CheckValue()
    ensures Fold(0, [0x31, 0x32, 0x33, 0x34, 0x35, 0x36, 0x37, 0x38, 0x39]) == 0xA1
  {
    hide ByteStep, Fold;
    var msg := [0x31, 0x32, 0x33, 0x34, 0x35, 0x36, 0x37, 0x38, 0x39];
    FirstDigits();
    assert msg[..3] == [0x31, 0x32, 0x33];
    TwoNibbles(0x95, 0x34);
    TwoNibbles(0xF1, 0x35);
    TwoNibbles(0xAB, 0x36);
    TwoNibbles(0xEC, 0x37);
    TwoNibbles(0x77, 0x38);
    TwoNibbles(0x07, 0x39);
    FoldSnoc(0, msg[..3], 0x34);
    FoldSnoc(0, msg[..4], 0x35);
    FoldSnoc(0, msg[..5], 0x36);
    FoldSnoc(0, msg[..6], 0x37);
    FoldSnoc(0, msg[..7], 0x38);
    FoldSnoc(0, msg[..8], 0x39);
    assert msg[..3] + [0x34] == msg[..4] && msg[..4] + [0x35] == msg[..5] && msg[..5] + [0x36] == msg[..6];
    assert msg[..6] + [0x37] == msg[..7] && msg[..7] + [0x38] == msg[..8] && msg[..8] + [0x39] == msg;
  }
}
