/** Which corruptions of a message the CRC notices.

    All results speak about two messages of equal length and compare the registers
    they leave behind, whatever the initial register was. */
module Crc8Errors {
  import opened Crc8
  import opened Crc8Remainder

  function Diff(m1: seq<bv8>, m2: seq<bv8>): (d: seq<Bit>)
    requires |m1| == |m2|
    ensures |d| == 8 * |m1|
  {
    XorBits(Flatten(m1), Flatten(m2))
  }

  lemma XorZero(a: bv8, b: bv8)
    ensures a ^ b == 0 <==> a == b
    ensures a ^ a == 0
  {
  }

  /** Two messages collide exactly when their difference alone clears the register. */
  lemma CollideIffDiffClears(init: bv8, m1: seq<bv8>, m2: seq<bv8>)
    requires |m1| == |m2|
    ensures Fold(init, m1) == Fold(init, m2) <==> Run(0, Diff(m1, m2)) == 0
  {
    hide Run, Fold, Flatten;
    FoldIsRun(init, m1);
    FoldIsRun(init, m2);
    RunLinear(init, init, Flatten(m1), Flatten(m2));
    XorZero(init, init);
    XorZero(Fold(init, m1), Fold(init, m2));
  }

  lemma {:induction false} FlattenInjective(m1: seq<bv8>, m2: seq<bv8>)
    requires |m1| == |m2| && Flatten(m1) == Flatten(m2)
    ensures m1 == m2
  {
    hide Bits;
    if m1 != [] {
      var n := |m1| - 1;
      assert Flatten(m1)[..8 * n] == Flatten(m1[..n]) && Flatten(m1)[8 * n..] == Bits(m1[n]);
      assert Flatten(m2)[..8 * n] == Flatten(m2[..n]) && Flatten(m2)[8 * n..] == Bits(m2[n]);
      FlattenInjective(m1[..n], m2[..n]);
      BitsInjective(m1[n], m2[n]);
    }
  }

  lemma SameBit(a: Bit, b: Bit)
    ensures a ^ b == 0 <==> a == b
  {
  }

  lemma DiffZero(m1: seq<bv8>, m2: seq<bv8>)
    requires |m1| == |m2| && (forall k :: 0 <= k < |Diff(m1, m2)| ==> Diff(m1, m2)[k] == 0)
    ensures m1 == m2
  {
    hide Flatten;
    var a, b := Flatten(m1), Flatten(m2);
    forall k | 0 <= k < |a| ensures a[k] == b[k] {
      assert Diff(m1, m2)[k] == a[k] ^ b[k];
      SameBit(a[k], b[k]);
    }
    FlattenInjective(m1, m2);
  }

  // ---------- Zero bits ----------

  lemma ZerosSnoc(n: nat)
    requires n > 0
    ensures Zeros(n) == Zeros(n - 1) + [0]
  {
  }

  lemma {:induction false} ZerosFromZero(n: nat)
    ensures Run(0, Zeros(n)) == 0
  {
    if n > 0 {
      ZerosFromZero(n - 1);
      ZerosSnoc(n);
      RunSnoc(0, Zeros(n - 1), 0);
    }
  }

  lemma ZerosKeepNonzero(r: bv8, n: nat)
    ensures Run(r, Zeros(n)) == 0 <==> r == 0
  {
    ZerosFromZero(n);
    if Run(r, Zeros(n)) == 0 {
      RunInjective(r, 0, Zeros(n));
    }
  }

  // Zero bits before and after a window do not matter.
  lemma Window(d: seq<Bit>, s: nat, e: nat)
    requires s <= e <= |d|
    requires d[..s] == Zeros(s) && d[e..] == Zeros(|d| - e)
    ensures Run(0, d) == 0 <==> Run(0, d[s..e]) == 0
  {
    hide Run;
    assert d == d[..s] + d[s..e] + d[e..];
    RunAppend(0, d[..s] + d[s..e], d[e..]);
    RunAppend(0, d[..s], d[s..e]);
    ZerosFromZero(s);
    ZerosKeepNonzero(Run(0, d[s..e]), |d| - e);
  }

  // ---------- Bursts ----------

  lemma SmallAfterStep(r: bv8, b: Bit, j: nat)
    requires j < 8 && BitStep(r, b) >> j == 0
    ensures r >> (j + 1) == 0 && (r & 1) as Bit == b
  {
    if j == 0 {} else if j == 1 {} else if j == 2 {} else if j == 3 {}
    else if j == 4 {} else if j == 5 {} else if j == 6 {} else {}
  }

  // A register that is small after few bits had no feedback at all.
  lemma {:induction false} SmallMeansZeros(w: seq<Bit>, j: nat)
    requires |w| + j <= 8 && Run(0, w) >> j == 0
    ensures w == Zeros(|w|)
  {
    if w != [] {
      var n := |w| - 1;
      SmallAfterStep(Run(0, w[..n]), w[n], j);
      SmallMeansZeros(w[..n], j + 1);
      ZerosFromZero(n);
      assert w == w[..n] + [0];
      ZerosSnoc(n + 1);
    }
  }

  /** Any corruption confined to eight consecutive bits is noticed, wherever the eight
      bits lie relative to the byte boundaries. */
  lemma BurstDetected(init: bv8, m1: seq<bv8>, m2: seq<bv8>, s: nat)
    requires |m1| == |m2| && m1 != m2
    requires forall k :: 0 <= k < |Diff(m1, m2)| && Diff(m1, m2)[k] != 0 ==> s <= k < s + 8
    ensures Fold(init, m1) != Fold(init, m2)
  {
    hide Run, Fold, Flatten, Diff;
    var d := Diff(m1, m2);
    CollideIffDiffClears(init, m1, m2);
    if Run(0, d) == 0 {
      var e := if s + 8 <= |d| then s + 8 else |d|;
      var s' := if s <= e then s else e;
      assert d[..s'] == Zeros(s') && d[e..] == Zeros(|d| - e);
      Window(d, s', e);
      var w := d[s'..e];
      assert Run(0, w) >> 0 == 0;
      SmallMeansZeros(w, 0);
      assert forall k :: s' <= k < e ==> d[k] == w[k - s'];
      DiffZero(m1, m2);
    }
  }

  lemma {:induction false} FlattenAppend(a: seq<bv8>, b: seq<bv8>)
    ensures Flatten(a + b) == Flatten(a) + Flatten(b)
  {
    hide Bits;
    if b == [] {
      assert a + b == a;
    } else {
      var n := |b| - 1;
      assert (a + b)[..|a + b| - 1] == a + b[..n];
      FlattenAppend(a, b[..n]);
    }
  }

  /** In particular, replacing a single byte never goes unnoticed. */
  lemma SingleByteDetected(init: bv8, pre: seq<bv8>, a: bv8, b: bv8, post: seq<bv8>)
    requires a != b
    ensures Fold(init, pre + [a] + post) != Fold(init, pre + [b] + post)
  {
    hide Run, Fold;
    var m1, m2 := pre + [a] + post, pre + [b] + post;
    FlattenAppend(pre + [a], post);
    FlattenAppend(pre, [a]);
    FlattenAppend(pre + [b], post);
    FlattenAppend(pre, [b]);
    assert m1[|pre|] != m2[|pre|];
    forall k | 0 <= k < |Diff(m1, m2)| && Diff(m1, m2)[k] != 0
      ensures 8 * |pre| <= k < 8 * |pre| + 8
    {
      SameBit(Flatten(m1)[k], Flatten(m2)[k]);
    }
    BurstDetected(init, m1, m2, 8 * |pre|);
  }

  // ---------- Odd numbers of wrong bits ----------

  function Weight(bits: seq<Bit>): nat {
    if bits == [] then 0
    else Weight(bits[..|bits| - 1]) + if bits[|bits| - 1] == 1 then 1 else 0
  }

  function Parity(r: bv8): Bit {
    ((r ^ (r >> 1) ^ (r >> 2) ^ (r >> 3) ^ (r >> 4) ^ (r >> 5) ^ (r >> 6) ^ (r >> 7)) & 1) as Bit
  }

  lemma StepParity(r: bv8, b: Bit)
    ensures Parity(BitStep(r, b)) == Parity(r) ^ b
  {
  }

  lemma ZeroParity()
    ensures Parity(0) == 0
  {
  }

  // x + 1 divides the generator, so the register keeps the parity of what it has seen.
  lemma {:induction false} RunParity(bits: seq<Bit>)
    ensures Parity(Run(0, bits)) == (if Weight(bits) % 2 == 1 then 1 else 0)
  {
    hide BitStep, Parity;
    if bits == [] {
      ZeroParity();
    } else {
      var n := |bits| - 1;
      RunParity(bits[..n]);
      StepParity(Run(0, bits[..n]), bits[n]);
    }
  }

  /** An odd number of wrong bits, in any places, is noticed. */
  lemma OddErrorsDetected(init: bv8, m1: seq<bv8>, m2: seq<bv8>)
    requires |m1| == |m2| && Weight(Diff(m1, m2)) % 2 == 1
    ensures Fold(init, m1) != Fold(init, m2)
  {
    hide Run, Fold, Diff, Weight, Parity;
    CollideIffDiffClears(init, m1, m2);
    RunParity(Diff(m1, m2));
    ZeroParity();
  }

  // ---------- Two wrong bits ----------

  // Feeding k zero bits.
  function Shift(r: bv8, k: nat): bv8
    decreases k
  {
    if k == 0 then r else Shift(BitStep(r, 0), k - 1)
  }

  lemma {:induction false} ShiftIsRun(r: bv8, k: nat)
    ensures Shift(r, k) == Run(r, Zeros(k))
    decreases k
  {
    hide BitStep;
    if k > 0 {
      ShiftIsRun(BitStep(r, 0), k - 1);
      RunSnoc(r, [], 0);
      RunAppend(r, [0], Zeros(k - 1));
      assert [] + [0] == [0] && [0] + Zeros(k - 1) == Zeros(k);
    }
  }

  lemma {:induction false} ShiftAdd(r: bv8, a: nat, b: nat)
    ensures Shift(r, a + b) == Shift(Shift(r, a), b)
    decreases a
  {
    hide BitStep;
    if a > 0 {
      ShiftAdd(BitStep(r, 0), a - 1, b);
    }
  }

  function FourSteps(r: bv8): bv8 {
    BitStep(BitStep(BitStep(BitStep(r, 0), 0), 0), 0)
  }

  lemma ShiftOne(r: bv8, k: nat)
    ensures Shift(r, 0) == r && Shift(r, k + 1) == Shift(BitStep(r, 0), k)
  {
    hide BitStep;
  }

  lemma FourShifts(r: bv8)
    ensures Shift(r, 4) == FourSteps(r)
  {
    hide BitStep, Shift;
    ShiftOne(r, 3);
    ShiftOne(BitStep(r, 0), 2);
    ShiftOne(BitStep(BitStep(r, 0), 0), 1);
    ShiftOne(BitStep(BitStep(BitStep(r, 0), 0), 0), 0);
    ShiftOne(FourSteps(r), 0);
  }

  lemma AdvanceByte(k: nat, c: bv8, m: bv8, c': bv8)
    requires Shift(1, k) == c && FourSteps(c) == m && FourSteps(m) == c'
    ensures Shift(1, k + 8) == c'
  {
    hide BitStep, Shift, FourSteps;
    FourShifts(c);
    FourShifts(m);
    ShiftAdd(1, k, 4);
    ShiftAdd(1, k + 4, 4);
  }

  lemma FirstShifts()
    ensures Shift(1, 64) == 0x43
  {
    hide Shift;
    ShiftOne(1, 0);
    AdvanceByte(0, 0x01, 0x9D, 0x5E);
    AdvanceByte(8, 0x5E, 0xEC, 0xC4);
    AdvanceByte(16, 0xC4, 0x4A, 0xAB);
    AdvanceByte(24, 0xAB, 0x38, 0x8F);
    AdvanceByte(32, 0x8F, 0x7C, 0xCD);
    AdvanceByte(40, 0xCD, 0x5B, 0x37);
    AdvanceByte(48, 0x37, 0xFB, 0x3D);
    AdvanceByte(56, 0x3D, 0x54, 0x43);
  }

  lemma NextShifts()
    ensures Shift(1, 120) == 0x80
  {
    hide Shift;
    FirstShifts();
    AdvanceByte(64, 0x43, 0xBA, 0xA4);
    AdvanceByte(72, 0xA4, 0x4C, 0xCE);
    AdvanceByte(80, 0xCE, 0xE5, 0xD5);
    AdvanceByte(88, 0xD5, 0xD6, 0x68);
    AdvanceByte(96, 0x68, 0x8A, 0xA7);
    AdvanceByte(104, 0xA7, 0xF2, 0x2C);
    AdvanceByte(112, 0x2C, 0xC8, 0x80);
  }

  lemma LastShifts(c: bv8)
    ensures Shift(c, 7) == BitStep(BitStep(BitStep(FourSteps(c), 0), 0), 0)
  {
    hide BitStep, Shift, FourSteps;
    var m := FourSteps(c);
    FourShifts(c);
    ShiftAdd(c, 4, 3);
    ShiftOne(m, 2);
    ShiftOne(BitStep(m, 0), 1);
    ShiftOne(BitStep(BitStep(m, 0), 0), 0);
    ShiftOne(BitStep(BitStep(BitStep(m, 0), 0), 0), 0);
  }

  lemma Order127()
    ensures Shift(1, 127) == 1
  {
    hide Shift;
    NextShifts();
    LastShifts(0x80);
    ShiftAdd(1, 120, 7);
  }

  lemma {:induction false} PeriodMultiple(d: nat, q: nat)
    requires Shift(1, d) == 1
    ensures Shift(1, q * d) == 1
  {
    if q > 0 {
      PeriodMultiple(d, q - 1);
      ShiftAdd(1, (q - 1) * d, d);
      assert q * d == (q - 1) * d + d;
    }
  }

  lemma DivMod(k: nat, d: nat, q: nat, e: nat)
    requires d > 0 && q == k / d && e == k % d
    ensures k == q * d + e && e < d
  {
  }

  // The least period divides every period.
  lemma LeastPeriodDivides(d: nat, k: nat)
    requires d > 0 && Shift(1, d) == 1 && (forall e :: 0 < e < d ==> Shift(1, e) != 1)
    requires Shift(1, k) == 1
    ensures k % d == 0
  {
    hide Shift;
    var q, e := k / d, k % d;
    DivMod(k, d, q, e);
    PeriodMultiple(d, q);
    ShiftAdd(1, q * d, e);
  }

  lemma LeastPeriod(n: nat) returns (d: nat)
    requires n > 0 && Shift(1, n) == 1
    ensures 0 < d <= n && Shift(1, d) == 1 && (forall e :: 0 < e < d ==> Shift(1, e) != 1)
  {
    hide Shift;
    d := 1;
    while Shift(1, d) != 1
      invariant 0 < d <= n && (forall e :: 0 < e < d ==> Shift(1, e) != 1)
      decreases n - d
    {
      d := d + 1;
    }
  }

  lemma Prime127(d: nat)
    requires 0 < d <= 127 && 127 % d == 0
    ensures d == 1 || d == 127
  {
  }

  /** x has order 127 modulo the generator. */
  lemma OrderIs127(k: nat)
    ensures Shift(1, k) == 1 <==> k % 127 == 0
  {
    Order127();
    var d := LeastPeriod(127);
    LeastPeriodDivides(d, 127);
    Prime127(d);
    assert Shift(1, 1) != 1;
    if Shift(1, k) == 1 {
      LeastPeriodDivides(d, k);
    }
    if k % 127 == 0 {
      PeriodMultiple(127, k / 127);
    }
  }

  lemma OneClearsOne(r: bv8)
    ensures BitStep(r, 1) == 0 <==> r == 1
    ensures BitStep(0, 1) == BitStep(1, 0)
  {
  }

  lemma ShiftOnce1(k: nat)
    ensures Shift(1, k + 1) == Shift(BitStep(1, 0), k)
  {
    hide BitStep;
  }

  lemma TwoOnes(gap: nat)
    ensures Run(0, [1] + Zeros(gap) + [1]) == 0 <==> (gap + 1) % 127 == 0
  {
    hide BitStep, Shift;
    RunSnoc(0, [1] + Zeros(gap), 1);
    RunAppend(0, [1], Zeros(gap));
    RunSnoc(0, [], 1);
    assert [] + [1] == [1];
    ShiftIsRun(BitStep(0, 1), gap);
    OneClearsOne(Run(0, [1] + Zeros(gap)));
    ShiftOnce1(gap);
    OrderIs127(gap + 1);
  }

  lemma NonzeroBit(b: Bit)
    ensures b != 0 <==> b == 1
  {
  }

  // The messages differ in the bits i and j and in no other.
  ghost predicate DifferAt(m1: seq<bv8>, m2: seq<bv8>, i: nat, j: nat)
    requires |m1| == |m2|
  {
    && i < j < |Diff(m1, m2)|
    && forall k :: 0 <= k < |Diff(m1, m2)| ==> (Diff(m1, m2)[k] != 0 <==> k == i || k == j)
  }

  /** Two wrong bits go unnoticed exactly when their distance is a multiple of 127. */
  lemma DoubleError(init: bv8, m1: seq<bv8>, m2: seq<bv8>, i: nat, j: nat)
    requires |m1| == |m2| && DifferAt(m1, m2, i, j)
    ensures Fold(init, m1) == Fold(init, m2) <==> (j - i) % 127 == 0
  {
    hide Run, Fold, Diff, Shift, BitStep;
    var d := Diff(m1, m2);
    CollideIffDiffClears(init, m1, m2);
    assert d[..i] == Zeros(i) && d[j + 1..] == Zeros(|d| - (j + 1));
    Window(d, i, j + 1);
    NonzeroBit(d[i]);
    NonzeroBit(d[j]);
    assert d[i..j + 1] == [1] + Zeros(j - i - 1) + [1];
    TwoOnes(j - i - 1);
  }

  // ---------- How long a message may be ----------

  lemma {:induction false} FlattenAt(msg: seq<bv8>, k: nat)
    requires k < 8 * |msg|
    ensures Flatten(msg)[k] == BitAt(msg[k / 8], k % 8)
  {
    hide BitAt;
    var n := |msg| - 1;
    if k < 8 * n {
      FlattenAt(msg[..n], k);
    } else {
      assert k / 8 == n && k % 8 == k - 8 * n;
    }
  }

  function Blank(n: nat): (msg: seq<bv8>)
    ensures |msg| == n
  {
    seq(n, i requires 0 <= i < n => 0)
  }

  // The lowest bit of the first byte and the highest of the sixteenth are wrong.
  function Garbled(n: nat): (msg: seq<bv8>)
    requires n >= 16
    ensures |msg| == n
  {
    Blank(n)[0 := 0x01][15 := 0x80]
  }

  lemma LowestBit(i: nat)
    requires i < 8
    ensures BitAt(0x01, i) != 0 <==> i == 0
  {
    if i == 0 {} else if i == 1 {} else if i == 2 {} else if i == 3 {}
    else if i == 4 {} else if i == 5 {} else if i == 6 {} else {}
  }

  lemma HighestBit(i: nat)
    requires i < 8
    ensures BitAt(0x80, i) != 0 <==> i == 7
  {
    if i == 0 {} else if i == 1 {} else if i == 2 {} else if i == 3 {}
    else if i == 4 {} else if i == 5 {} else if i == 6 {} else {}
  }

  lemma NoBit(i: nat)
    requires i < 8
    ensures BitAt(0, i) == 0
  {
    if i == 0 {} else if i == 1 {} else if i == 2 {} else if i == 3 {}
    else if i == 4 {} else if i == 5 {} else if i == 6 {} else {}
  }

  lemma GarbledBit(n: nat, k: nat)
    requires n >= 16 && k < 8 * n
    ensures Diff(Blank(n), Garbled(n))[k] != 0 <==> k == 0 || k == 127
  {
    hide BitAt, Flatten;
    FlattenAt(Blank(n), k);
    FlattenAt(Garbled(n), k);
    LowestBit(k % 8);
    HighestBit(k % 8);
    NoBit(k % 8);
    SameBit(Flatten(Blank(n))[k], Flatten(Garbled(n))[k]);
    assert k == 8 * (k / 8) + k % 8;
  }

  /** Two such messages, different and with the same CRC, of any length from 16 bytes on. */
  lemma GarbledCollides(init: bv8, n: nat)
    requires n >= 16
    ensures DifferAt(Blank(n), Garbled(n), 0, 127)
    ensures Fold(init, Blank(n)) == Fold(init, Garbled(n))
  {
    hide Fold, Diff, Blank;
    forall k | 0 <= k < |Diff(Blank(n), Garbled(n))|
      ensures Diff(Blank(n), Garbled(n))[k] != 0 <==> k == 0 || k == 127
    {
      GarbledBit(n, k);
    }
    DoubleError(init, Blank(n), Garbled(n), 0, 127);
  }

  lemma BelowPeriod(d: int)
    requires 0 < d < 127
    ensures d % 127 != 0
  {
  }

  /** All pairs of wrong bits in messages of n bytes are noticed exactly when n is at
      most 15. */
  lemma DoubleErrorsNoticed(n: nat)
    ensures n <= 15 <==>
            forall init, m1, m2, i: nat, j: nat :: |m1| == n && |m2| == n && DifferAt(m1, m2, i, j) ==>
              Fold(init, m1) != Fold(init, m2)
  {
    hide Fold, Diff, Garbled, Blank;
    if n <= 15 {
      forall init, m1, m2, i: nat, j: nat | |m1| == n && |m2| == n && DifferAt(m1, m2, i, j)
        ensures Fold(init, m1) != Fold(init, m2)
      {
        DoubleError(init, m1, m2, i, j);
        BelowPeriod(j - i);
      }
    } else {
      GarbledCollides(0, n);
    }
  }
}
