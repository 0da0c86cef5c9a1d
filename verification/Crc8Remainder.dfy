/** Polynomials over the two-element field, and the CRC as a polynomial remainder.

    A polynomial is the sequence of its coefficients, highest power first, which is the
    order in which message bits are sent. */
module Crc8Remainder {
  import opened Crc8

  type Poly = seq<Bit>

  // x^8 + x^5 + x^4 + 1
  const GENERATOR: Poly := [1, 0, 0, 1, 1, 0, 0, 0, 1]

  function Coef(p: Poly, i: int): Bit {
    if 0 <= i < |p| then p[i] else 0
  }

  function Zeros(n: nat): Poly {
    seq(n, _ => 0)
  }

  // The first k terms of the convolution that gives coefficient i of p * q.
  function Conv(p: Poly, q: Poly, i: int, k: nat): Bit
    requires k <= |p|
  {
    if k == 0 then 0 else Conv(p, q, i, k - 1) ^ (p[k - 1] & Coef(q, i - (k - 1)))
  }

  function Times(p: Poly, q: Poly): (r: Poly)
    requires |p| > 0
    ensures |r| == |p| + |q| - 1
  {
    seq(|p| + |q| - 1, i => Conv(p, q, i, |p|))
  }

  // p == g * q + r, the three aligned at their constant terms.
  ghost predicate Division(p: Poly, g: Poly, q: Poly, r: Poly) {
    && |g| > 0
    && |r| == |g| - 1
    && |p| == |q| + |r|
    && p == XorBits(Times(g, q), Zeros(|q|) + r)
  }

  ghost predicate IsRemainder(p: Poly, g: Poly, r: Poly) {
    exists q: Poly :: Division(p, g, q, r)
  }

  // The message times x^8, with the initial register added to its first eight terms.
  function Dividend(init: bv8, bits: seq<Bit>): Poly {
    XorBits(bits + Zeros(8), Bits(init) + Zeros(|bits|))
  }

  // The feedback bits of a run are the quotient.
  function Quotient(init: bv8, bits: seq<Bit>): (q: Poly)
    ensures |q| == |bits|
  {
    if bits == [] then []
    else
      var n := |bits| - 1;
      Quotient(init, bits[..n]) + [Bits(Run(init, bits[..n]))[0] ^ bits[n]]
  }

  lemma MaskBit(a: Bit, m: Bit, x: Bit)
    ensures a ^ (m & x) == if m == 1 then a ^ x else a
  {
  }

  lemma ConvStep(q: Poly, i: int, k: nat)
    requires 0 < k <= 9
    ensures Conv(GENERATOR, q, i, k)
         == if GENERATOR[k - 1] == 1 then Conv(GENERATOR, q, i, k - 1) ^ Coef(q, i - (k - 1))
            else Conv(GENERATOR, q, i, k - 1)
  {
    MaskBit(Conv(GENERATOR, q, i, k - 1), GENERATOR[k - 1], Coef(q, i - (k - 1)));
  }

  lemma TimesGenerator(q: Poly, i: int)
    ensures Conv(GENERATOR, q, i, 9) == Coef(q, i) ^ Coef(q, i - 3) ^ Coef(q, i - 4) ^ Coef(q, i - 8)
  {
    hide Coef;
    ConvStep(q, i, 1);
    ConvStep(q, i, 2);
    ConvStep(q, i, 3);
    ConvStep(q, i, 4);
    ConvStep(q, i, 5);
    ConvStep(q, i, 6);
    ConvStep(q, i, 7);
    ConvStep(q, i, 8);
    ConvStep(q, i, 9);
  }

  // ---------- Long division, one message bit at a time ----------

  function Delta(i: int, k: int, b: Bit): Bit {
    if i == k then b else 0
  }

  function FeedbackAt(j: int, t: Bit): Bit {
    Delta(j, 0, t) ^ Delta(j, 3, t) ^ Delta(j, 4, t) ^ Delta(j, 8, t)
  }

  lemma CoefSnoc(p: Poly, b: Bit, i: int)
    ensures Coef(p + [b], i) == Coef(p, i) ^ Delta(i, |p|, b)
  {
  }

  // Register bit j - 1 after a step, from register bit j before it.
  lemma StepBit(r: bv8, b: Bit, j: nat)
    requires 1 <= j <= 7
    ensures BitAt(BitStep(r, b), j - 1) == BitAt(r, j) ^ FeedbackAt(j, BitAt(r, 0) ^ b)
  {
    if j == 1 {} else if j == 2 {} else if j == 3 {} else if j == 4 {}
    else if j == 5 {} else if j == 6 {} else {}
  }

  lemma StepTop(r: bv8, b: Bit)
    ensures BitAt(BitStep(r, b), 7) == BitAt(r, 0) ^ b
  {
  }

  lemma Cancel(x: Bit, b: Bit)
    ensures x ^ b ^ (x ^ b) == 0
  {
  }

  lemma StepCoef(r: bv8, b: Bit, j: int)
    ensures Coef(Bits(BitStep(r, b)), j - 1)
         == Coef(Bits(r), j) ^ Delta(j, 0, b) ^ FeedbackAt(j, BitAt(r, 0) ^ b)
  {
    hide BitStep, BitAt;
    if j == 0 {
      Cancel(BitAt(r, 0), b);
    } else if j == 8 {
      StepTop(r, b);
    } else if 1 <= j <= 7 {
      StepBit(r, b, j);
    }
  }

  // The value of q * g + r at one power, with r standing n places in.
  function Recombined(q: Poly, r: bv8, n: int, i: int): Bit {
    Coef(q, i) ^ Coef(q, i - 3) ^ Coef(q, i - 4) ^ Coef(q, i - 8) ^ Coef(Bits(r), i - n)
  }

  lemma Rearrange(m: Bit, c: Bit, q0: Bit, q3: Bit, q4: Bit, q8: Bit, r: Bit, b: Bit,
                  t0: Bit, t3: Bit, t4: Bit, t8: Bit)
    requires m ^ c == q0 ^ q3 ^ q4 ^ q8 ^ r
    ensures (m ^ b) ^ c
         == (q0 ^ t0) ^ (q3 ^ t3) ^ (q4 ^ t4) ^ (q8 ^ t8) ^ (r ^ b ^ (t0 ^ t3 ^ t4 ^ t8))
  {
  }

  lemma EmptyCoef(p: Poly, i: int)
    requires p == []
    ensures Coef(p, i) == 0
  {
  }

  lemma QuotientSnoc(init: bv8, p: seq<Bit>, b: Bit)
    ensures Quotient(init, p + [b]) == Quotient(init, p) + [BitAt(Run(init, p), 0) ^ b]
  {
    hide BitAt, BitStep, Run;
    assert (p + [b])[..|p|] == p;
  }

  lemma DeltaShift(i: int, n: int, b: Bit, t: Bit)
    ensures Delta(i - n, 0, b) == Delta(i, n, b)
    ensures FeedbackAt(i - n, t) == Delta(i, n, t) ^ Delta(i - 3, n, t) ^ Delta(i - 4, n, t) ^ Delta(i - 8, n, t)
  {
  }

  lemma RecombinedStep(q: Poly, r: bv8, n: nat, m: Bit, c: Bit, b: Bit, i: int)
    requires |q| == n && m ^ c == Recombined(q, r, n, i)
    ensures (m ^ Delta(i, n, b)) ^ c == Recombined(q + [BitAt(r, 0) ^ b], BitStep(r, b), n + 1, i)
  {
    hide Coef, BitStep, BitAt, Delta;
    var t := BitAt(r, 0) ^ b;
    CoefSnoc(q, t, i);
    CoefSnoc(q, t, i - 3);
    CoefSnoc(q, t, i - 4);
    CoefSnoc(q, t, i - 8);
    StepCoef(r, b, i - n);
    DeltaShift(i, n, b, t);
    Rearrange(m, c, Coef(q, i), Coef(q, i - 3), Coef(q, i - 4), Coef(q, i - 8),
              Coef(Bits(r), i - n), Delta(i, n, b), Delta(i, n, t), Delta(i - 3, n, t),
              Delta(i - 4, n, t), Delta(i - 8, n, t));
  }

  lemma {:induction false} LongDivision(init: bv8, bits: seq<Bit>, i: int)
    ensures Coef(bits, i) ^ Coef(Bits(init), i)
         == Recombined(Quotient(init, bits), Run(init, bits), |bits|, i)
    decreases |bits|, 1
  {
    hide Coef, BitStep, BitAt;
    if bits == [] {
      EmptyCoef(bits, i);
      EmptyCoef(Quotient(init, bits), i);
      EmptyCoef(Quotient(init, bits), i - 3);
      EmptyCoef(Quotient(init, bits), i - 4);
      EmptyCoef(Quotient(init, bits), i - 8);
    } else {
      LongDivisionStep(init, bits[..|bits| - 1], bits[|bits| - 1], i);
      assert bits[..|bits| - 1] + [bits[|bits| - 1]] == bits;
    }
  }

  lemma LongDivisionStep(init: bv8, p: seq<Bit>, b: Bit, i: int)
    ensures Coef(p + [b], i) ^ Coef(Bits(init), i)
         == Recombined(Quotient(init, p + [b]), Run(init, p + [b]), |p| + 1, i)
    decreases |p| + 1, 0
  {
    hide *;
    var r, q := Run(init, p), Quotient(init, p);
    LongDivision(init, p, i);
    RunSnoc(init, p, b);
    QuotientSnoc(init, p, b);
    CoefSnoc(p, b, i);
    RecombinedStep(q, r, |p|, Coef(p, i), Coef(Bits(init), i), b, i);
  }

  // The three sides of the division, coefficient by coefficient.
  lemma Pointwise(init: bv8, bits: seq<Bit>, q: Poly, r: bv8, i: nat)
    requires |q| == |bits| && i < |bits| + 8
    ensures Dividend(init, bits)[i] == Coef(bits, i) ^ Coef(Bits(init), i)
    ensures XorBits(Times(GENERATOR, q), Zeros(|q|) + Bits(r))[i] == Recombined(q, r, |bits|, i)
  {
    hide BitAt, Conv;
    TimesGenerator(q, i);
  }

  lemma RunDivides(init: bv8, bits: seq<Bit>)
    ensures Division(Dividend(init, bits), GENERATOR, Quotient(init, bits), Bits(Run(init, bits)))
  {
    var p, q, r := Dividend(init, bits), Quotient(init, bits), Run(init, bits);
    var sum := XorBits(Times(GENERATOR, q), Zeros(|q|) + Bits(r));
    forall i | 0 <= i < |p| ensures p[i] == sum[i] {
      hide *;
      Pointwise(init, bits, q, r, i);
      LongDivision(init, bits, i);
    }
  }

  lemma CancelTerm(a: Bit, b: Bit, x: Bit)
    requires a ^ x == b ^ x
    ensures a == b
  {
  }

  // With equal quotients below i, the convolutions differ by the terms in q[i].
  lemma {:induction false} ConvAgree(g: Poly, q1: Poly, q2: Poly, i: nat, k: nat)
    requires 1 <= k <= |g| && g[0] == 1
    requires forall j :: 0 <= j < i ==> Coef(q1, j) == Coef(q2, j)
    requires Conv(g, q1, i, k) == Conv(g, q2, i, k)
    ensures Coef(q1, i) == Coef(q2, i)
  {
    if k == 1 {
      assert Conv(g, q1, i, 1) == Conv(g, q1, i, 0) ^ (g[0] & Coef(q1, i));
      assert Conv(g, q2, i, 1) == Conv(g, q2, i, 0) ^ (g[0] & Coef(q2, i));
    } else {
      assert Coef(q1, i - (k - 1)) == Coef(q2, i - (k - 1));
      CancelTerm(Conv(g, q1, i, k - 1), Conv(g, q2, i, k - 1), g[k - 1] & Coef(q1, i - (k - 1)));
      ConvAgree(g, q1, q2, i, k - 1);
    }
  }

  lemma {:induction false} QuotientUnique(p: Poly, g: Poly, q1: Poly, r1: Poly, q2: Poly, r2: Poly, i: nat)
    requires Division(p, g, q1, r1) && Division(p, g, q2, r2) && g[0] == 1
    requires i <= |q1|
    ensures forall j :: 0 <= j < i ==> q1[j] == q2[j]
  {
    if i > 0 {
      QuotientUnique(p, g, q1, r1, q2, r2, i - 1);
      assert p[i - 1] == Conv(g, q1, i - 1, |g|) ^ 0;
      assert p[i - 1] == Conv(g, q2, i - 1, |g|) ^ 0;
      ConvAgree(g, q1, q2, i - 1, |g|);
    }
  }

  lemma CancelLeft(a: Bit, x: Bit, y: Bit)
    requires a ^ x == a ^ y
    ensures x == y
  {
  }

  /** Division by a polynomial with leading coefficient one has one result. */
  lemma DivisionUnique(p: Poly, g: Poly, q1: Poly, r1: Poly, q2: Poly, r2: Poly)
    requires Division(p, g, q1, r1) && Division(p, g, q2, r2) && g[0] == 1
    ensures q1 == q2 && r1 == r2
  {
    QuotientUnique(p, g, q1, r1, q2, r2, |q1|);
    assert q1 == q2;
    var t := Times(g, q1);
    forall k | 0 <= k < |r1| ensures r1[k] == r2[k] {
      var i := |q1| + k;
      assert (Zeros(|q1|) + r1)[i] == r1[k] && (Zeros(|q1|) + r2)[i] == r2[k];
      assert p[i] == t[i] ^ r1[k] && p[i] == t[i] ^ r2[k];
      CancelLeft(t[i], r1[k], r2[k]);
    }
  }

  lemma BitsInjective(a: bv8, b: bv8)
    requires Bits(a) == Bits(b)
    ensures a == b
  {
    assert Bits(a)[0] == Bits(b)[0] && Bits(a)[1] == Bits(b)[1];
    assert Bits(a)[2] == Bits(b)[2] && Bits(a)[3] == Bits(b)[3];
    assert Bits(a)[4] == Bits(b)[4] && Bits(a)[5] == Bits(b)[5];
    assert Bits(a)[6] == Bits(b)[6] && Bits(a)[7] == Bits(b)[7];
  }

  lemma RemainderOf(p: Poly, q: Poly, crc: bv8, r: bv8)
    requires Division(p, GENERATOR, q, Bits(crc))
    ensures IsRemainder(p, GENERATOR, Bits(r)) <==> r == crc
  {
    hide Division, BitAt;
    if IsRemainder(p, GENERATOR, Bits(r)) {
      var q' :| Division(p, GENERATOR, q', Bits(r));
      DivisionUnique(p, GENERATOR, q', Bits(r), q, Bits(crc));
      BitsInjective(r, crc);
    }
  }

  /** The CRC of a message of any length, with any initial register, is the remainder of
      the message polynomial modulo the generator, and nothing else is. */
  lemma FoldIsRemainder(init: bv8, msg: seq<bv8>, r: bv8)
    ensures IsRemainder(Dividend(init, Flatten(msg)), GENERATOR, Bits(r)) <==> r == Fold(init, msg)
  {
    hide *;
    var bits := Flatten(msg);
    FoldIsRun(init, msg);
    RunDivides(init, bits);
    RemainderOf(Dividend(init, bits), Quotient(init, bits), Run(init, bits), r);
  }
}
