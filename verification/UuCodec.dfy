/** One line of uuencoded data (zork/files/uudecode.c:160-189), and the encoding it
    undoes: the historical algorithm of uuencode in IEEE Std 1003.1 (STDOUT section). */
module UuCodec {
  import opened CNumbers

  type Text = seq<bv8>

  const SPACE: bv8 := 0x20
  const NEWLINE: bv8 := 0x0A
  const BACKQUOTE: bv8 := 0x60

  // ---------- Decoding ----------

  function Dec(c: bv8): bv8 { (c - 0x20) & 0x3F }

  function Count(c: bv8): (n: nat)
    ensures n < 64
  {
    Dec(c) as int
  }

  function First(a: bv8, b: bv8): bv8 { (Dec(a) << 2) | (Dec(b) >> 4) }
  function Second(b: bv8, c: bv8): bv8 { (Dec(b) << 4) | (Dec(c) >> 2) }
  function Third(c: bv8, d: bv8): bv8 { (Dec(c) << 6) | Dec(d) }

  // The three bytes of the group at p.
  function Triple(t: Text, p: nat): (r: Text)
    requires p + 4 <= |t|
    ensures |r| == 3
  {
    [First(t[p], t[p + 1]), Second(t[p + 1], t[p + 2]), Third(t[p + 2], t[p + 3])]
  }

  // Every group of four characters decoded in full.
  function Groups(t: Text): (r: Text)
    requires |t| % 4 == 0
    ensures |r| == |t| / 4 * 3
  {
    if t == [] then []
    else
      var m := |t| - 4;
      Groups(t[..m]) + Triple(t, m)
  }

  // Characters of data behind the length character.
  function Span(n: nat): nat { (n + 2) / 3 * 4 }

  /** What a line stands for: its groups decoded in full, cut to the announced length. */
  function LineBytes(t: Text): (r: Text)
    requires |t| > 0 && 1 + Span(Count(t[0])) <= |t|
    ensures |r| == Count(t[0])
  {
    Groups(t[1..1 + Span(Count(t[0]))])[..Count(t[0])]
  }

  lemma GroupsPrefix(t: Text, p: nat)
    requires p + 4 <= |t| && p % 4 == 0
    ensures Groups(t[..p + 4]) == Groups(t[..p]) + Triple(t, p)
  {
    hide First, Second, Third;
    var g := t[..p + 4];
    assert g[..p] == t[..p];
    assert g[p] == t[p] && g[p + 1] == t[p + 1] && g[p + 2] == t[p + 2] && g[p + 3] == t[p + 3];
  }

  function Upto(s: Text, n: nat): Text {
    if n <= |s| then s[..n] else s
  }

  lemma UptoStep(out: Text, done: Text, triple: Text, n: nat, total: nat)
    requires |triple| == 3 && n > 0 && |done| + n == total
    ensures (out + Upto(done, total)) + Upto(triple, n) == out + Upto(done + triple, total)
  {
  }

  /** One turn of the loop: a whole group, or the bytes that are left of the last one. */
  method EmitGroup(buf: array<bv8>, p: nat, n: nat, out: Text) returns (out': Text)
    requires p + 4 <= buf.Length && n > 0
    ensures out' == out + Upto(Triple(buf[..], p), n)
  {
    hide First, Second, Third;
    out' := out;
    if n >= 3 {
      out' := out' + [First(buf[p], buf[p + 1])];
      out' := out' + [Second(buf[p + 1], buf[p + 2])];
      out' := out' + [Third(buf[p + 2], buf[p + 3])];
    } else {
      // n is 1 or 2, so the third byte is never written here
      if n >= 1 {
        out' := out' + [First(buf[p], buf[p + 1])];
      }
      if n >= 2 {
        out' := out' + [Second(buf[p + 1], buf[p + 2])];
      }
    }
  }

  // Group k is there as long as bytes are left, and the groups end where the span does.
  lemma SpanGroups(total: nat, k: nat)
    requires 3 * k < total + 3 && total < 64
    ensures 3 * k < total ==> 4 * k + 4 <= Span(total)
    ensures total <= 3 * k ==> 4 * k == Span(total)
    ensures Span(total) <= Span(63)
  {
  }

  lemma UptoAll(s: Text, n: nat)
    requires n <= |s|
    ensures Upto(s, n) == s[..n]
  {
  }

  lemma TripleOfSlice(s: Text, p: nat, k: nat)
    requires 1 <= p && p + 3 <= k < |s|
    ensures Triple(s, p) == Triple(s[1..1 + k], p - 1)
  {
    hide First, Second, Third;
  }

  lemma NoGroups(t: Text, n: nat)
    ensures Upto(Groups(t[..0]), n) == []
  {
  }

  /** The loop over one line. */
  method DecodeLine(buf: array<bv8>, out: Text) returns (out': Text)
    requires buf.Length > 1 + Span(63)
    ensures out' == out + LineBytes(buf[..])
  {
    hide Dec, Groups, Triple, Span, Upto;
    var n: int := Count(buf[0]);
    ghost var total, b := n, buf[..];
    SpanGroups(total, 0);
    ghost var t := b[1..1 + Span(total)];
    ghost var k := 0;
    var p := 1;
    out' := out;
    NoGroups(t, total);
    while n > 0
      invariant 0 <= k && p == 1 + 4 * k && n == total - 3 * k && 4 * k <= |t| && n > -3
      invariant out' == out + Upto(Groups(t[..4 * k]), total)
    {
      SpanGroups(total, k);
      GroupsPrefix(t, 4 * k);
      TripleOfSlice(b, p, |t|);
      UptoStep(out, Groups(t[..4 * k]), Triple(t, 4 * k), n, total);
      out' := EmitGroup(buf, p, n, out');
      p, n, k := p + 4, n - 3, k + 1;
    }
    SpanGroups(total, k);
    assert t[..4 * k] == t;
    UptoAll(Groups(t), total);
  }

  // ---------- What a line's bytes depend on ----------

  function ByteAt(t: Text, j: nat): bv8
    requires j / 3 * 4 + 4 <= |t|
  {
    var p := j / 3 * 4;
    if j % 3 == 0 then First(t[p], t[p + 1])
    else if j % 3 == 1 then Second(t[p + 1], t[p + 2])
    else Third(t[p + 2], t[p + 3])
  }

  lemma TripleOfPrefix(t: Text, n: nat, p: nat)
    requires p + 4 <= n <= |t|
    ensures Triple(t[..n], p) == Triple(t, p)
  {
    hide First, Second, Third;
  }

  lemma SliceOfSum(a: Text, b: Text, i: nat, j: nat)
    requires i <= j <= |a + b|
    ensures j <= |a| ==> (a + b)[i..j] == a[i..j]
    ensures i == |a| && j == |a + b| ==> (a + b)[i..j] == b
  {
  }

  lemma {:induction false} GroupOf(t: Text, q: nat)
    requires |t| % 4 == 0 && 4 * q + 4 <= |t|
    ensures Groups(t)[3 * q..3 * q + 3] == Triple(t, 4 * q)
    decreases |t|
  {
    hide Triple;
    var m := |t| - 4;
    SliceOfSum(Groups(t[..m]), Triple(t, m), 3 * q, 3 * q + 3);
    if 4 * q < m {
      GroupOf(t[..m], q);
      TripleOfPrefix(t, m, 4 * q);
    }
  }

  lemma GroupsAt(t: Text, j: nat)
    requires |t| % 4 == 0 && j < |t| / 4 * 3
    ensures j / 3 * 4 + 4 <= |t| && Groups(t)[j] == ByteAt(t, j)
  {
    hide First, Second, Third, Groups;
    var q := j / 3;
    GroupOf(t, q);
    assert Groups(t)[j] == Groups(t)[3 * q..3 * q + 3][j - 3 * q];
  }

  lemma ByteAtPrefix(t: Text, n: nat, j: nat)
    requires j / 3 * 4 + 4 <= n <= |t|
    ensures ByteAt(t[..n], j) == ByteAt(t, j)
  {
    hide First, Second, Third;
  }

  lemma SpanCovers(n: nat, j: nat)
    requires j < n
    ensures j < Span(n) / 4 * 3 && Span(n) % 4 == 0 && j / 3 * 4 + 4 <= Span(n)
  {
  }

  lemma LineByteAt(t: Text, j: nat)
    requires |t| > 0 && 1 + Span(Count(t[0])) <= |t| && j < Count(t[0])
    ensures j / 3 * 4 + 4 < |t| && LineBytes(t)[j] == ByteAt(t[1..], j)
  {
    hide Groups, ByteAt, Span, Count;
    var n := Count(t[0]);
    var u := t[1..1 + Span(n)];
    SpanCovers(n, j);
    GroupsAt(u, j);
    assert u == t[1..][..Span(n)];
    ByteAtPrefix(t[1..], Span(n), j);
  }

  // ---------- In numbers ----------

  function Value(c: bv8): nat { c as int }

  lemma LowSix(d: bv8)
    ensures (d & 0x3F) as int == d as int % 64
  {
  }

  lemma WrapSub(c: bv8)
    ensures (c - 0x20) as int == (c as int + 224) % 256
  {
  }

  lemma Modulo(n: nat)
    ensures (n + 224) % 256 % 64 == (n + 32) % 64
  {
  }

  lemma DecIs(c: bv8)
    ensures Dec(c) == (c - 0x20) & 0x3F
  {
  }

  // What a character stands for: its distance from the space, modulo 64.
  function Sextet(c: bv8): nat { (Value(c) + 32) % 64 }

  /** This is what decoding one character gives, for all 256 characters. */
  lemma DecValue(c: bv8)
    ensures Dec(c) as int == (c as int + 32) % 64
    ensures Value(Dec(c)) == Sextet(c) == Count(c)
  {
    hide Dec;
    DecIs(c);
    LowSix(c - 0x20);
    WrapSub(c);
    Modulo(c as int);
  }

  lemma FourZeros(c: bv8)
    ensures Dec(c) as int == 0 <==> c in {0x20, 0x60, 0xA0, 0xE0}
  {
  }

  /** The line that ends the data begins with a character congruent to the space modulo 64:
      a space, a backquote, or one of two beyond ASCII. */
  lemma CountZero(c: bv8)
    ensures Count(c) == 0 <==> c as int % 64 == 32
    ensures Count(c) == 0 <==> c in {0x20, 0x60, 0xA0, 0xE0}
  {
    hide Dec;
    DecValue(c);
    FourZeros(c);
  }

  lemma FirstBits(a: bv8, b: bv8)
    requires a < 64 && b < 64
    ensures Value((a << 2) | (b >> 4)) == Value(a) * 4 + Value(b) / 16
  {
  }

  lemma LowNibble(a: bv8)
    ensures a << 4 == (a & 0xF) << 4 && a & 0xF < 16
    ensures Value(a & 0xF) == Value(a) % 16
  {
  }

  lemma NibbleBits(a: bv8, b: bv8)
    requires a < 16 && b < 64
    ensures Value((a << 4) | (b >> 2)) == Value(a) * 16 + Value(b) / 4
  {
  }

  lemma SecondBits(a: bv8, b: bv8)
    requires b < 64
    ensures Value((a << 4) | (b >> 2)) == Value(a) % 16 * 16 + Value(b) / 4
  {
    hide Value;
    LowNibble(a);
    NibbleBits(a & 0xF, b);
  }

  lemma ThirdBits(a: bv8, b: bv8)
    requires a < 64 && b < 64
    ensures Value((a << 6) | b) == Value(a) % 4 * 64 + Value(b)
  {
  }

  lemma SmallDec(c: bv8)
    ensures Dec(c) < 64
  {
  }

  lemma FirstValue(a: bv8, b: bv8)
    ensures Value(First(a, b)) == Sextet(a) * 4 + Sextet(b) / 16
  {
    hide Dec, Value, Sextet;
    SmallDec(a);
    SmallDec(b);
    DecValue(a);
    DecValue(b);
    FirstBits(Dec(a), Dec(b));
  }

  lemma SecondValue(b: bv8, c: bv8)
    ensures Value(Second(b, c)) == Sextet(b) % 16 * 16 + Sextet(c) / 4
  {
    hide Dec, Value, Sextet;
    SmallDec(c);
    DecValue(b);
    DecValue(c);
    SecondBits(Dec(b), Dec(c));
  }

  lemma ThirdValue(c: bv8, d: bv8)
    ensures Value(Third(c, d)) == Sextet(c) % 4 * 64 + Sextet(d)
  {
    hide Dec, Value, Sextet;
    SmallDec(c);
    SmallDec(d);
    DecValue(c);
    DecValue(d);
    ThirdBits(Dec(c), Dec(d));
  }

  // The number written by digits to this base, the first weighing most.
  function Number(base: nat, digits: seq<nat>): nat {
    if digits == [] then 0 else Number(base, digits[..|digits| - 1]) * base + digits[|digits| - 1]
  }

  lemma NoDigitsNumber(base: nat)
    ensures Number(base, []) == 0
  {
  }

  lemma NumberSnoc(base: nat, digits: seq<nat>, d: nat)
    ensures Number(base, digits + [d]) == Number(base, digits) * base + d
  {
    assert (digits + [d])[..|digits|] == digits;
  }

  lemma ThreeDigits(x: nat, y: nat, z: nat)
    ensures Number(256, [x, y, z]) == x * 65536 + y * 256 + z
  {
    hide Number;
    NoDigitsNumber(256);
    NumberSnoc(256, [], x);
    NumberSnoc(256, [x], y);
    NumberSnoc(256, [x, y], z);
    assert [] + [x] == [x] && [x] + [y] == [x, y] && [x, y] + [z] == [x, y, z];
  }

  lemma FourDigits(a: nat, b: nat, c: nat, d: nat)
    ensures Number(64, [a, b, c, d]) == a * 262144 + b * 4096 + c * 64 + d
  {
    hide Number;
    NoDigitsNumber(64);
    NumberSnoc(64, [], a);
    NumberSnoc(64, [a], b);
    NumberSnoc(64, [a, b], c);
    NumberSnoc(64, [a, b, c], d);
    assert [] + [a] == [a] && [a] + [b] == [a, b];
    assert [a, b] + [c] == [a, b, c] && [a, b, c] + [d] == [a, b, c, d];
  }

  lemma SameNumber(a: nat, b: nat, c: nat, d: nat)
    ensures (a * 4 + b / 16) * 65536 + (b % 16 * 16 + c / 4) * 256 + (c % 4 * 64 + d)
         == a * 262144 + b * 4096 + c * 64 + d
  {
  }

  /** Four characters of any kind write a number to base 64, and the three bytes of their
      group write the same number to base 256. */
  lemma TripleNumber(t: Text, p: nat)
    requires p + 4 <= |t|
    ensures Number(256, [Value(Triple(t, p)[0]), Value(Triple(t, p)[1]), Value(Triple(t, p)[2])])
         == Number(64, [Sextet(t[p]), Sextet(t[p + 1]), Sextet(t[p + 2]), Sextet(t[p + 3])])
  {
    hide First, Second, Third, Value, Sextet, Number;
    var a, b, c, d := t[p], t[p + 1], t[p + 2], t[p + 3];
    FirstValue(a, b);
    SecondValue(b, c);
    ThirdValue(c, d);
    SameNumber(Sextet(a), Sextet(b), Sextet(c), Sextet(d));
    ThreeDigits(Value(First(a, b)), Value(Second(b, c)), Value(Third(c, d)));
    FourDigits(Sextet(a), Sextet(b), Sextet(c), Sextet(d));
  }

  // x is the first byte, the first two or all three of the bytes that write the number.
  ghost predicate Leads(x: Text, number: nat) {
    exists y: Text :: |y| == 3 && x <= y && Number(256, [Value(y[0]), Value(y[1]), Value(y[2])]) == number
  }

  lemma WithinSpan(n: nat, q: nat)
    requires 3 * q < n
    ensures 4 * q + 4 <= Span(n) && 3 * q + 3 <= Span(n) / 4 * 3 && Span(n) % 4 == 0
  {
  }

  lemma GroupLeads(u: Text, q: nat, e: nat)
    requires |u| % 4 == 0 && 4 * q + 4 <= |u| && 3 * q <= e <= 3 * q + 3
    ensures Leads(Groups(u)[3 * q..e],
                  Number(64, [Sextet(u[4 * q]), Sextet(u[4 * q + 1]), Sextet(u[4 * q + 2]), Sextet(u[4 * q + 3])]))
  {
    hide Groups, Triple, Sextet, Number, Value;
    GroupOf(u, q);
    TripleNumber(u, 4 * q);
    assert Groups(u)[3 * q..e] == Groups(u)[3 * q..3 * q + 3][..e - 3 * q];
    assert Groups(u)[3 * q..e] <= Triple(u, 4 * q);
  }

  /** What any line stands for: as many bytes as its first character says, and the bytes 3q,
      3q + 1 and 3q + 2, as far as there are so many, lead the number that the characters
      4q + 1 to 4q + 4 write. */
  lemma LineNumbers(t: Text, q: nat)
    requires |t| > 0 && 1 + Span(Count(t[0])) <= |t| && 3 * q < Sextet(t[0])
    ensures |LineBytes(t)| == Sextet(t[0]) && 4 * q + 4 < |t|
    ensures var n := |LineBytes(t)|;
            Leads(LineBytes(t)[3 * q..if 3 * q + 3 <= n then 3 * q + 3 else n],
                  Number(64, [Sextet(t[4 * q + 1]), Sextet(t[4 * q + 2]), Sextet(t[4 * q + 3]), Sextet(t[4 * q + 4])]))
  {
    hide Groups, Span, Sextet, Leads, Number, Value, Count;
    DecValue(t[0]);
    var n := Count(t[0]);
    WithinSpan(n, q);
    var u := t[1..1 + Span(n)];
    var e := if 3 * q + 3 <= n then 3 * q + 3 else n;
    GroupLeads(u, q, e);
    assert LineBytes(t)[3 * q..e] == Groups(u)[3 * q..e];
  }

  // The last character position that n bytes of data draw on.
  function Needed(n: nat): nat {
    n / 3 * 4 + if n % 3 == 0 then 0 else n % 3 + 1
  }

  lemma ByteAtSameDec(t1: Text, t2: Text, j: nat)
    requires j / 3 * 4 + 4 <= |t1| && j / 3 * 4 + 4 <= |t2|
    requires forall i :: 0 <= i <= j / 3 * 4 + j % 3 + 1 ==> Dec(t1[i]) == Dec(t2[i])
    ensures ByteAt(t1, j) == ByteAt(t2, j)
  {
  }

  /** Only the decoded values of the characters up to `Needed` count. */
  lemma SameDecoding(t1: Text, t2: Text)
    requires |t1| > 0 && |t2| > 0 && Dec(t1[0]) == Dec(t2[0])
    requires 1 + Span(Count(t1[0])) <= |t1| && 1 + Span(Count(t2[0])) <= |t2|
    requires forall i :: 0 <= i <= Needed(Count(t1[0])) ==> Dec(t1[i]) == Dec(t2[i])
    ensures LineBytes(t1) == LineBytes(t2)
  {
    hide First, Second, Third, Groups, Dec, LineBytes, ByteAt;
    var n := Count(t1[0]);
    assert n == Count(t2[0]);
    forall j | 0 <= j < n ensures LineBytes(t1)[j] == LineBytes(t2)[j] {
      LineByteAt(t1, j);
      LineByteAt(t2, j);
      assert j / 3 * 4 + j % 3 + 2 <= Needed(n);
      assert forall i :: 0 <= i <= j / 3 * 4 + j % 3 + 1 ==> t1[1..][i] == t1[i + 1] && t2[1..][i] == t2[i + 1];
      ByteAtSameDec(t1[1..], t2[1..], j);
    }
  }

  // ---------- Encoding ----------

  function Enc(v: bv8): bv8 { v + 0x20 }

  function Quad(a: bv8, b: bv8, c: bv8): (t: Text)
    ensures |t| == 4
  {
    [Enc(a >> 2), Enc(((a << 4) | (b >> 4)) & 0x3F), Enc(((b << 2) | (c >> 6)) & 0x3F), Enc(c & 0x3F)]
  }

  function EncodeTriples(d: Text): (t: Text)
    requires |d| % 3 == 0
    ensures |t| == |d| / 3 * 4
  {
    if d == [] then []
    else
      var m := |d| - 3;
      EncodeTriples(d[..m]) + Quad(d[m], d[m + 1], d[m + 2])
  }

  function Pad(d: Text): (r: Text)
    ensures |r| % 3 == 0 && |r| == (|d| + 2) / 3 * 3 && r[..|d|] == d
  {
    d + seq((|d| + 2) / 3 * 3 - |d|, _ => 0)
  }

  function EncodeLine(d: Text): Text
    requires |d| < 64
  {
    [Enc(|d| as bv8)] + EncodeTriples(Pad(d)) + [NEWLINE]
  }

  lemma QuadDecodes(a: bv8, b: bv8, c: bv8)
    ensures First(Quad(a, b, c)[0], Quad(a, b, c)[1]) == a
    ensures Second(Quad(a, b, c)[1], Quad(a, b, c)[2]) == b
    ensures Third(Quad(a, b, c)[2], Quad(a, b, c)[3]) == c
  {
  }

  lemma GroupsSnoc(t: Text, q: Text)
    requires |t| % 4 == 0 && |q| == 4
    ensures Groups(t + q) == Groups(t) + Triple(q, 0)
  {
    hide First, Second, Third;
    assert (t + q)[..|t|] == t;
  }

  lemma EncodeSnoc(d: Text, x: Text)
    requires |d| % 3 == 0 && |x| == 3
    ensures EncodeTriples(d + x) == EncodeTriples(d) + Quad(x[0], x[1], x[2])
  {
    hide Quad;
    assert (d + x)[..|d|] == d;
  }

  lemma TripleOfQuad(x: Text)
    requires |x| == 3
    ensures Triple(Quad(x[0], x[1], x[2]), 0) == x
  {
    hide First, Second, Third, Quad;
    QuadDecodes(x[0], x[1], x[2]);
  }

  lemma NothingEncoded()
    ensures EncodeTriples([]) == [] && Groups([]) == []
  {
  }

  lemma {:induction false} TriplesDecode(d: Text)
    requires |d| % 3 == 0
    ensures Groups(EncodeTriples(d)) == d
  {
    hide Triple, Quad, Groups, EncodeTriples;
    if d == [] {
      NothingEncoded();
    } else {
      var head, x := d[..|d| - 3], d[|d| - 3..];
      TriplesDecode(head);
      EncodeSnoc(head, x);
      assert d == head + x;
      GroupsSnoc(EncodeTriples(head), Quad(x[0], x[1], x[2]));
      TripleOfQuad(x);
    }
  }

  lemma DecEnc(v: bv8)
    requires v < 64
    ensures Dec(Enc(v)) == v
  {
  }

  lemma NextByte(c: bv8)
    requires c < 255
    ensures (c + 1) as int == c as int + 1
  {
  }

  lemma SmallByte(b: bv8)
    ensures b < 64 <==> b as int < 64
    ensures b < 255 <==> b as int < 255
  {
  }

  lemma {:induction false} ByteFor(n: nat) returns (b: bv8)
    requires n < 256
    ensures b as int == n
  {
    if n == 0 {
      b := 0;
    } else {
      var c := ByteFor(n - 1);
      SmallByte(c);
      NextByte(c);
      b := c + 1;
    }
  }

  lemma NatOfByte(n: nat)
    requires n < 64
    ensures (n as bv8) < 64 && (n as bv8) as int == n
  {
    var b := ByteFor(n);
    ByteThereAndBack(b);
    SmallByte(b);
  }

  lemma CountOfEnc(n: nat)
    requires n < 64
    ensures Count(Enc(n as bv8)) == n
  {
    hide Enc, Dec;
    NatOfByte(n);
    DecEnc(n as bv8);
  }

  /** Decoding the line that encodes some bytes gives back the bytes. */
  lemma LineRoundTrip(d: Text, rest: Text)
    requires 0 < |d| < 64
    ensures Count(EncodeLine(d)[0]) == |d|
    ensures |EncodeLine(d)| == 2 + Span(|d|)
    ensures LineBytes(EncodeLine(d) + rest) == d
  {
    hide Dec, Enc, Groups, EncodeTriples;
    var t := EncodeTriples(Pad(d));
    CountOfEnc(|d|);
    TriplesDecode(Pad(d));
    assert (EncodeLine(d) + rest)[1..1 + Span(|d|)] == t;
  }

  ghost predicate AllZero(s: Text) {
    forall b :: b in s ==> b == 0
  }

  predicate Printable(c: bv8) { Enc(Dec(c)) == c }

  ghost predicate AllPrintable(s: Text) {
    forall i :: 0 <= i < |s| ==> Printable(s[i])
  }

  // A line an encoder could have written: printable data characters, the unused bits of
  // the last group zero, and a newline right behind.
  ghost predicate Canonical(line: Text)
    requires line != [] && 1 + Span(Count(line[0])) <= |line|
  {
    var n := Count(line[0]);
    && |line| == 2 + Span(n)
    && line[|line| - 1] == NEWLINE
    && AllPrintable(line[..1 + Span(n)])
    && AllZero(Groups(line[1..1 + Span(n)])[n..])
  }

  lemma SixBits(a: bv8, b: bv8, c: bv8, d: bv8)
    requires a < 64 && b < 64 && c < 64 && d < 64
    ensures ((a << 2) | (b >> 4)) >> 2 == a
    ensures ((((a << 2) | (b >> 4)) << 4) | (((b << 4) | (c >> 2)) >> 4)) & 0x3F == b
    ensures ((((b << 4) | (c >> 2)) << 2) | (((c << 6) | d) >> 6)) & 0x3F == c
    ensures ((c << 6) | d) & 0x3F == d
  {
  }

  lemma QuadEncodes(a: bv8, b: bv8, c: bv8, d: bv8)
    requires Printable(a) && Printable(b) && Printable(c) && Printable(d)
    ensures Quad(First(a, b), Second(b, c), Third(c, d)) == [a, b, c, d]
  {
    SixBits(Dec(a), Dec(b), Dec(c), Dec(d));
  }

  lemma QuadOfTriple(q: Text)
    requires |q| == 4 && AllPrintable(q)
    ensures Quad(Triple(q, 0)[0], Triple(q, 0)[1], Triple(q, 0)[2]) == q
  {
    hide Printable, First, Second, Third, Quad;
    QuadEncodes(q[0], q[1], q[2], q[3]);
    assert q == [q[0], q[1], q[2], q[3]];
  }

  lemma {:induction false} TriplesEncode(t: Text)
    requires |t| % 4 == 0 && AllPrintable(t)
    ensures EncodeTriples(Groups(t)) == t
  {
    hide Printable, Triple, Quad, Groups, EncodeTriples;
    if t == [] {
      NothingEncoded();
    } else {
      var head, q := t[..|t| - 4], t[|t| - 4..];
      TriplesEncode(head);
      GroupsSnoc(head, q);
      assert t == head + q;
      EncodeSnoc(Groups(head), Triple(q, 0));
      QuadOfTriple(q);
    }
  }

  lemma EncCount(c: bv8)
    requires Printable(c)
    ensures Enc(Count(c) as bv8) == c
  {
    hide Dec, Enc;
    ByteThereAndBack(Dec(c));
  }

  lemma QuadPrintable(a: bv8, b: bv8, c: bv8)
    ensures AllPrintable(Quad(a, b, c))
  {
    var q := Quad(a, b, c);
    DecEnc(a >> 2);
    DecEnc(((a << 4) | (b >> 4)) & 0x3F);
    DecEnc(((b << 2) | (c >> 6)) & 0x3F);
    DecEnc(c & 0x3F);
    assert Printable(q[0]) && Printable(q[1]) && Printable(q[2]) && Printable(q[3]);
  }

  lemma {:induction false} EncodedPrintable(d: Text)
    requires |d| % 3 == 0
    ensures AllPrintable(EncodeTriples(d))
  {
    hide Printable, Quad;
    if d != [] {
      var m := |d| - 3;
      EncodedPrintable(d[..m]);
      QuadPrintable(d[m], d[m + 1], d[m + 2]);
    }
  }

  lemma PadZero(d: Text, g: Text)
    requires |g| == (|d| + 2) / 3 * 3 && g[..|d|] == d
    ensures g == Pad(d) <==> AllZero(g[|d|..])
  {
    if AllZero(g[|d|..]) {
      forall i | |d| <= i < |g| ensures g[i] == 0 {
        assert g[|d|..][i - |d|] == g[i] && g[i] in g[|d|..];
      }
      assert g == g[..|d|] + g[|d|..];
    }
  }

  lemma PrintableParts(line: Text, k: nat)
    requires 1 + k <= |line| && AllPrintable(line[..1 + k])
    ensures Printable(line[0]) && AllPrintable(line[1..1 + k])
  {
    hide Printable;
    var s, t := line[..1 + k], line[1..1 + k];
    assert s[0] == line[0];
    forall i | 0 <= i < |t| ensures Printable(t[i]) {
      assert s[i + 1] == t[i];
    }
  }

  lemma CanonicalParts(line: Text, n: nat, t: Text)
    requires line != [] && n == Count(line[0]) && 1 + Span(n) <= |line| && Canonical(line)
    requires t == line[1..1 + Span(n)]
    ensures line == [line[0]] + t + [NEWLINE]
    ensures Printable(line[0]) && AllPrintable(t) && AllZero(Groups(t)[n..])
  {
    hide Printable, AllPrintable, Groups, AllZero, Span, Count;
    PrintableParts(line, Span(n));
  }

  lemma BytesOfGroups(line: Text, n: nat, t: Text)
    requires line != [] && n == Count(line[0]) && 1 + Span(n) <= |line| && t == line[1..1 + Span(n)]
    ensures |t| % 4 == 0 && |Groups(t)| == (n + 2) / 3 * 3
    ensures LineBytes(line) == Groups(t)[..n]
  {
    hide Groups, Count;
  }

  lemma CanonicalReencodes(line: Text)
    requires line != [] && 1 + Span(Count(line[0])) <= |line| && Canonical(line)
    ensures EncodeLine(LineBytes(line)) == line
  {
    hide Printable, AllPrintable, Enc, Dec, Groups, EncodeTriples, AllZero, Pad, LineBytes, Canonical, Span;
    var n := Count(line[0]);
    var t := line[1..1 + Span(n)];
    CanonicalParts(line, n, t);
    BytesOfGroups(line, n, t);
    PadZero(LineBytes(line), Groups(t));
    TriplesEncode(t);
    EncCount(line[0]);
  }

  lemma PrintableJoin(c: bv8, e: Text)
    requires Printable(c) && AllPrintable(e)
    ensures AllPrintable([c] + e)
  {
    hide Printable;
  }

  lemma PrintableCount(n: nat)
    requires n < 64
    ensures Printable(Enc(n as bv8))
  {
    DecEnc(n as bv8);
  }

  lemma ReencodedCanonical(line: Text)
    requires line != [] && 1 + Span(Count(line[0])) <= |line|
    requires EncodeLine(LineBytes(line)) == line
    ensures Canonical(line)
  {
    hide Printable, Enc, Dec, Groups, EncodeTriples, AllZero, Pad, AllPrintable;
    var n := Count(line[0]);
    var d, t := LineBytes(line), line[1..1 + Span(n)];
    var e := EncodeTriples(Pad(d));
    assert line == [Enc(n as bv8)] + e + [NEWLINE];
    assert t == e && line[..1 + Span(n)] == [Enc(n as bv8)] + e;
    TriplesDecode(Pad(d));
    PadZero(d, Groups(t));
    EncodedPrintable(Pad(d));
    PrintableCount(n);
    PrintableJoin(Enc(n as bv8), e);
  }

  /** Encoding what a line decodes to gives back the line exactly for canonical lines. */
  lemma Reencode(line: Text)
    requires line != [] && 1 + Span(Count(line[0])) <= |line|
    ensures EncodeLine(LineBytes(line)) == line <==> Canonical(line)
  {
    hide Canonical, Enc, Dec, EncodeTriples, LineBytes, Pad;
    if Canonical(line) {
      CanonicalReencodes(line);
    } else if EncodeLine(LineBytes(line)) == line {
      ReencodedCanonical(line);
    }
  }
}
