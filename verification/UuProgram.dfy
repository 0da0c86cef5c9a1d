/** What uudecode accepts and writes, for one input and for many
    (zork/files/uudecode.c:68-98, 110-197). */
module UuProgram {
  import opened Strings
  import opened UuCodec
  import opened Uudecode

  // ---------- Acceptance ----------

  // A line that ends the data: it begins with a space, a backquote, or a character that is
  // congruent to them modulo 64.
  predicate EndsData(line: Text)
    requires line != []
  {
    line[0] as int % 64 == 32
  }

  lemma EndsDataIff(line: Text)
    requires line != []
    ensures EndsData(line) <==> Count(line[0]) == 0
  {
    CountZero(line[0]);
  }

  // Data lines up to z, the empty line at z, the end line behind it.
  ghost predicate Closed(lines: seq<Text>, from: nat, z: nat)
    requires ValidLines(lines)
  {
    && from <= z && z + 1 < |lines|
    && (forall k :: from <= k < z ==> !EndsData(lines[k]))
    && EndsData(lines[z])
    && IsEnd(lines[z + 1])
  }

  // The first header line is at h; the data it announces is closed at z.
  ghost predicate Framed(lines: seq<Text>, h: nat, z: nat)
    requires ValidLines(lines)
  {
    && h < |lines|
    && IsBegin(lines[h])
    && (forall k :: 0 <= k < h ==> !IsBegin(lines[k]))
    && Closed(lines, h + 1, z)
  }

  ghost predicate Usable(sys: System, path: Text) {
    Resolve(sys, path).Some? && sys.opens(Resolve(sys, path).value)
  }

  ghost predicate Accepts(sys: System, input: Input)
    requires input.Valid()
  {
    Usable(sys, input.path) && exists h, z :: Framed(input.lines, h, z)
  }

  lemma {:induction false} DataAccepts(buf: Text, lines: seq<Text>, from: nat)
    requires |buf| == MAXPATHLEN && ValidLines(lines) && from <= |lines|
    ensures Data(buf, lines[from..]).0 in {0, 1}
    ensures Data(buf, lines[from..]).0 == 0 <==> exists z :: Closed(lines, from, z)
    decreases |lines| - from
  {
    hide Dec, LineBytes, IsEnd, EndsData;
    if from < |lines| {
      assert lines[from..][1..] == lines[from + 1..];
      EndsDataIff(lines[from]);
      if Count(lines[from][0]) == 0 {
        if Data(buf, lines[from..]).0 == 0 {
          assert Closed(lines, from, from);
        }
      } else {
        var next := from + 1;
        DataAccepts(Fill(buf, lines[from]), lines, next);
        if exists z :: Closed(lines, from, z) {
          var z :| Closed(lines, from, z);
          assert Closed(lines, next, z);
        }
        if exists z :: Closed(lines, next, z) {
          var z :| Closed(lines, next, z);
          assert Closed(lines, from, z);
        }
      }
    }
  }

  lemma BodyAccepts(sys: System, buf: Text, input: Input, h: nat)
    requires |buf| == MAXPATHLEN && input.Valid() && h < |input.lines| && IsBegin(input.lines[h])
    requires forall k :: 0 <= k < h ==> !IsBegin(input.lines[k])
    ensures Body(sys, buf, input.path, input.lines[h + 1..]).0 in {0, 1}
    ensures Body(sys, buf, input.path, input.lines[h + 1..]).0 == 0 <==> Accepts(sys, input)
  {
    hide IsBegin, Resolve, PathBuffer, Closed;
    if Usable(sys, input.path) {
      var next := h + 1;
      DataAccepts(PathBuffer(sys, buf, input.path), input.lines, next);
      if exists z :: Closed(input.lines, next, z) {
        var z :| Closed(input.lines, next, z);
        assert Framed(input.lines, h, z);
      }
      if exists h', z :: Framed(input.lines, h', z) {
        var h', z :| Framed(input.lines, h', z);
        assert h' == h;
        assert Closed(input.lines, next, z);
      }
    }
  }

  // With the header search at line i, none of the lines before it being a header.
  lemma {:induction false} SearchAccepts(sys: System, buf: Text, input: Input, i: nat)
    requires |buf| == MAXPATHLEN && input.Valid() && i <= |input.lines|
    requires forall k :: 0 <= k < i ==> !IsBegin(input.lines[k])
    ensures Decoded(sys, buf, input.lines[i..], input.path).0 in {0, 1}
    ensures Decoded(sys, buf, input.lines[i..], input.path).0 == 0 <==> Accepts(sys, input)
    decreases |input.lines| - i
  {
    hide IsBegin, IsEnd, Dec, Fill, Resolve, PathBuffer;
    var lines := input.lines;
    if i < |lines| {
      assert lines[i..][1..] == lines[i + 1..];
      if IsBegin(lines[i]) {
        BodyAccepts(sys, Fill(buf, lines[i]), input, i);
      } else {
        SearchAccepts(sys, Fill(buf, lines[i]), input, i + 1);
      }
    }
  }

  /** decode returns 0 exactly for any lines, a header line, data lines, a line of count
      zero, `end`, and anything after that, provided the output file can be used. */
  lemma DecodeAccepts(sys: System, buf: Text, input: Input)
    requires |buf| == MAXPATHLEN && input.Valid()
    ensures Decoded(sys, buf, input.lines, input.path).0 in {0, 1}
    ensures Decoded(sys, buf, input.lines, input.path).0 == 0 <==> Accepts(sys, input)
  {
    SearchAccepts(sys, buf, input, 0);
    assert input.lines[0..] == input.lines;
  }

  // What decode may write for an input, whatever its buffer holds at first.
  ghost predicate Writes(sys: System, input: Input, out: Text)
    requires input.Valid()
  {
    exists buf: Text :: |buf| == MAXPATHLEN && Decoded(sys, buf, input.lines, input.path).1 == out
  }

  // One call of decode with its local buffer.
  method DecodeInput(sys: System, input: Input) returns (rval: int, out: Text)
    requires sys.Valid() && input.Valid()
    ensures rval in {0, 1} && (rval == 0 <==> Accepts(sys, input))
    ensures Writes(sys, input, out)
  {
    hide Accepts, Decoded;
    var buf := new bv8[MAXPATHLEN];
    ghost var b := buf[..];
    DecodeAccepts(sys, b, input);
    rval, out := Decode(sys, input, buf);
    assert Decoded(sys, b, input.lines, input.path).1 == out;
  }

  /** The loop over the arguments; an input that cannot be opened is None.  Every input has
      its own output. */
  method Program(sys: System, files: seq<Option<Input>>, stdin: Input) returns (status: int, outs: seq<Text>)
    requires sys.Valid() && stdin.Valid()
    requires forall i :: 0 <= i < |files| && files[i].Some? ==> files[i].value.Valid()
    ensures status in {0, 1}
    ensures files == [] ==> (status == 0 <==> Accepts(sys, stdin)) && |outs| == 1 && Writes(sys, stdin, outs[0])
    ensures files != [] ==>
              && (status == 0 <==> forall i :: 0 <= i < |files| ==> files[i].Some? && Accepts(sys, files[i].value))
              && |outs| == |files|
              && forall i :: 0 <= i < |files| ==>
                   if files[i].Some? then Writes(sys, files[i].value, outs[i]) else outs[i] == []
  {
    hide Accepts, Writes;
    if files != [] {
      status, outs := 0, [];
      var i := 0;
      while i < |files|
        invariant 0 <= i <= |files| && status in {0, 1} && |outs| == i
        invariant status == 0 <==> forall k :: 0 <= k < i ==> files[k].Some? && Accepts(sys, files[k].value)
        invariant forall k :: 0 <= k < i ==>
                    if files[k].Some? then Writes(sys, files[k].value, outs[k]) else outs[k] == []
      {
        if files[i].None? {
          status, outs := 1, outs + [[]];
        } else {
          var rval, out := DecodeInput(sys, files[i].value);
          // |= of values that are 0 or 1
          status := if rval != 0 then 1 else status;
          outs := outs + [out];
        }
        i := i + 1;
      }
    } else {
      var rval, out := DecodeInput(sys, stdin);
      status, outs := rval, [out];
    }
  }

  // ---------- Output ----------

  function Blank(): (b: Text)
    ensures |b| == MAXPATHLEN
  {
    seq(MAXPATHLEN, _ => 0)
  }

  // What a line yields over a buffer of terminators.
  function Content(line: Text): Text
    requires ValidLine(line)
  {
    LineBytes(Fill(Blank(), line))
  }

  // Long enough for its count: the decoder stays within the line and its terminator.
  predicate Complete(line: Text)
    requires line != []
  {
    Needed(Count(line[0])) <= |line|
  }

  lemma CompleteContent(buf: Text, line: Text)
    requires |buf| == MAXPATHLEN && ValidLine(line) && Complete(line)
    ensures LineBytes(Fill(buf, line)) == Content(line)
  {
    hide LineBytes, Dec;
    SameDecoding(Fill(buf, line), Fill(Blank(), line));
  }

  lemma LowBitsDiffer(c1: bv8, c2: bv8)
    ensures First(c1, 0x20) != First(c2, 0x5F)
    ensures Second(c1, 0x20) != Second(c2, 0x5F)
    ensures Third(c1, 0x20) != Third(c2, 0x5F)
  {
  }

  lemma LastByteDiffers(u1: Text, u2: Text, j: nat, c1: bv8, c2: bv8)
    requires j / 3 * 4 + 4 <= |u1| && j / 3 * 4 + 4 <= |u2|
    requires u1[j / 3 * 4 + j % 3 + 1] == 0x20 && u2[j / 3 * 4 + j % 3 + 1] == 0x5F
    requires u1[j / 3 * 4 + j % 3] == c1 && u2[j / 3 * 4 + j % 3] == c2
    ensures ByteAt(u1, j) != ByteAt(u2, j)
  {
    LowBitsDiffer(c1, c2);
  }

  lemma LastBytesDiffer(t1: Text, t2: Text, n: nat, m: nat)
    requires |t1| > 0 && |t2| > 0 && 0 < n == Count(t1[0]) == Count(t2[0]) && m == Needed(n)
    requires 1 + Span(n) <= |t1| && 1 + Span(n) <= |t2|
    requires t1[m] == 0x20 && t2[m] == 0x5F
    ensures LineBytes(t1) != LineBytes(t2)
  {
    hide LineBytes, Dec, ByteAt;
    var j := n - 1;
    LineByteAt(t1, j);
    LineByteAt(t2, j);
    assert j / 3 * 4 + j % 3 + 2 == m;
    LastByteDiffers(t1[1..], t2[1..], j, t1[m - 1], t2[m - 1]);
  }

  lemma ShortOutputs(line: Text, b1: Text, b2: Text)
    requires ValidLine(line) && !Complete(line) && |b1| == |b2| == MAXPATHLEN
    requires var m := Needed(Count(line[0])); b1[m] == 0x20 && b2[m] == 0x5F
    ensures LineBytes(Fill(b1, line)) != LineBytes(Fill(b2, line))
  {
    hide LineBytes, Dec;
    var n, m := Count(line[0]), Needed(Count(line[0]));
    var t1, t2 := Fill(b1, line), Fill(b2, line);
    assert t1[m] == 0x20 && t2[m] == 0x5F;
    LastBytesDiffer(t1, t2, n, m);
  }

  /** The output of a data line is independent of what the buffer held before exactly when
      the line is long enough for its count. */
  lemma IndependentIffComplete(line: Text)
    requires ValidLine(line)
    ensures Complete(line) <==>
            forall b1: Text, b2: Text :: |b1| == MAXPATHLEN && |b2| == MAXPATHLEN ==>
              LineBytes(Fill(b1, line)) == LineBytes(Fill(b2, line))
  {
    hide LineBytes, Fill, Dec;
    if Complete(line) {
      forall b1: Text, b2: Text | |b1| == MAXPATHLEN && |b2| == MAXPATHLEN
        ensures LineBytes(Fill(b1, line)) == LineBytes(Fill(b2, line))
      {
        CompleteContent(b1, line);
        CompleteContent(b2, line);
      }
    } else {
      var m := Needed(Count(line[0]));
      ShortOutputs(line, Blank()[m := 0x20], Blank()[m := 0x5F]);
    }
  }

  function Contents(lines: seq<Text>): Text
    requires ValidLines(lines)
  {
    if lines == [] then [] else Content(lines[0]) + Contents(lines[1..])
  }

  ghost predicate AllComplete(lines: seq<Text>, from: nat, to: nat)
    requires ValidLines(lines)
  {
    forall k :: from <= k < to && k < |lines| ==> Complete(lines[k])
  }

  lemma {:induction false} DataOutput(buf: Text, lines: seq<Text>, from: nat, z: nat)
    requires |buf| == MAXPATHLEN && ValidLines(lines) && Closed(lines, from, z)
    requires AllComplete(lines, from, z)
    ensures Data(buf, lines[from..]) == (0, Contents(lines[from..z]))
    decreases z - from
  {
    hide Dec, LineBytes, IsEnd, Complete, Content, EndsData;
    assert lines[from..][1..] == lines[from + 1..];
    EndsDataIff(lines[from]);
    if from < z {
      DataOutput(Fill(buf, lines[from]), lines, from + 1, z);
      CompleteContent(buf, lines[from]);
      assert lines[from..z][1..] == lines[from + 1..z];
    }
  }

  lemma {:induction false} SearchOutput(sys: System, buf: Text, input: Input, i: nat, h: nat, z: nat)
    requires |buf| == MAXPATHLEN && input.Valid() && i <= h
    requires Framed(input.lines, h, z) && Usable(sys, input.path) && AllComplete(input.lines, h + 1, z)
    ensures Decoded(sys, buf, input.lines[i..], input.path) == (0, Contents(input.lines[h + 1..z]))
    decreases h - i
  {
    hide Fill, IsBegin, Resolve, PathBuffer, Closed, AllComplete, Contents;
    assert input.lines[i..][1..] == input.lines[i + 1..];
    var b := Fill(buf, input.lines[i]);
    if i < h {
      SearchOutput(sys, b, input, i + 1, h, z);
    } else {
      DataOutput(PathBuffer(sys, b, input.path), input.lines, h + 1, z);
    }
  }

  /** With complete data lines, an accepted input yields what its data lines stand for:
      lines before the header, lines after the trailer and the old buffer play no part. */
  lemma DecodeOutput(sys: System, buf: Text, input: Input, h: nat, z: nat)
    requires |buf| == MAXPATHLEN && input.Valid()
    requires Framed(input.lines, h, z) && Usable(sys, input.path) && AllComplete(input.lines, h + 1, z)
    ensures Decoded(sys, buf, input.lines, input.path) == (0, Contents(input.lines[h + 1..z]))
  {
    SearchOutput(sys, buf, input, 0, h, z);
    assert input.lines[0..] == input.lines;
  }

  /** So the output of such an input is the content of its data lines. */
  lemma WritesContents(sys: System, input: Input, out: Text, h: nat, z: nat)
    requires input.Valid() && Framed(input.lines, h, z)
    requires Usable(sys, input.path) && AllComplete(input.lines, h + 1, z)
    ensures Writes(sys, input, out) <==> out == Contents(input.lines[h + 1..z])
  {
    hide Decoded, Framed, Usable, AllComplete, Contents;
    DecodeOutput(sys, Blank(), input, h, z);
    if Writes(sys, input, out) {
      var buf: Text :| |buf| == MAXPATHLEN && Decoded(sys, buf, input.lines, input.path).1 == out;
      DecodeOutput(sys, buf, input, h, z);
    }
  }

  // ---------- Output for any input ----------

  // The character at position k of a buffer in which these lines were stored one after
  // another: that of the latest line that reaches so far, terminators included.
  function Left(buf: Text, lines: seq<Text>, k: nat): bv8
    requires k < |buf|
  {
    if lines == [] then buf[k]
    else
      var line := lines[|lines| - 1];
      if k < |line| then line[k] else if k == |line| then 0 else Left(buf, lines[..|lines| - 1], k)
  }

  function Stored(buf: Text, lines: seq<Text>): (b: Text)
    ensures |b| == |buf|
  {
    seq(|buf|, k requires 0 <= k < |buf| => Left(buf, lines, k))
  }

  lemma StoredNext(buf: Text, lines: seq<Text>, n: nat)
    requires n < |lines| && |lines[n]| < |buf|
    ensures Stored(buf, lines[..n + 1]) == Fill(Stored(buf, lines[..n]), lines[n])
  {
    assert lines[..n + 1][..n] == lines[..n];
  }

  lemma StoredNone(buf: Text)
    ensures Stored(buf, []) == buf
  {
  }

  // What the first n lines write, each over what those before it left in the buffer.
  function Written(buf: Text, lines: seq<Text>, n: nat): Text
    requires |buf| == MAXPATHLEN && n <= |lines|
  {
    if n == 0 then [] else Written(buf, lines, n - 1) + LineBytes(Stored(buf, lines[..n]))
  }

  // The data lines are the first n.
  ghost predicate DataLines(lines: seq<Text>, n: nat)
    requires ValidLines(lines)
  {
    && n <= |lines| && (forall k :: 0 <= k < n ==> !EndsData(lines[k]))
    && (n == |lines| || EndsData(lines[n]))
  }

  lemma FillFirst(buf: Text, line: Text)
    requires 0 < |line| < |buf|
    ensures Fill(buf, line)[0] == line[0]
  {
  }

  lemma DataStops(buf: Text, lines: seq<Text>)
    requires |buf| == MAXPATHLEN && ValidLines(lines)
    requires lines == [] || Count(lines[0][0]) == 0
    ensures Data(buf, lines).1 == []
  {
    hide Fill, LineBytes, Count;
    if lines != [] { FillFirst(buf, lines[0]); }
  }

  lemma DataGoesOn(buf: Text, lines: seq<Text>)
    requires |buf| == MAXPATHLEN && ValidLines(lines) && lines != [] && Count(lines[0][0]) != 0
    ensures Data(buf, lines).1 == LineBytes(Fill(buf, lines[0])) + Data(Fill(buf, lines[0]), lines[1..]).1
  {
    hide Fill, LineBytes, Count;
    FillFirst(buf, lines[0]);
  }

  lemma {:induction false} DataFrom(buf: Text, lines: seq<Text>, i: nat, n: nat)
    requires |buf| == MAXPATHLEN && ValidLines(lines) && DataLines(lines, n) && i <= n
    ensures Written(buf, lines, i) + Data(Stored(buf, lines[..i]), lines[i..]).1 == Written(buf, lines, n)
    decreases n - i
  {
    hide Fill, LineBytes, Stored, EndsData, Count, IsEnd;
    var b := Stored(buf, lines[..i]);
    if i < |lines| { EndsDataIff(lines[i]); }
    if i == n {
      DataStops(b, lines[i..]);
      assert Written(buf, lines, n) + [] == Written(buf, lines, n);
    } else {
      DataFrom(buf, lines, i + 1, n);
      StoredNext(buf, lines, i);
      assert lines[i..][1..] == lines[i + 1..];
      DataGoesOn(b, lines[i..]);
      AppendAssociates(Written(buf, lines, i), LineBytes(Fill(b, lines[i])), Data(Fill(b, lines[i]), lines[i + 1..]).1);
    }
  }

  lemma DataWritten(buf: Text, lines: seq<Text>, n: nat)
    requires |buf| == MAXPATHLEN && ValidLines(lines) && DataLines(lines, n)
    ensures Data(buf, lines).1 == Written(buf, lines, n)
  {
    hide Data, Stored, DataLines;
    DataFrom(buf, lines, 0, n);
    StoredNone(buf);
    assert lines[..0] == [] && lines[0..] == lines;
    assert [] + Data(buf, lines).1 == Data(buf, lines).1;
  }

  lemma {:induction false} SearchWrites(sys: System, buf: Text, input: Input, i: nat, h: nat, n: nat)
    requires |buf| == MAXPATHLEN && input.Valid() && i <= h <= |input.lines|
    requires forall k :: 0 <= k < h ==> !IsBegin(input.lines[k])
    requires h < |input.lines| ==> IsBegin(input.lines[h]) && DataLines(input.lines[h + 1..], n)
    ensures Decoded(sys, Stored(buf, input.lines[..i]), input.lines[i..], input.path).1
         == if h == |input.lines| || !Usable(sys, input.path) then []
            else Written(PathBuffer(sys, Stored(buf, input.lines[..h + 1]), input.path), input.lines[h + 1..], n)
    decreases h - i
  {
    hide Stored, Fill, IsBegin, Resolve, PathBuffer, Written, DataLines, Data;
    var lines := input.lines;
    if i < |lines| {
      StoredNext(buf, lines, i);
      assert lines[i..][1..] == lines[i + 1..];
      if i < h {
        SearchWrites(sys, buf, input, i + 1, h, n);
      } else if Usable(sys, input.path) {
        DataWritten(PathBuffer(sys, Stored(buf, lines[..h + 1]), input.path), lines[h + 1..], n);
      }
    }
  }

  /** Every input, accepted or not: nothing is written without a header line and a usable
      output file; otherwise each data line behind the header, whatever follows them, is
      decoded over what the header search, the path and the earlier lines left in the
      buffer. */
  lemma DecodeWrites(sys: System, buf: Text, input: Input, h: nat, n: nat)
    requires |buf| == MAXPATHLEN && input.Valid() && h <= |input.lines|
    requires forall k :: 0 <= k < h ==> !IsBegin(input.lines[k])
    requires h < |input.lines| ==> IsBegin(input.lines[h]) && DataLines(input.lines[h + 1..], n)
    ensures Decoded(sys, buf, input.lines, input.path).1
         == if h == |input.lines| || !Usable(sys, input.path) then []
            else Written(PathBuffer(sys, Stored(buf, input.lines[..h + 1]), input.path), input.lines[h + 1..], n)
  {
    hide Stored, Decoded;
    SearchWrites(sys, buf, input, 0, h, n);
    StoredNone(buf);
    assert input.lines[0..] == input.lines && input.lines[..0] == [];
  }

  // ---------- Round trip ----------

  // The same line up to the choice between a space and a backquote for zero.
  ghost predicate Similar(a: Text, b: Text) {
    && |a| == |b|
    && forall i :: 0 <= i < |a| ==>
         a[i] == b[i] || (a[i] in {SPACE, BACKQUOTE} && b[i] in {SPACE, BACKQUOTE})
  }

  lemma ZeroTwice()
    ensures Dec(SPACE) == 0 && Dec(BACKQUOTE) == 0
  {
  }

  lemma SimilarContent(line: Text, d: Text)
    requires 0 < |d| < 64 && Similar(line, EncodeLine(d))
    ensures ValidLine(line) && Count(line[0]) == |d| && Complete(line) && Content(line) == d
  {
    hide LineBytes, Dec, EncodeLine;
    var e := EncodeLine(d);
    ZeroTwice();
    LineRoundTrip(d, []);
    assert forall i :: 0 <= i < |line| ==> Dec(line[i]) == Dec(e[i]);
    var b := Fill(Blank(), e);
    LineRoundTrip(d, b[|e|..]);
    assert b == e + b[|e|..];
    SameDecoding(Fill(Blank(), line), b);
  }

  function Concat(chunks: seq<Text>): Text {
    if chunks == [] then [] else chunks[0] + Concat(chunks[1..])
  }

  lemma {:induction false} SimilarContents(lines: seq<Text>, chunks: seq<Text>)
    requires ValidLines(lines) && |lines| == |chunks|
    requires forall i :: 0 <= i < |chunks| ==> 0 < |chunks[i]| < 64 && Similar(lines[i], EncodeLine(chunks[i]))
    ensures Contents(lines) == Concat(chunks)
  {
    hide Similar, EncodeLine, Content;
    if lines != [] {
      SimilarContent(lines[0], chunks[0]);
      SimilarContents(lines[1..], chunks[1..]);
    }
  }

  // The input carries the encoding of these chunks: junk, header, one line for each chunk,
  // the empty line and the end, with spaces or backquotes for zeros.
  ghost predicate Carries(lines: seq<Text>, h: nat, chunks: seq<Text>) {
    var z := h + 1 + |chunks|;
    && z + 1 < |lines|
    && IsBegin(lines[h])
    && (forall k :: 0 <= k < h ==> !IsBegin(lines[k]))
    && (forall i :: 0 <= i < |chunks| ==> 0 < |chunks[i]| < 64 && Similar(lines[h + 1 + i], EncodeLine(chunks[i])))
    && Similar(lines[z], [SPACE, NEWLINE])
    && IsEnd(lines[z + 1])
  }

  lemma SimilarEmpty(line: Text)
    requires Similar(line, [SPACE, NEWLINE])
    ensures line != [] && Count(line[0]) == 0
  {
    ZeroTwice();
  }

  /** Decoding an encoding returns 0 and writes exactly the encoded bytes, whatever comes
      before and after it. */
  lemma RoundTrip(sys: System, buf: Text, input: Input, h: nat, chunks: seq<Text>)
    requires |buf| == MAXPATHLEN && input.Valid() && Usable(sys, input.path)
    requires Carries(input.lines, h, chunks)
    ensures Decoded(sys, buf, input.lines, input.path) == (0, Concat(chunks))
  {
    hide Similar, EncodeLine, Content, IsBegin, IsEnd, Complete, Resolve, Decoded, EndsData;
    var lines, z := input.lines, h + 1 + |chunks|;
    forall k | h + 1 <= k < z ensures !EndsData(lines[k]) && Complete(lines[k]) {
      SimilarContent(lines[h + 1 + (k - h - 1)], chunks[k - h - 1]);
      EndsDataIff(lines[k]);
    }
    SimilarEmpty(lines[z]);
    EndsDataIff(lines[z]);
    assert Framed(lines, h, z);
    DecodeOutput(sys, buf, input, h, z);
    var data := lines[h + 1..z];
    assert forall i :: 0 <= i < |chunks| ==> data[i] == lines[h + 1 + i];
    SimilarContents(data, chunks);
  }

  // Cutting data into full lines of 45 bytes and a last shorter one.
  function Cut(data: Text): (chunks: seq<Text>)
    ensures forall i :: 0 <= i < |chunks| ==> 0 < |chunks[i]| <= 45
  {
    if data == [] then [] else if |data| <= 45 then [data] else [data[..45]] + Cut(data[45..])
  }

  function EncodeLines(chunks: seq<Text>): (lines: seq<Text>)
    requires forall i :: 0 <= i < |chunks| ==> 0 < |chunks[i]| < 64
    ensures |lines| == |chunks|
    ensures forall i :: 0 <= i < |chunks| ==> lines[i] == EncodeLine(chunks[i])
  {
    seq(|chunks|, i requires 0 <= i < |chunks| => EncodeLine(chunks[i]))
  }

  // What uuencode writes.
  function Encode(header: Text, data: Text): seq<Text> {
    [header] + EncodeLines(Cut(data)) + [[SPACE, NEWLINE], END]
  }

  lemma {:induction false} CutConcat(data: Text)
    ensures Concat(Cut(data)) == data
    decreases |data|
  {
    if |data| > 45 {
      CutConcat(data[45..]);
      assert data == data[..45] + data[45..];
    } else if data != [] {
      assert Cut(data)[1..] == [];
    }
  }

  lemma HeaderLength(header: Text)
    requires IsBegin(header)
    ensures |header| >= 6
  {
  }

  lemma EncodedLine(chunk: Text)
    requires 0 < |chunk| <= 45
    ensures ValidLine(EncodeLine(chunk)) && Similar(EncodeLine(chunk), EncodeLine(chunk))
  {
    LineRoundTrip(chunk, []);
  }

  lemma EncodedLines(chunks: seq<Text>)
    requires forall i :: 0 <= i < |chunks| ==> 0 < |chunks[i]| <= 45
    ensures forall i :: 0 <= i < |chunks| ==>
              ValidLine(EncodeLines(chunks)[i]) && Similar(EncodeLines(chunks)[i], EncodeLine(chunks[i]))
  {
    hide EncodeLine, EncodeLines, Similar, ValidLine;
    forall i | 0 <= i < |chunks|
      ensures ValidLine(EncodeLines(chunks)[i]) && Similar(EncodeLines(chunks)[i], EncodeLine(chunks[i]))
    {
      EncodedLine(chunks[i]);
    }
  }

  lemma EndMarks()
    ensures Similar([SPACE, NEWLINE], [SPACE, NEWLINE]) && IsEnd(END)
    ensures ValidLine([SPACE, NEWLINE]) && ValidLine(END)
  {
  }

  lemma EncodedCarries(header: Text, data: Text)
    requires IsBegin(header) && |header| < MAXPATHLEN
    ensures ValidLines(Encode(header, data))
    ensures Carries(Encode(header, data), 0, Cut(data))
  {
    hide EncodeLine, EncodeLines, Similar, IsBegin, Cut;
    var chunks, lines := Cut(data), Encode(header, data);
    HeaderLength(header);
    EncodedLines(chunks);
    EndMarks();
    assert forall i :: 0 <= i < |chunks| ==> lines[0 + 1 + i] == EncodeLines(chunks)[i];
  }

  /** Encoding any bytes and decoding the result gives the bytes back. */
  lemma EncodeDecode(sys: System, buf: Text, header: Text, data: Text, path: Text)
    requires |buf| == MAXPATHLEN && IsBegin(header) && |header| < MAXPATHLEN
    requires Usable(sys, path) && |path| < MAXPATHLEN && 0 !in path
    ensures ValidLines(Encode(header, data))
    ensures Decoded(sys, buf, Encode(header, data), path) == (0, data)
  {
    hide IsBegin, Resolve, Decoded, Cut, Encode, Carries;
    EncodedCarries(header, data);
    RoundTrip(sys, buf, Input(Encode(header, data), path), 0, Cut(data));
    CutConcat(data);
  }

  // ---------- One line in letters ----------

  lemma CatEncoded()
    ensures EncodeLine([0x43, 0x61, 0x74]) == [0x23, 0x30, 0x56, 0x25, 0x54, 0x0A]
  {
    var cat := [0x43, 0x61, 0x74];
    assert Pad(cat) == cat;
    assert cat[..0] == [];
    assert EncodeTriples(cat) == Quad(0x43, 0x61, 0x74);
  }

  /** The line "#0V%T" stands for "Cat". */
  lemma CatLine()
    ensures EncodeLine([0x43, 0x61, 0x74]) == [0x23, 0x30, 0x56, 0x25, 0x54, 0x0A]
    ensures LineBytes([0x23, 0x30, 0x56, 0x25, 0x54, 0x0A]) == [0x43, 0x61, 0x74]
  {
    var cat, line := [0x43, 0x61, 0x74], [0x23, 0x30, 0x56, 0x25, 0x54, 0x0A];
    CatEncoded();
    LineRoundTrip(cat, []);
    assert line + [] == line;
  }
}
