/** The uudecode program (zork/files/uudecode.c): header search, ~user paths, data
    lines, trailer, and several input files.

    The line buffer keeps what earlier reads left behind the terminator, and the decoder
    may look at it; the model keeps it too. */
module Uudecode {
  import opened Strings
  import opened UuCodec

  const MAXPATHLEN := 4096
  const SLASH: bv8 := 0x2F
  const TILDE: bv8 := 0x7E
  const BEGIN: Text := [0x62, 0x65, 0x67, 0x69, 0x6E, 0x20]  // "begin "
  const END: Text := [0x65, 0x6E, 0x64, 0x0A]                // "end\n"

  // What fgets delivers: at least one character, and it fits the buffer.
  ghost predicate ValidLine(line: Text) { 0 < |line| < MAXPATHLEN }

  ghost predicate ValidLines(lines: seq<Text>) {
    forall i :: 0 <= i < |lines| ==> ValidLine(lines[i])
  }

  // The contents of the buffer after a C string has been stored at its start.
  function Fill(buf: Text, line: Text): (buf': Text)
    requires |line| < |buf|
    ensures |buf'| == |buf|
  {
    line + [0] + buf[|line| + 1..]
  }

  // strncmp(buf, "begin ", 6) == 0 after reading the line
  predicate IsBegin(line: Text) { BEGIN <= line }

  // strcmp(buf, "end\n") == 0 after reading the line
  predicate IsEnd(line: Text) {
    END <= line && (|line| == 4 || line[4] == 0)
  }

  lemma WordBytes(word: Text, text: string)
    requires (word == BEGIN && text == "begin ") || (word == END && text == "end\n")
    ensures |word| == |text| && forall i :: 0 <= i < |word| ==> word[i] as char == text[i]
  {
  }

  lemma SameLetter(a: bv8, b: bv8)
    ensures a as char == b as char <==> a == b
  {
  }

  lemma Spelled(line: Text, word: Text, text: string)
    requires |word| == |text| && forall i :: 0 <= i < |word| ==> word[i] as char == text[i]
    ensures word <= line <==> |line| >= |text| && forall i :: 0 <= i < |text| ==> line[i] as char == text[i]
  {
    if |line| >= |text| && forall i :: 0 <= i < |text| ==> line[i] as char == text[i] {
      forall i | 0 <= i < |word| ensures line[i] == word[i] {
        SameLetter(line[i], word[i]);
      }
    }
  }

  /** The words the program looks for, in letters. */
  lemma Words(line: Text)
    ensures IsBegin(line) <==> |line| >= 6 && forall i :: 0 <= i < 6 ==> line[i] as char == "begin "[i]
    ensures IsEnd(line) <==> && |line| >= 4 && (forall i :: 0 <= i < 4 ==> line[i] as char == "end\n"[i])
                             && (|line| == 4 || line[4] == 0)
  {
    WordBytes(BEGIN, "begin ");
    WordBytes(END, "end\n");
    Spelled(line, BEGIN, "begin ");
    Spelled(line, END, "end\n");
  }

  lemma StartsBuffer(buf: Text, line: Text, word: Text)
    requires |line| < |buf| && |word| <= |buf| && (forall i :: 0 <= i < |word| ==> word[i] != 0)
    ensures Fill(buf, line)[..|word|] == word <==> word <= line
  {
    var b := Fill(buf, line);
    assert |line| < |word| ==> b[..|word|][|line|] == 0;
    assert forall i :: 0 <= i < |word| && i < |line| ==> b[..|word|][i] == line[i];
  }

  lemma EndInBuffer(buf: Text, line: Text)
    requires |line| < |buf| == MAXPATHLEN
    ensures Fill(buf, line)[..5] == END + [0] <==> IsEnd(line)
  {
    var b := Fill(buf, line);
    StartsBuffer(buf, line, END);
    assert b[..5] == b[..4] + [b[4]];
  }

  // ---------- Specification of a run over one input ----------

  // From the line after the header on: the return value and the bytes written.
  function Data(buf: Text, lines: seq<Text>): (int, Text)
    requires |buf| == MAXPATHLEN && ValidLines(lines)
    decreases |lines|
  {
    if lines == [] then (1, [])
    else
      var buf' := Fill(buf, lines[0]);
      if Count(buf'[0]) == 0 then (if |lines| > 1 && IsEnd(lines[1]) then 0 else 1, [])
      else
        var (rval, out) := Data(buf', lines[1..]);
        (rval, LineBytes(buf') + out)
  }

  // The user database and the file system: home directories by user name, and whether
  // the output file can be opened and given its mode.
  datatype System = System(home: Text -> Option<Text>, opens: Text -> bool) {
    ghost predicate Valid() {
      forall user: Text :: home(user).Some? ==> 0 !in home(user).value
    }
  }

  // Lines as fgets delivers them, and the path that sscanf finds in the header line.
  datatype Input = Input(lines: seq<Text>, path: Text) {
    ghost predicate Valid() {
      ValidLines(lines) && |path| < MAXPATHLEN && 0 !in path
    }
  }

  // The file named by a header path; None when ~user cannot be resolved or is too long.
  function Resolve(sys: System, path: Text): Option<Text> {
    if path == [] || path[0] != TILDE then Some(path)
    else
      match StrChr(path, SLASH, 0)
      case None => None
      case Some(k) =>
        match sys.home(path[1..k])
        case None => None
        case Some(home) =>
          var tail := path[k + 1..];
          if |home| + |tail| + 2 > MAXPATHLEN then None else Some(home + [SLASH] + tail)
  }

  // The buffer once the path in it has been rewritten.
  function PathBuffer(sys: System, buf: Text, path: Text): (b: Text)
    requires |buf| == MAXPATHLEN && |path| < MAXPATHLEN && Resolve(sys, path).Some?
    ensures |b| == MAXPATHLEN
  {
    if path == [] || path[0] != TILDE then Fill(buf, path)
    else Fill(Fill(buf, path)[StrChr(path, SLASH, 0).value := 0], Resolve(sys, path).value)
  }

  function Body(sys: System, buf: Text, path: Text, lines: seq<Text>): (int, Text)
    requires |buf| == MAXPATHLEN && |path| < MAXPATHLEN && ValidLines(lines)
  {
    match Resolve(sys, path)
    case None => (1, [])
    case Some(file) =>
      if !sys.opens(file) then (1, []) else Data(PathBuffer(sys, buf, path), lines)
  }

  function Decoded(sys: System, buf: Text, lines: seq<Text>, path: Text): (int, Text)
    requires |buf| == MAXPATHLEN && |path| < MAXPATHLEN && ValidLines(lines)
    decreases |lines|
  {
    if lines == [] then (1, [])
    else if IsBegin(lines[0]) then Body(sys, Fill(buf, lines[0]), path, lines[1..])
    else Decoded(sys, Fill(buf, lines[0]), lines[1..], path)
  }

  // index and strlen on the C string that starts at position i
  function CIndex(t: Text, c: bv8, i: nat): Option<nat>
    requires i <= |t|
    decreases |t| - i
  {
    if i == |t| then None else if t[i] == c then Some(i) else if t[i] == 0 then None else CIndex(t, c, i + 1)
  }

  function CLength(t: Text, i: nat): (n: nat)
    requires i <= |t|
    ensures i + n <= |t|
    decreases |t| - i
  {
    if i == |t| || t[i] == 0 then 0 else 1 + CLength(t, i + 1)
  }

  lemma {:induction false} StoredIndex(b: Text, path: Text, c: bv8, i: nat)
    requires i <= |path| < |b| && 0 !in path && c != 0
    ensures CIndex(Fill(b, path), c, i) == StrChr(path, c, i)
    decreases |path| - i
  {
    if i < |path| {
      assert Fill(b, path)[i] == path[i] && path[i] in path;
      StoredIndex(b, path, c, i + 1);
    }
  }

  lemma {:induction false} StoredLength(b: Text, path: Text, i: nat)
    requires i <= |path| < |b| && 0 !in path
    requires forall k :: i <= k < |path| ==> b[k] == path[k]
    requires b[|path|] == 0
    ensures CLength(b, i) == |path| - i
    decreases |path| - i
  {
    if i < |path| {
      assert path[i] in path;
      StoredLength(b, path, i + 1);
    }
  }

  // ---------- The program ----------

  /** Storing a C string at the start of the buffer, as fgets and sscanf do. */
  method Store(buf: array<bv8>, line: Text)
    requires |line| < buf.Length
    modifies buf
    ensures buf[..] == Fill(old(buf[..]), line)
  {
    forall i | 0 <= i < |line| {
      buf[i] := line[i];
    }
    buf[|line|] := 0;
  }

  /** bcopy within the buffer; source and destination may overlap. */
  method Bcopy(buf: array<bv8>, src: nat, dst: nat, len: nat)
    requires src + len <= buf.Length && dst + len <= buf.Length
    modifies buf
    ensures buf[..] == old(buf[..dst]) + old(buf[src..src + len]) + old(buf[dst + len..])
  {
    forall i | 0 <= i < len {
      buf[dst + i] := buf[src + i];
    }
  }

  // bcopy of n bytes from elsewhere to the start of the buffer
  method Overwrite(buf: array<bv8>, bytes: Text)
    requires |bytes| <= buf.Length
    modifies buf
    ensures buf[..] == bytes + old(buf[|bytes|..])
  {
    forall i | 0 <= i < |bytes| {
      buf[i] := bytes[i];
    }
  }

  // The buffer when the tail with its terminator has moved to n + 1.
  function MovedTail(was: Text, k: nat, n: nat, n1: nat): (t: Text)
    requires k + n1 + 1 < |was| && n + n1 + 2 <= |was|
    ensures |t| == |was|
  {
    was[..n + 1] + was[k + 1..k + 1 + n1 + 1] + was[n + 1 + n1 + 1..]
  }

  lemma RewrittenBuffer(was: Text, k: nat, n1: nat, home: Text)
    requires k + n1 + 1 < |was| && |home| + n1 + 2 <= |was| && was[k + 1 + n1] == 0
    ensures (home + MovedTail(was, k, |home|, n1)[|home|..])[|home| := SLASH]
         == Fill(was, home + [SLASH] + was[k + 1..k + 1 + n1])
  {
  }

  /** Tail and terminator move behind the home directory, which then goes in front. */
  method InsertHome(buf: array<bv8>, k: nat, home: Text, n1: nat)
    requires k + n1 + 1 < buf.Length && |home| + n1 + 2 <= buf.Length && buf[k + 1 + n1] == 0
    modifies buf
    ensures buf[..] == Fill(old(buf[..]), home + [SLASH] + old(buf[k + 1..k + 1 + n1]))
  {
    hide Fill;
    ghost var was := buf[..];
    var n := |home|;
    assert was[k + 1..k + 1 + n1] == buf[k + 1..k + 1 + n1];
    RewrittenBuffer(was, k, n1, home);
    Bcopy(buf, k + 1, n + 1, n1 + 1);
    assert buf[..] == MovedTail(was, k, n, n1);
    hide MovedTail;
    Overwrite(buf, home);
    assert buf[..] == home + MovedTail(was, k, n, n1)[n..];
    buf[n] := SLASH;
  }

  predicate TildeFirst(path: Text) { path != [] && path[0] == TILDE }

  lemma StoredPath(b: Text, path: Text)
    requires |b| == MAXPATHLEN && |path| < MAXPATHLEN
    ensures Fill(b, path)[0] == TILDE <==> TildeFirst(path)
  {
  }

  lemma PlainPath(sys: System, b: Text, path: Text)
    requires |b| == MAXPATHLEN && |path| < MAXPATHLEN && !TildeFirst(path)
    ensures Resolve(sys, path).Some? && PathBuffer(sys, b, path) == Fill(b, path)
  {
    hide Fill;
  }

  lemma UnresolvedPath(sys: System, path: Text)
    requires TildeFirst(path)
    requires StrChr(path, SLASH, 0).None? || sys.home(path[1..StrChr(path, SLASH, 0).value]).None?
    ensures Resolve(sys, path) == None
  {
  }

  lemma TildeBuffer(sys: System, b: Text, path: Text, k: nat, home: Text)
    requires |b| == MAXPATHLEN && |path| < MAXPATHLEN && TildeFirst(path)
    requires StrChr(path, SLASH, 0) == Some(k) && sys.home(path[1..k]) == Some(home)
    ensures Resolve(sys, path).Some? <==> |home| + |path[k + 1..]| + 2 <= MAXPATHLEN
    ensures Resolve(sys, path).Some? ==>
              PathBuffer(sys, b, path) == Fill(Fill(b, path)[k := 0], home + [SLASH] + path[k + 1..])
  {
    hide Fill;
  }

  // User name and tail can still be read once the slash has become a terminator.
  lemma CutPath(b: Text, path: Text, k: nat)
    requires |b| == MAXPATHLEN && 0 < k < |path| < MAXPATHLEN && 0 !in path
    ensures var cut := Fill(b, path)[k := 0];
            && cut[1..k] == path[1..k]
            && CLength(cut, k + 1) == |path| - k - 1
            && cut[k + 1..|path|] == path[k + 1..] && cut[|path|] == 0
  {
    StoredLength(Fill(b, path)[k := 0], path, k + 1);
  }

  /** The rewriting of ~user/file in place. */
  method RewritePath(sys: System, buf: array<bv8>, ghost b: Text, ghost path: Text) returns (ok: bool)
    requires buf.Length == |b| == MAXPATHLEN && |path| < MAXPATHLEN && 0 !in path
    requires buf[..] == Fill(b, path)
    modifies buf
    ensures ok <==> Resolve(sys, path).Some?
    ensures ok ==> buf[..] == PathBuffer(sys, b, path)
  {
    hide StrChr, Fill, Resolve, PathBuffer, CIndex, CLength;
    StoredPath(b, path);
    if buf[0] != TILDE {
      PlainPath(sys, b, path);
      return true;
    }
    StoredIndex(b, path, SLASH, 0);
    var slash := CIndex(buf[..], SLASH, 0);
    if slash == None {
      UnresolvedPath(sys, path);
      return false;
    }
    var k := slash.value;
    CutPath(b, path, k);
    buf[k] := 0;
    ghost var cut := Fill(b, path)[k := 0];
    assert buf[..] == cut;
    var user := buf[1..k];
    assert user == cut[1..k];
    var pw := sys.home(user);
    if pw == None {
      UnresolvedPath(sys, path);
      return false;
    }
    var home := pw.value;
    TildeBuffer(sys, b, path, k, home);
    var n, n1 := |home|, CLength(buf[..], k + 1);
    if n + n1 + 2 > MAXPATHLEN { return false; }
    assert buf[k + 1..k + 1 + n1] == cut[k + 1..|path|];
    InsertHome(buf, k, home, n1);
    ok := true;
  }

  lemma ResolvedIsString(sys: System, path: Text, b: Text)
    requires sys.Valid() && 0 !in path && Resolve(sys, path).Some?
    requires |path| < MAXPATHLEN && |b| == MAXPATHLEN
    ensures var file := Resolve(sys, path).value;
            && |file| < MAXPATHLEN && 0 !in file
            && PathBuffer(sys, b, path)[..CLength(PathBuffer(sys, b, path), 0)] == file
  {
    var file := Resolve(sys, path).value;
    var b' := PathBuffer(sys, b, path);
    StoredLength(b', file, 0);
  }

  lemma AppendAssociates(a: Text, b: Text, c: Text)
    ensures (a + b) + c == a + (b + c)
  {
  }

  method DecodeBody(lines: seq<Text>, start: nat, buf: array<bv8>) returns (rval: int, out: Text)
    requires ValidLines(lines) && start <= |lines| && buf.Length == MAXPATHLEN
    modifies buf
    ensures (rval, out) == Data(old(buf[..]), lines[start..])
  {
    hide Fill, Dec, LineBytes, IsEnd;
    var i := start;
    out := [];
    ghost var whole := Data(buf[..], lines[start..]);
    assert [] + whole.1 == whole.1;
    while true
      invariant start <= i <= |lines|
      invariant whole.0 == Data(buf[..], lines[i..]).0
      invariant whole.1 == out + Data(buf[..], lines[i..]).1
      decreases |lines| - i
    {
      assert out + [] == out;
      if i == |lines| { return 1, out; }
      assert lines[i..][1..] == lines[i + 1..];
      Store(buf, lines[i]);
      if Count(buf[0]) == 0 { break; }
      i := i + 1;
      ghost var b := buf[..];
      AppendAssociates(out, LineBytes(b), Data(b, lines[i..]).1);
      out := DecodeLine(buf, out);
    }
    assert whole.1 == out && whole.0 == if i + 1 < |lines| && IsEnd(lines[i..][1]) then 0 else 1;
    i := i + 1;
    if i == |lines| { return 1, out; }
    EndInBuffer(buf[..], lines[i]);
    Store(buf, lines[i]);
    rval := if buf[..5] == END + [0] then 0 else 1;
  }

  method Decode(sys: System, input: Input, buf: array<bv8>) returns (rval: int, out: Text)
    requires sys.Valid() && input.Valid() && buf.Length == MAXPATHLEN
    modifies buf
    ensures (rval, out) == Decoded(sys, old(buf[..]), input.lines, input.path)
  {
    hide Fill, Resolve, PathBuffer, Dec, LineBytes, IsEnd;
    var lines := input.lines;
    var i := 0;
    out := [];
    var found := false;
    while !found
      invariant i <= |lines|
      invariant !found ==>
                  Decoded(sys, buf[..], lines[i..], input.path) == Decoded(sys, old(buf[..]), lines, input.path)
      invariant found ==> Body(sys, buf[..], input.path, lines[i..]) == Decoded(sys, old(buf[..]), lines, input.path)
      decreases |lines| - i, !found
    {
      if i == |lines| { return 1, []; }
      ghost var was := buf[..];
      Store(buf, lines[i]);
      StartsBuffer(was, lines[i], BEGIN);
      found := buf[..6] == BEGIN;
      assert lines[i..][1..] == lines[i + 1..];
      i := i + 1;
    }
    ghost var b := buf[..];
    Store(buf, input.path);
    var ok := RewritePath(sys, buf, b, input.path);
    if !ok { return 1, []; }
    ResolvedIsString(sys, input.path, b);
    if !sys.opens(buf[..CLength(buf[..], 0)]) { return 1, []; }
    rval, out := DecodeBody(lines, i, buf);
  }

  /** Paths without a tilde in front are taken as they are; with one, but without a slash,
      they are refused. */
  lemma OtherPaths(sys: System, path: Text)
    ensures path == [] || path[0] as char != '~' ==> Resolve(sys, path) == Some(path)
    ensures path != [] && path[0] as char == '~' && 0x2F !in path ==> Resolve(sys, path) == None
  {
    if path != [] { SameLetter(path[0], TILDE); }
  }

  /** What the rewriting of ~user/tail comes to: the home directory, a slash and the tail,
      refused exactly when the user is unknown or the text would not fit 4096 characters
      with its terminator. */
  lemma TildePath(sys: System, user: Text, tail: Text)
    requires 0x2F !in user
    ensures 0x7E as char == '~' && 0x2F as char == '/'
    ensures Resolve(sys, [0x7E] + user + [0x2F] + tail)
         == match sys.home(user)
            case None => None
            case Some(home) =>
              if |home| + 1 + |tail| + 1 <= 4096 then Some(home + [0x2F] + tail) else None
  {
    var path, k := [TILDE] + user + [SLASH] + tail, 1 + |user|;
    assert path[k] == SLASH;
    forall i | 0 <= i < k ensures path[i] != SLASH {
      assert i > 0 ==> path[i] == user[i - 1] && user[i - 1] in user;
    }
    assert path[1..k] == user && path[k + 1..] == tail;
  }
}
