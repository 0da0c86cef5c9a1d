/** The pdl record of airprint-generate.py (airprint/files/airprint-generate.py:71-100,
    184-210): which document formats are announced, and how the list is cut to fit. */
module AirPrint {
  import opened Strings

  // Formats to announce first (true) and never to announce (false).
  const DOCUMENT_TYPES: map<string, bool> := map[
    "application/pdf" := true,
    "application/postscript" := true,
    "application/vnd.cups-raster" := true,
    "application/octet-stream" := true,
    "image/urf" := true,
    "image/png" := true,
    "image/tiff" := true,
    "image/jpeg" := true,
    "image/gif" := true,
    "text/plain" := true,
    "text/html" := true,
    "image/x-xwindowdump" := false,
    "image/x-xpixmap" := false,
    "image/x-xbitmap" := false,
    "image/x-sun-raster" := false,
    "image/x-sgi-rgb" := false,
    "image/x-portable-pixmap" := false,
    "image/x-portable-graymap" := false,
    "image/x-portable-bitmap" := false,
    "image/x-portable-anymap" := false,
    "application/x-shell" := false,
    "application/x-perl" := false,
    "application/x-csource" := false,
    "application/x-cshell" := false]

  datatype Class = Preferred | Suppressed | Unknown

  function Classify(format: string): Class {
    if format in DOCUMENT_TYPES then (if DOCUMENT_TYPES[format] then Preferred else Suppressed) else Unknown
  }

  // ---------- Partition ----------

  function Select(formats: seq<string>, c: Class): seq<string> {
    if formats == [] then []
    else
      var n := |formats| - 1;
      if Classify(formats[n]) == c then Select(formats[..n], c) + [formats[n]] else Select(formats[..n], c)
  }

  lemma ClassOf(a: string)
    ensures a in DOCUMENT_TYPES && DOCUMENT_TYPES[a] <==> Classify(a) == Preferred
    ensures a !in DOCUMENT_TYPES <==> Classify(a) == Unknown
  {
  }

  method Partition(formats: seq<string>) returns (fmts: seq<string>, defer: seq<string>)
    ensures fmts == Select(formats, Preferred)
    ensures defer == Select(formats, Unknown)
  {
    hide Classify;
    fmts, defer := [], [];
    for i := 0 to |formats|
      invariant fmts == Select(formats[..i], Preferred) && defer == Select(formats[..i], Unknown)
    {
      var a := formats[i];
      assert formats[..i + 1][..i] == formats[..i];
      ClassOf(a);
      if a in DOCUMENT_TYPES {
        if DOCUMENT_TYPES[a] {
          fmts := fmts + [a];
        }
      } else {
        defer := defer + [a];
      }
    }
    assert formats[..|formats|] == formats;
  }

  // xs appears in ys, in order.
  predicate IsSubsequence(xs: seq<string>, ys: seq<string>) {
    if xs == [] then true
    else if ys == [] then false
    else if xs[|xs| - 1] == ys[|ys| - 1] then IsSubsequence(xs[..|xs| - 1], ys[..|ys| - 1])
    else IsSubsequence(xs, ys[..|ys| - 1])
  }

  lemma {:induction false} SelectSubsequence(formats: seq<string>, c: Class)
    ensures IsSubsequence(Select(formats, c), formats)
    ensures forall f :: f in Select(formats, c) <==> f in formats && Classify(f) == c
  {
    hide Classify;
    if formats != [] {
      var n := |formats| - 1;
      SelectSubsequence(formats[..n], c);
      assert formats == formats[..n] + [formats[n]];
      if Classify(formats[n]) == c {
        assert Select(formats, c)[..|Select(formats, c)| - 1] == Select(formats[..n], c);
      } else {
        var s := Select(formats, c);
        if s != [] { assert s[|s| - 1] in s; }
      }
    }
  }

  /** Nothing is lost or invented: preferred, suppressed and unknown formats together are
      the printer's formats, and each class keeps the printer's order. */
  lemma {:induction false} PartitionConserves(formats: seq<string>)
    ensures multiset(formats)
         == multiset(Select(formats, Preferred)) + multiset(Select(formats, Suppressed))
            + multiset(Select(formats, Unknown))
  {
    hide Classify;
    if formats != [] {
      PartitionConserves(formats[..|formats| - 1]);
      assert formats == formats[..|formats| - 1] + [formats[|formats| - 1]];
    }
  }

  // ---------- Truncation ----------

  const LIMIT := 255

  function Pdl(fmts: string): string { "pdl=" + fmts }

  // str.join
  function Joined(items: seq<string>): string {
    if items == [] then "" else Join(items, ',')
  }

  function LastComma(s: string, end: nat): (r: Option<nat>)
    requires end <= |s|
    ensures r.Some? ==> r.value < end && s[r.value] == ',' && (forall k :: r.value < k < end ==> s[k] != ',')
    ensures r.None? ==> forall k :: 0 <= k < end ==> s[k] != ','
  {
    if end == 0 then None else if s[end - 1] == ',' then Some(end - 1) else LastComma(s, end - 1)
  }

  function Reverse(xs: seq<string>): seq<string> {
    if xs == [] then [] else Reverse(xs[1..]) + [xs[0]]
  }

  // ValueError: rsplit found no comma to split at.
  datatype Truncation = Fits(fmts: string, dropped: seq<string>) | ValueError

  lemma {:induction false} JoinSnoc(items: seq<string>, x: string)
    requires |items| > 0
    ensures Join(items + [x], ',') == Join(items, ',') + "," + x
  {
    if |items| == 1 {
      assert (items + [x])[1..] == [x];
    } else {
      assert (items + [x])[1..] == items[1..] + [x];
      JoinSnoc(items[1..], x);
    }
  }

  lemma PrefixStep(pieces: seq<string>, k: nat)
    requires 1 < k <= |pieces|
    ensures Join(pieces[..k], ',') == Join(pieces[..k - 1], ',') + "," + pieces[k - 1]
  {
    assert pieces[..k] == pieces[..k - 1] + [pieces[k - 1]];
    JoinSnoc(pieces[..k - 1], pieces[k - 1]);
  }

  lemma CommaFound(head: string, last: string)
    requires ',' !in last
    ensures LastComma(head + "," + last, |head + "," + last|) == Some(|head|)
  {
    var s := head + "," + last;
    assert s[|head|] == ',';
    assert forall k :: |head| < k < |s| ==> s[k] == last[k - |head| - 1] && last[k - |head| - 1] in last;
  }

  lemma {:induction false} ReversedAt(xs: seq<string>)
    ensures |Reverse(xs)| == |xs|
    ensures forall i :: 0 <= i < |xs| ==> Reverse(xs)[i] == xs[|xs| - 1 - i]
  {
    if xs != [] { ReversedAt(xs[1..]); }
  }

  lemma ReverseSnocFront(xs: seq<string>, k: nat)
    requires 0 < k <= |xs|
    ensures Reverse(xs[k - 1..]) == Reverse(xs[k..]) + [xs[k - 1]]
  {
    assert xs[k - 1..][1..] == xs[k..];
  }

  lemma EmptyReverse()
    ensures Reverse([]) == []
  {
  }

  lemma FirstPiece(pieces: seq<string>)
    requires |pieces| > 0 && (forall f :: f in pieces ==> ',' !in f)
    ensures Join(pieces[..1], ',') == pieces[0]
    ensures LastComma(pieces[0], |pieces[0]|) == None
  {
    assert pieces[0] in pieces;
    assert forall i :: 0 <= i < |pieces[0]| ==> pieces[0][i] in pieces[0];
  }

  lemma {:induction false} JoinGrows(pieces: seq<string>, j: nat, k: nat)
    requires 1 <= j <= k <= |pieces|
    ensures |Join(pieces[..j], ',')| + (k - j) <= |Join(pieces[..k], ',')|
    decreases k - j
  {
    if j < k {
      JoinGrows(pieces, j, k - 1);
      PrefixStep(pieces, k);
    }
  }

  lemma FirstFits(pieces: seq<string>, k: nat)
    requires 1 <= k <= |pieces| && |Pdl(Join(pieces[..k], ','))| < LIMIT
    ensures |Pdl(pieces[0])| < LIMIT
  {
    JoinGrows(pieces, 1, k);
    assert pieces[..1] == [pieces[0]];
  }

  /** The loop, for any text at all: the pieces between commas that are kept make up the
      text, and one more piece would be too many. */
  method Truncate(text: string) returns (r: Truncation)
    ensures r == ValueError <==> |Pdl(Split(text, ',')[0])| >= LIMIT
    ensures r.Fits? ==> |r.dropped| < |Split(text, ',')| && |Pdl(r.fmts)| < LIMIT
    ensures r.Fits? ==> var pieces := Split(text, ','); var k := |pieces| - |r.dropped|;
                        && r.fmts == Join(pieces[..k], ',')
                        && r.dropped == Reverse(pieces[k..])
                        && (forall i :: 0 <= i < |r.dropped| ==> r.dropped[i] == pieces[|pieces| - 1 - i])
                        && (k < |pieces| ==> |Pdl(Join(pieces[..k + 1], ','))| >= LIMIT)
  {
    hide Split, Join, Reverse, LastComma;
    ghost var pieces := Split(text, ',');
    JoinSplit(text, ',');
    ghost var k := |pieces|;
    assert pieces[..k] == pieces && pieces[k..] == [];
    var fmts, dropped := text, [];
    EmptyReverse();
    while |Pdl(fmts)| >= LIMIT
      invariant 1 <= k <= |pieces| && k == |pieces| - |dropped|
      invariant fmts == Join(pieces[..k], ',') && dropped == Reverse(pieces[k..])
      invariant k < |pieces| ==> |Pdl(Join(pieces[..k + 1], ','))| >= LIMIT
      decreases k
    {
      var comma := LastComma(fmts, |fmts|);
      FirstPiece(pieces);
      assert pieces[k - 1] in pieces;
      if k > 1 {
        PrefixStep(pieces, k);
        CommaFound(Join(pieces[..k - 1], ','), pieces[k - 1]);
        ReverseSnocFront(pieces, k);
      } else {
        assert comma == None;
      }
      if comma == None { return ValueError; }
      var drop := fmts[comma.value + 1..];
      fmts := fmts[..comma.value];
      dropped := dropped + [drop];
      k := k - 1;
    }
    FirstFits(pieces, k);
    ReversedAt(pieces[k..]);
    r := Fits(fmts, dropped);
  }

  // ---------- The record ----------

  // The formats announced if there were no limit.
  function Items(formats: seq<string>): seq<string> {
    Select(formats, Preferred) + Select(formats, Unknown)
  }

  /** The formats to announce first. */
  lemma PreferredFormats(f: string)
    ensures Classify(f) == Preferred <==>
            f in ["application/pdf", "application/postscript", "application/vnd.cups-raster",
                  "application/octet-stream", "image/urf", "image/png", "image/tiff", "image/jpeg",
                  "image/gif", "text/plain", "text/html"]
  {
  }

  /** The formats never to announce. */
  lemma SuppressedFormats(f: string)
    ensures Classify(f) == Suppressed <==>
            f in ["image/x-xwindowdump", "image/x-xpixmap", "image/x-xbitmap", "image/x-sun-raster",
                  "image/x-sgi-rgb", "image/x-portable-pixmap", "image/x-portable-graymap",
                  "image/x-portable-bitmap", "image/x-portable-anymap", "application/x-shell",
                  "application/x-perl", "application/x-csource", "application/x-cshell"]
  {
  }

  // A list as it should be announced: no suppressed format, none of the unknown ones
  // before a preferred one, and those of each class as the printer lists them.
  ghost predicate Announced(formats: seq<string>, items: seq<string>) {
    && (forall i :: 0 <= i < |items| ==> Classify(items[i]) != Suppressed)
    && (forall i, j :: 0 <= i < j < |items| ==> !(Classify(items[i]) == Unknown && Classify(items[j]) == Preferred))
    && Select(items, Preferred) == Select(formats, Preferred)
    && Select(items, Unknown) == Select(formats, Unknown)
  }

  lemma {:induction false} SelectAppend(a: seq<string>, b: seq<string>, c: Class)
    ensures Select(a + b, c) == Select(a, c) + Select(b, c)
  {
    hide Classify;
    if b == [] {
      assert a + b == a;
    } else {
      var n := |b| - 1;
      assert (a + b)[..|a + b| - 1] == a + b[..n];
      SelectAppend(a, b[..n], c);
    }
  }

  lemma {:induction false} SelectSame(xs: seq<string>, c: Class, other: Class)
    requires forall i :: 0 <= i < |xs| ==> Classify(xs[i]) == c
    ensures Select(xs, c) == xs
    ensures other != c ==> Select(xs, other) == []
  {
    hide Classify;
    if xs != [] {
      SelectSame(xs[..|xs| - 1], c, other);
      assert xs == xs[..|xs| - 1] + [xs[|xs| - 1]];
    }
  }

  lemma SelectedClass(formats: seq<string>, c: Class)
    ensures forall i :: 0 <= i < |Select(formats, c)| ==> Classify(Select(formats, c)[i]) == c
  {
    hide Classify, Select;
    SelectSubsequence(formats, c);
    forall i | 0 <= i < |Select(formats, c)| ensures Classify(Select(formats, c)[i]) == c {
      assert Select(formats, c)[i] in Select(formats, c);
    }
  }

  // Such a list is its preferred part followed by its unknown part.
  lemma {:induction false} InTwoParts(items: seq<string>)
    requires forall i :: 0 <= i < |items| ==> Classify(items[i]) != Suppressed
    requires forall i, j :: 0 <= i < j < |items| ==> !(Classify(items[i]) == Unknown && Classify(items[j]) == Preferred)
    ensures items == Select(items, Preferred) + Select(items, Unknown)
  {
    hide Classify;
    if items != [] {
      var n := |items| - 1;
      var past := items[..n];
      InTwoParts(past);
      assert items == past + [items[n]];
      if Classify(items[n]) == Preferred {
        forall i | 0 <= i < n ensures Classify(past[i]) == Preferred { assert past[i] == items[i]; }
        SelectSame(past, Preferred, Unknown);
      } else {
        assert Classify(items[n]) == Unknown;
      }
    }
  }

  /** There is exactly one such list, the one the program announces. */
  lemma AnnouncedExact(formats: seq<string>, items: seq<string>)
    ensures Announced(formats, items) <==> items == Items(formats)
  {
    hide Classify, Select;
    var a, b := Select(formats, Preferred), Select(formats, Unknown);
    SelectedClass(formats, Preferred);
    SelectedClass(formats, Unknown);
    SelectSame(a, Preferred, Unknown);
    SelectSame(b, Unknown, Preferred);
    SelectAppend(a, b, Preferred);
    SelectAppend(a, b, Unknown);
    assert a + [] == a && [] + b == b;
    if Announced(formats, items) { InTwoParts(items); }
  }

  // What the formats come to once joined: a format name with commas counts as several.
  function Pieces(items: seq<string>): (pieces: seq<string>)
    ensures forall f :: f in pieces ==> ',' !in f
    ensures |pieces| >= |items|
  {
    if items == [] then [] else Split(items[0], ',') + Pieces(items[1..])
  }

  lemma {:induction false} JoinAppend(a: seq<string>, b: seq<string>)
    requires |a| > 0 && |b| > 0
    ensures Join(a + b, ',') == Join(a, ',') + "," + Join(b, ',')
  {
    if |a| == 1 {
      assert (a + b)[1..] == b;
    } else {
      JoinAppend(a[1..], b);
      assert (a + b)[1..] == a[1..] + b;
    }
  }

  lemma {:induction false} JoinPieces(items: seq<string>)
    requires |items| > 0
    ensures Join(Pieces(items), ',') == Join(items, ',')
  {
    var first := Split(items[0], ',');
    JoinSplit(items[0], ',');
    if |items| == 1 {
      assert Pieces(items) == first;
    } else {
      JoinPieces(items[1..]);
      JoinAppend(first, Pieces(items[1..]));
    }
  }

  /** Splitting what was joined gives the pieces of the items, in order. */
  lemma SplitOfJoined(items: seq<string>)
    requires |items| > 0
    ensures Split(Joined(items), ',') == Pieces(items)
  {
    hide Split, Join;
    JoinPieces(items);
    SplitJoin(Pieces(items), ',');
  }

  lemma SplitWhole(f: string)
    ensures ',' !in f <==> Split(f, ',') == [f]
    ensures ',' in f ==> |Split(f, ',')| > 1
  {
    JoinSplit(f, ',');
    if ',' !in f {
      SplitJoin([f], ',');
    } else {
      assert Split(f, ',')[0] in Split(f, ',');
    }
  }

  /** The pieces are the formats themselves exactly when no format contains a comma. */
  lemma {:induction false} PiecesWhole(items: seq<string>)
    ensures Pieces(items) == items <==> forall f :: f in items ==> ',' !in f
  {
    hide Split;
    if items != [] {
      SplitWhole(items[0]);
      PiecesWhole(items[1..]);
      assert items == [items[0]] + items[1..];
      if Pieces(items) == items {
        assert forall f :: f in items ==> f in Pieces(items);
      }
    }
  }

  lemma EmptyText()
    ensures Split("", ',') == [""] && Join([""], ',') == ""
    ensures [""][..1] == [""] && Reverse([]) == []
  {
  }

  lemma {:induction false} ReverseAppend(xs: seq<string>, x: string)
    ensures Reverse(xs + [x]) == [x] + Reverse(xs)
  {
    if xs == [] {
      assert xs + [x] == [x];
    } else {
      assert (xs + [x])[1..] == xs[1..] + [x];
      ReverseAppend(xs[1..], x);
    }
  }

  lemma {:induction false} ReverseTwice(xs: seq<string>)
    ensures Reverse(Reverse(xs)) == xs
  {
    if xs != [] {
      ReverseTwice(xs[1..]);
      ReverseAppend(Reverse(xs[1..]), xs[0]);
    }
  }

  /** From the printer's formats to the record: the longest prefix of the list, preferred
      formats before unknown ones, whose text is shorter than the limit. */
  method GeneratePdl(formats: seq<string>) returns (r: Truncation)
    ensures r == ValueError <==> Items(formats) != [] && |Pdl(Pieces(Items(formats))[0])| >= LIMIT
    ensures Announced(formats, Items(formats))
    ensures r.Fits? ==> |r.dropped| <= |Pieces(Items(formats))| && |"pdl=" + r.fmts| < 255
    ensures r.Fits? ==> var pieces := Pieces(Items(formats)); var k := |pieces| - |r.dropped|;
                        && r.fmts == Joined(pieces[..k])
                        && pieces[..k] + Reverse(r.dropped) == pieces
                        && (forall i :: 0 <= i < |r.dropped| ==> r.dropped[i] == pieces[|pieces| - 1 - i])
                        && (forall j :: k < j <= |pieces| ==> |Pdl(Joined(pieces[..j]))| >= LIMIT)
  {
    hide Split, Join, Select, Reverse, Announced;
    AnnouncedExact(formats, Items(formats));
    var fmts, defer := Partition(formats);
    ghost var items := fmts + defer;
    ghost var pieces := Pieces(items);
    r := Truncate(Joined(fmts + defer));
    EmptyText();
    if items != [] {
      SplitOfJoined(items);
      if r.Fits? {
        ghost var k := |pieces| - |r.dropped|;
        ReverseTwice(pieces[k..]);
        forall j | k < j <= |pieces| ensures |Pdl(Joined(pieces[..j]))| >= LIMIT {
          JoinGrows(pieces, k + 1, j);
        }
      }
    } else if r.Fits? {
      assert r.fmts == Join([""][..1], ',') && pieces[..0] == [];
    }
  }

  // ---------- A printer that cannot be announced ----------

  lemma SelectOne(f: string)
    requires f !in DOCUMENT_TYPES
    ensures Items([f]) == [f]
  {
    assert [f][..0] == [];
    assert Classify(f) == Unknown;
    assert Select([f], Preferred) == [] && Select([f], Unknown) == [f];
  }

  lemma LongUnknown(f: string)
    requires |f| > 100
    ensures f !in DOCUMENT_TYPES
  {
  }

  /** One unknown format of 251 characters is enough for the exception; 250 still fit. */
  lemma TooLongFormat(n: nat)
    requires n > 100
    ensures var f := seq(n, i => 'x');
            && Items([f]) == [f] && Pieces([f]) == [f]
            && (|Pdl(f)| >= LIMIT <==> n >= 251)
  {
    var f := seq(n, i => 'x');
    LongUnknown(f);
    SelectOne(f);
    PiecesWhole([f]);
  }
}
