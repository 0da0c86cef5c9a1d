/** String searching and splitting, shared by the models of the C and Python programs. */
module Strings {
  datatype Option<+T> = None | Some(value: T)

  /** strchr from position i on, for text or bytes. */
  function StrChr<T(==)>(s: seq<T>, c: T, i: nat): (r: Option<nat>)
    requires i <= |s|
    ensures r.Some? ==> i <= r.value < |s| && s[r.value] == c && (forall k :: i <= k < r.value ==> s[k] != c)
    ensures r.None? ==> forall k :: i <= k < |s| ==> s[k] != c
    decreases |s| - i
  {
    if i == |s| then None
    else if s[i] == c then Some(i)
    else StrChr(s, c, i + 1)
  }

  /** strstr from position i on: the leftmost match. */
  function StrStr(s: string, pat: string, i: nat): (r: Option<nat>)
    requires i <= |s|
    ensures r.Some? ==> i <= r.value <= |s| && pat <= s[r.value..]
    ensures r.Some? ==> forall k :: i <= k < r.value ==> !(pat <= s[k..])
    ensures r.None? ==> forall k :: i <= k <= |s| ==> !(pat <= s[k..])
    decreases |s| - i
  {
    if pat <= s[i..] then Some(i)
    else if i == |s| then None
    else StrStr(s, pat, i + 1)
  }

  /** The pieces of s between occurrences of c: always at least one. */
  function Split(s: string, c: char): (fields: seq<string>)
    ensures |fields| > 0
    ensures forall f :: f in fields ==> c !in f
    decreases |s|
  {
    match StrChr(s, c, 0)
    case None => [s]
    case Some(k) => [s[..k]] + Split(s[k + 1..], c)
  }

  function Join(fields: seq<string>, c: char): string
    requires |fields| > 0
  {
    if |fields| == 1 then fields[0] else fields[0] + [c] + Join(fields[1..], c)
  }

  lemma SliceOfDrop(s: string, d: nat, a: nat, b: nat)
    requires d <= |s| && a <= b <= |s| - d
    ensures s[d..][a..b] == s[d + a..d + b]
  {
  }

  lemma FirstSeparator(head: string, c: char, tail: string)
    requires c !in head
    ensures StrChr(head + [c] + tail, c, 0) == Some(|head|)
  {
    var s := head + [c] + tail;
    assert s[|head|] == c;
    assert forall j :: 0 <= j < |head| ==> s[j] == head[j] && head[j] in head;
  }

  lemma {:induction false} SplitJoin(fields: seq<string>, c: char)
    requires |fields| > 0 && (forall f :: f in fields ==> c !in f)
    ensures Split(Join(fields, c), c) == fields
  {
    var s := Join(fields, c);
    if |fields| == 1 {
      assert c !in s;
    } else {
      var k := |fields[0]|;
      assert s[..k] == fields[0] && s[k + 1..] == Join(fields[1..], c);
      assert fields[0] in fields;
      FirstSeparator(fields[0], c, Join(fields[1..], c));
      SplitJoin(fields[1..], c);
    }
  }

  lemma {:induction false} JoinSplit(s: string, c: char)
    ensures Join(Split(s, c), c) == s
    decreases |s|
  {
    match StrChr(s, c, 0)
    case None =>
    case Some(k) =>
      JoinSplit(s[k + 1..], c);
      assert s == s[..k] + [c] + s[k + 1..];
  }
}
