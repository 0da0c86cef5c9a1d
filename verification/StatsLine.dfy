/** Reading one line of /proc/diskstats (sd-idle/src/sd-idle-2.6.c:473-500). */
module StatsLine {
  import opened Strings

  // Where field k starts in the text that was split into these fields.
  function FieldStart(fields: seq<string>, k: nat): nat
    requires k <= |fields|
  {
    if k == 0 then 0 else FieldStart(fields, k - 1) + |fields[k - 1]| + 1
  }

  lemma {:induction false} FieldStartTail(fields: seq<string>, k: nat)
    requires 0 < k <= |fields|
    ensures FieldStart(fields, k) == |fields[0]| + 1 + FieldStart(fields[1..], k - 1)
  {
    if k > 1 { FieldStartTail(fields, k - 1); }
  }

  // The field stands at position a, followed by a separator or by the end of the text.
  predicate Occupies(s: string, c: char, field: string, a: nat, last: bool) {
    var b := a + |field|;
    && b <= |s|
    && s[a..b] == field
    && (if last then b == |s| else b < |s| && s[b] == c)
  }

  lemma OccupiesShift(s: string, c: char, field: string, d: nat, a: nat, last: bool)
    requires d <= |s| && Occupies(s[d..], c, field, a, last)
    ensures Occupies(s, c, field, d + a, last)
  {
    SliceOfDrop(s, d, a, a + |field|);
  }

  lemma FirstFieldAt(s: string, c: char)
    ensures Occupies(s, c, Split(s, c)[0], 0, 1 == |Split(s, c)|)
    ensures |Split(s, c)| > 1 <==> StrChr(s, c, 0).Some?
  {
  }

  lemma SplitTail(s: string, c: char, n: nat)
    requires StrChr(s, c, 0) == Some(n)
    ensures |Split(s, c)[0]| == n
    ensures Split(s, c)[1..] == Split(s[n + 1..], c)
  {
  }

  lemma {:induction false} FieldAt(s: string, c: char, k: nat)
    requires k < |Split(s, c)|
    ensures Occupies(s, c, Split(s, c)[k], FieldStart(Split(s, c), k), k + 1 == |Split(s, c)|)
    decreases k
  {
    hide Occupies, Split, StrChr;
    FirstFieldAt(s, c);
    if k > 0 {
      var fields, n := Split(s, c), StrChr(s, c, 0).value;
      SplitTail(s, c, n);
      FieldStartTail(fields, k);
      FieldAt(s[n + 1..], c, k - 1);
      OccupiesShift(s, c, fields[k], n + 1, FieldStart(fields[1..], k - 1), k + 1 == |fields|);
    }
  }

  lemma FieldFree(s: string, c: char, field: string, a: nat)
    requires a + |field| <= |s| && s[a..a + |field|] == field && c !in field
    ensures forall j :: a <= j < a + |field| ==> s[j] != c
  {
    forall j | a <= j < a + |field| ensures s[j] != c {
      assert s[j] == field[j - a];
    }
  }

  lemma SearchField(s: string, c: char, field: string, a: nat, last: bool)
    requires Occupies(s, c, field, a, last) && c !in field
    ensures a <= |s|
    ensures StrChr(s, c, a) == if last then None else Some(a + |field|)
  {
    hide StrChr;
    FieldFree(s, c, field, a);
  }

  // From the start of field k, strchr finds the separator before field k + 1, if any.
  lemma NextField(s: string, c: char, k: nat)
    requires k < |Split(s, c)|
    ensures FieldStart(Split(s, c), k) <= |s|
    ensures StrChr(s, c, FieldStart(Split(s, c), k))
         == if k + 1 < |Split(s, c)| then Some(FieldStart(Split(s, c), k + 1) - 1) else None
  {
    hide Split, StrChr, Occupies;
    var fields := Split(s, c);
    FieldAt(s, c, k);
    assert fields[k] in fields;
    SearchField(s, c, fields[k], FieldStart(fields, k), k + 1 == |fields|);
  }

  // The column that counts I/O in progress, counted from the one after the device name.
  const IO_FIELD := 8

  /** Where the I/O-in-progress column starts, described by a plain split.  The first
      character is skipped unread, and an empty remainder has no columns. */
  function IoField(stats: string): Option<nat> {
    if stats == "" then None
    else
      var fields := Split(stats[1..], ' ');
      if |fields| <= IO_FIELD then None else Some(1 + FieldStart(fields, IO_FIELD))
  }

  lemma {:induction false} ShiftedSearch(s: string, c: char, i: nat)
    requires s != "" && i <= |s[1..]|
    ensures StrChr(s, c, i + 1)
         == match StrChr(s[1..], c, i) { case None => None case Some(k) => Some(k + 1) }
    decreases |s| - i
  {
    if i < |s[1..]| && s[i + 1] != c { ShiftedSearch(s, c, i + 1); }
  }

  /** The pointer loop of the source. */
  method FindIoField(stats: string) returns (io: Option<nat>)
    ensures io == IoField(stats)
    ensures io.Some? ==> io.value <= |stats|
  {
    if stats == "" { return None; }
    ghost var tail := stats[1..];
    ghost var fields := Split(tail, ' ');
    var p := 0;
    var i := 0;
    while i < 8
      invariant 0 <= i <= 8
      invariant i < |fields|
      invariant p == FieldStart(fields, i) <= |tail|
      decreases 8 - i
    {
      NextField(tail, ' ', i);
      ShiftedSearch(stats, ' ', p);
      // ++io, then search
      match StrChr(stats, ' ', p + 1) {
        case None => return None;
        case Some(found) => p := found;
      }
      i := i + 1;
    }
    return Some(p + 1);
  }

  lemma {:induction false} FieldStartShorterHead(fields: seq<string>, head: string, k: nat)
    requires 0 < k <= |fields|
    ensures FieldStart([head] + fields[1..], k) == FieldStart(fields, k) - |fields[0]| + |head|
  {
    if k > 1 { FieldStartShorterHead(fields, head, k - 1); }
  }

  lemma IoFieldOfTail(stats: string, fields: seq<string>, tail: seq<string>)
    requires stats != "" && |fields| > 0 && fields[0] != ""
    requires tail == [fields[0][1..]] + fields[1..] && Split(stats[1..], ' ') == tail
    ensures IoField(stats) == if |fields| < 9 then None else Some(FieldStart(fields, 8))
  {
    hide Split, FieldStart;
    if |fields| >= 9 {
      FieldStartShorterHead(fields, fields[0][1..], 8);
    }
  }

  lemma SplitShorter(fields: seq<string>)
    requires |fields| > 0 && (forall f :: f in fields ==> ' ' !in f) && fields[0] != ""
    ensures Join(fields, ' ') != ""
    ensures Split(Join(fields, ' ')[1..], ' ') == [fields[0][1..]] + fields[1..]
  {
    hide Split;
    var tail := [fields[0][1..]] + fields[1..];
    assert Join(tail, ' ') == Join(fields, ' ')[1..] by {
      assert tail[1..] == fields[1..];
    }
    assert fields[0] in fields;
    SplitJoin(tail, ' ');
  }

  /** For columns separated by single spaces, none of them containing a space and the
      first one not empty, the loop finds the ninth column of the plain split and
      reports a missing column exactly when there are fewer than nine. */
  lemma IoFieldOfColumns(fields: seq<string>)
    requires |fields| > 0 && (forall f :: f in fields ==> ' ' !in f) && fields[0] != ""
    ensures Split(Join(fields, ' '), ' ') == fields
    ensures IoField(Join(fields, ' ')) == if |fields| < 9 then None else Some(FieldStart(fields, 8))
    ensures |fields| >= 9 ==> Occupies(Join(fields, ' '), ' ', fields[8], FieldStart(fields, 8), |fields| == 9)
  {
    hide Split, Occupies, Join, FieldStart, IoField;
    SplitJoin(fields, ' ');
    SplitShorter(fields);
    IoFieldOfTail(Join(fields, ' '), fields, [fields[0][1..]] + fields[1..]);
    if |fields| >= 9 {
      FieldAt(Join(fields, ' '), ' ', 8);
    }
  }

  // ---------- The same by counting spaces ----------

  // Position k stands right behind the eighth space that follows the first character.
  ghost predicate NinthAt(stats: string, k: nat) {
    && 1 < k <= |stats| && stats[k - 1] == ' '
    && multiset(stats[1..k])[' '] == 8
  }

  lemma NoneInField(field: string, c: char)
    requires c !in field
    ensures multiset(field)[c] == 0
  {
  }

  lemma CountStep(s: string, c: char, field: string, a: nat)
    requires Occupies(s, c, field, a, false) && c !in field
    ensures a + |field| + 1 <= |s| && s[a + |field|] == c
    ensures multiset(s[..a + |field| + 1])[c] == multiset(s[..a])[c] + 1
  {
    var b := a + |field|;
    NoneInField(field, c);
    assert s[..b + 1] == s[..a] + field + [c];
  }

  lemma {:induction false} SeparatorsBefore(s: string, c: char, k: nat)
    requires k < |Split(s, c)|
    ensures FieldStart(Split(s, c), k) <= |s|
    ensures multiset(s[..FieldStart(Split(s, c), k)])[c] == k
    ensures k > 0 ==> FieldStart(Split(s, c), k) > 0 && s[FieldStart(Split(s, c), k) - 1] == c
  {
    hide Split, Occupies;
    if k == 0 {
      assert s[..0] == "";
    } else {
      var fields := Split(s, c);
      SeparatorsBefore(s, c, k - 1);
      FieldAt(s, c, k - 1);
      assert fields[k - 1] in fields;
      CountStep(s, c, fields[k - 1], FieldStart(fields, k - 1));
    }
  }

  lemma Separators(s: string, c: char)
    ensures multiset(s)[c] == |Split(s, c)| - 1
  {
    hide Split, FieldStart;
    var fields, k := Split(s, c), |Split(s, c)| - 1;
    var a := FieldStart(fields, k);
    SeparatorsBefore(s, c, k);
    FieldAt(s, c, k);
    assert fields[k] in fields;
    NoneInField(fields[k], c);
    assert s == s[..a] + fields[k];
  }

  lemma PrefixCount(s: string, c: char, i: nat, j: nat)
    requires i <= j <= |s|
    ensures multiset(s[..i])[c] <= multiset(s[..j])[c]
    ensures i < j && s[j - 1] == c ==> multiset(s[..i])[c] < multiset(s[..j])[c]
  {
    assert s[..j] == s[..i] + s[i..j];
    if i < j && s[j - 1] == c {
      assert s[i..j][j - 1 - i] == c;
      assert c in multiset(s[i..j]);
    }
  }

  lemma SamePosition(s: string, c: char, i: nat, j: nat)
    requires 0 < i <= |s| && 0 < j <= |s| && s[i - 1] == c && s[j - 1] == c
    requires multiset(s[..i])[c] == multiset(s[..j])[c]
    ensures i == j
  {
    if i < j { PrefixCount(s, c, i, j); }
    if j < i { PrefixCount(s, c, j, i); }
  }

  lemma NinthShift(stats: string, k: nat)
    requires stats != ""
    ensures NinthAt(stats, k) <==>
            1 < k <= |stats| && stats[1..][k - 2] == ' ' && multiset(stats[1..][..k - 1])[' '] == 8
  {
    if 1 < k <= |stats| {
      assert stats[1..k] == stats[1..][..k - 1] && stats[k - 1] == stats[1..][k - 2];
    }
  }

  lemma NinthFound(stats: string)
    requires stats != "" && |Split(stats[1..], ' ')| > 8
    ensures NinthAt(stats, 1 + FieldStart(Split(stats[1..], ' '), 8))
  {
    hide Split, FieldStart, NinthAt;
    var a := FieldStart(Split(stats[1..], ' '), 8);
    SeparatorsBefore(stats[1..], ' ', 8);
    NinthShift(stats, 1 + a);
  }

  lemma NinthOnly(stats: string, k: nat)
    requires stats != "" && NinthAt(stats, k)
    ensures |Split(stats[1..], ' ')| > 8 && k == 1 + FieldStart(Split(stats[1..], ' '), 8)
  {
    hide Split, FieldStart, NinthAt;
    var s := stats[1..];
    NinthShift(stats, k);
    Separators(s, ' ');
    PrefixCount(s, ' ', k - 1, |s|);
    assert s[..|s|] == s;
    SeparatorsBefore(s, ' ', 8);
    SamePosition(s, ' ', k - 1, FieldStart(Split(s, ' '), 8));
  }

  lemma IoFieldAt(stats: string, k: nat)
    requires stats != ""
    ensures IoField(stats) == Some(k) <==> NinthAt(stats, k)
  {
    hide Split, FieldStart, NinthAt;
    if NinthAt(stats, k) { NinthOnly(stats, k); }
    if IoField(stats) == Some(k) { NinthFound(stats); }
  }

  /** For every text, the column found starts right behind the eighth space after the first
      character; it is missing exactly when there are fewer. */
  lemma IoFieldExact(stats: string)
    ensures forall k: nat :: IoField(stats) == Some(k) <==> NinthAt(stats, k)
    ensures IoField(stats) == None <==> forall k: nat :: !NinthAt(stats, k)
  {
    forall k: nat ensures IoField(stats) == Some(k) <==> NinthAt(stats, k) {
      if stats != "" { IoFieldAt(stats, k); }
    }
    if IoField(stats).Some? { assert NinthAt(stats, IoField(stats).value); }
  }
}
