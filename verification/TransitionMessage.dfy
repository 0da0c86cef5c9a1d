/** The log line of a spin transition (sd-idle/src/sd-idle-2.6.c:389-421). */
module TransitionMessage {
  import opened Strings
  import opened CNumbers

  const BUF_SIZE := 128  // TRANSTIME_BUF_SIZE

  // ---------- The text ----------

  datatype Parts = Parts(days: int, hours: int, mins: int, secs: int)

  function Breakdown(interval: int): Parts {
    var days := CDiv(interval, 86400);
    var secs := interval - days * 86400;
    var hours := CDiv(secs, 3600);
    var secs' := secs - hours * 3600;
    var mins := CDiv(secs', 60);
    Parts(days, hours, mins, secs' - mins * 60)
  }

  function PartText(n: int, unit: string): string {
    if n == 0 then "" else Decimal(n) + " " + unit + " "
  }

  function IntervalText(interval: int): string {
    var p := Breakdown(interval);
    PartText(p.days, "days") + PartText(p.hours, "hours") + PartText(p.mins, "mins") + PartText(p.secs, "secs")
  }

  function DiskLetter(disk: nat): char
    requires disk < 26
  {
    'a' + disk as char
  }

  function Head(down: bool, disk: nat): string
    requires disk < 26
  {
    (if down then "spinning down /dev/sd" else "spinning up /dev/sd") + [DiskLetter(disk)]
  }

  // since is the time of the previous transition, 0 for none.
  function MessageText(down: bool, disk: nat, since: int, now: int): string
    requires disk < 26
  {
    Head(down, disk) + if since == 0 then "" else " after " + IntervalText(ToInt32(now - since))
  }

  // ---------- Sizes ----------

  /** Every part is in range and has the sign of the interval; together they are it. */
  lemma BreakdownExact(interval: int)
    ensures var p := Breakdown(interval);
            && p.days * 86400 + p.hours * 3600 + p.mins * 60 + p.secs == interval
            && -24 < p.hours < 24 && -60 < p.mins < 60 && -60 < p.secs < 60
            && (interval >= 0 ==> p.days >= 0 && p.hours >= 0 && p.mins >= 0 && p.secs >= 0)
            && (interval <= 0 ==> p.days <= 0 && p.hours <= 0 && p.mins <= 0 && p.secs <= 0)
  {
  }

  lemma PartLength(n: int, unit: string, k: nat)
    requires k > 0 && (if n >= 0 then n < Pow10(k) else -n < Pow10(k))
    ensures |PartText(n, unit)| <= k + 3 + |unit|
  {
    DigitsLength(if n >= 0 then n else -n, k);
  }

  lemma Powers()
    ensures Pow10(2) == 100 && Pow10(5) == 100000
  {
  }

  lemma IntervalLength(interval: int)
    requires -0x8000_0000 <= interval <= 0x7FFF_FFFF
    ensures |IntervalText(interval)| <= 49
  {
    hide Breakdown, PartText, Pow10;
    var p := Breakdown(interval);
    BreakdownExact(interval);
    Powers();
    assert -100000 < p.days < 100000;
    PartLength(p.days, "days", 5);
    PartLength(p.hours, "hours", 2);
    PartLength(p.mins, "mins", 2);
    PartLength(p.secs, "secs", 2);
  }

  lemma MessageFits(down: bool, disk: nat, since: int, now: int)
    requires disk < 26
    ensures |MessageText(down, disk, since, now)| + 1 <= 128
  {
    hide IntervalText, ToInt32;
    IntervalLength(ToInt32(now - since));
  }

  // ---------- Writing it into the buffer ----------

  /** sprintf of a finished text at an offset: the characters and a terminator. */
  method Put(buf: array<char>, pos: nat, text: string) returns (end: nat)
    requires pos + |text| < buf.Length
    modifies buf
    ensures end == pos + |text|
    ensures buf[..end] == old(buf[..pos]) + text && buf[end] == '\0'
  {
    forall i | 0 <= i < |text| {
      buf[pos + i] := text[i];
    }
    end := pos + |text|;
    buf[end] := '\0';
  }

  method PutPart(buf: array<char>, pos: nat, n: int, unit: string) returns (end: nat)
    requires pos < buf.Length && buf[pos] == '\0'
    requires pos + |PartText(n, unit)| < buf.Length
    modifies buf
    ensures end == pos + |PartText(n, unit)|
    ensures buf[..end] == old(buf[..pos]) + PartText(n, unit) && buf[end] == '\0'
  {
    if n != 0 {
      end := Put(buf, pos, Decimal(n) + " " + unit + " ");
    } else {
      end := pos;
    }
  }

  method WriteInterval(buf: array<char>, pos: nat, secs: int) returns (end: nat)
    requires pos < buf.Length && buf[pos] == '\0'
    requires pos + |IntervalText(secs)| < buf.Length
    modifies buf
    ensures end == pos + |IntervalText(secs)|
    ensures buf[..end] == old(buf[..pos]) + IntervalText(secs) && buf[end] == '\0'
  {
    hide PartText, Breakdown;
    var p := Breakdown(secs);
    ghost var was := buf[..pos];
    ghost var t1, t2, t3 := PartText(p.days, "days"), PartText(p.hours, "hours"), PartText(p.mins, "mins");
    end := PutPart(buf, pos, p.days, "days");
    end := PutPart(buf, end, p.hours, "hours");
    assert buf[..end] == was + (t1 + t2);
    end := PutPart(buf, end, p.mins, "mins");
    assert buf[..end] == was + (t1 + t2 + t3);
    end := PutPart(buf, end, p.secs, "secs");
    assert buf[..end] == was + (t1 + t2 + t3 + PartText(p.secs, "secs"));
  }

  datatype Part = Part(number: int, unit: string)

  function UnitSeconds(unit: string): nat {
    if unit == "days" then 86400 else if unit == "hours" then 3600
    else if unit == "mins" then 60 else if unit == "secs" then 1 else 0
  }

  function Total(parts: seq<Part>): int {
    if parts == [] then 0 else parts[0].number * UnitSeconds(parts[0].unit) + Total(parts[1..])
  }

  // A part by itself: nonzero, of the sign of the whole, less than one of the next unit.
  predicate PartOf(part: Part, sign: int) {
    && part.number * sign > 0
    && match part.unit {
         case "days" => true
         case "hours" => part.number * sign < 24
         case "mins" => part.number * sign < 60
         case "secs" => part.number * sign < 60
         case _ => false
       }
  }

  // Days, hours, minutes and seconds in this order, none of them twice or zero.
  ghost predicate Parted(parts: seq<Part>, sign: int) {
    && (forall i :: 0 <= i < |parts| ==> PartOf(parts[i], sign))
    && (forall i, j :: 0 <= i < j < |parts| ==> UnitSeconds(parts[i].unit) > UnitSeconds(parts[j].unit))
  }

  // The parts of an interval, whose numbers have its sign.
  ghost predicate PartsOf(parts: seq<Part>, interval: int) {
    Parted(parts, if interval < 0 then -1 else 1) && Total(parts) == interval
  }

  // The parts written one after another.
  function Written(parts: seq<Part>): string {
    if parts == [] then "" else Decimal(parts[0].number) + " " + parts[0].unit + " " + Written(parts[1..])
  }

  // A part of zero is not written.
  function Shown(n: int, unit: string): seq<Part> {
    if n == 0 then [] else [Part(n, unit)]
  }

  // The parts as the breakdown gives them.
  function Breaking(p: Parts): seq<Part> {
    Shown(p.days, "days") + (Shown(p.hours, "hours") + (Shown(p.mins, "mins") + Shown(p.secs, "secs")))
  }

  lemma PartedCons(n: int, unit: string, rest: seq<Part>, sign: int)
    requires Parted(rest, sign) && (n == 0 || PartOf(Part(n, unit), sign))
    requires forall i :: 0 <= i < |rest| ==> UnitSeconds(rest[i].unit) < UnitSeconds(unit)
    ensures Parted(Shown(n, unit) + rest, sign)
    ensures Total(Shown(n, unit) + rest) == n * UnitSeconds(unit) + Total(rest)
    ensures forall i :: 0 <= i < |Shown(n, unit) + rest| ==>
              UnitSeconds((Shown(n, unit) + rest)[i].unit) <= UnitSeconds(unit)
  {
    hide PartOf, UnitSeconds;
    var all := Shown(n, unit) + rest;
    if n == 0 {
      assert all == rest;
    } else {
      assert all[1..] == rest;
    }
  }

  lemma Units()
    ensures UnitSeconds("days") == 86400 && UnitSeconds("hours") == 3600
    ensures UnitSeconds("mins") == 60 && UnitSeconds("secs") == 1
  {
  }

  lemma InRange(p: Parts, sign: int)
    requires sign == 1 || sign == -1
    requires p.days * sign >= 0 && 0 <= p.hours * sign < 24 && 0 <= p.mins * sign < 60 && 0 <= p.secs * sign < 60
    ensures p.days == 0 || PartOf(Part(p.days, "days"), sign)
    ensures p.hours == 0 || PartOf(Part(p.hours, "hours"), sign)
    ensures p.mins == 0 || PartOf(Part(p.mins, "mins"), sign)
    ensures p.secs == 0 || PartOf(Part(p.secs, "secs"), sign)
  {
  }

  lemma NoParts(sign: int)
    ensures Parted([], sign) && Total([]) == 0
  {
  }

  lemma BreakingParted(p: Parts, sign: int)
    requires sign == 1 || sign == -1
    requires p.days * sign >= 0 && 0 <= p.hours * sign < 24 && 0 <= p.mins * sign < 60 && 0 <= p.secs * sign < 60
    ensures Parted(Breaking(p), sign)
    ensures Total(Breaking(p)) == p.days * 86400 + p.hours * 3600 + p.mins * 60 + p.secs
  {
    hide PartOf, UnitSeconds, Shown, Total, Parted;
    Units();
    InRange(p, sign);
    NoParts(sign);
    var t4 := Shown(p.secs, "secs");
    assert t4 + [] == t4;
    PartedCons(p.secs, "secs", [], sign);
    var t3 := Shown(p.mins, "mins") + t4;
    PartedCons(p.mins, "mins", t4, sign);
    var t2 := Shown(p.hours, "hours") + t3;
    PartedCons(p.hours, "hours", t3, sign);
    PartedCons(p.days, "days", t2, sign);
  }

  lemma {:induction false} PartedTail(parts: seq<Part>, sign: int)
    requires Parted(parts, sign) && parts != []
    ensures Parted(parts[1..], sign) && PartOf(parts[0], sign)
    ensures forall i :: 0 <= i < |parts[1..]| ==> UnitSeconds(parts[1..][i].unit) < UnitSeconds(parts[0].unit)
  {
    hide PartOf, UnitSeconds;
    forall i, j | 0 <= i < j < |parts[1..]|
      ensures UnitSeconds(parts[1..][i].unit) > UnitSeconds(parts[1..][j].unit)
    {
      assert UnitSeconds(parts[i + 1].unit) > UnitSeconds(parts[j + 1].unit);
    }
  }

  lemma TotalCons(parts: seq<Part>)
    requires parts != []
    ensures Total(parts) == parts[0].number * UnitSeconds(parts[0].unit) + Total(parts[1..])
  {
    hide UnitSeconds;
  }

  predicate IsUnit(u: nat) { u in {1, 60, 3600, 86400} }

  lemma SplitTotal(sign: int, n: int, u: nat, rest: int)
    ensures sign * (n * u + rest) == sign * n * u + sign * rest
    ensures (sign * n + 1) * u == sign * n * u + u
  {
  }

  // The unit is one of the four, and a part is less than one of any larger unit.
  lemma PartBelow(part: Part, sign: int, unit: nat)
    requires sign == 1 || sign == -1
    requires PartOf(part, sign) && UnitSeconds(part.unit) < unit && IsUnit(unit)
    ensures IsUnit(UnitSeconds(part.unit))
    ensures UnitSeconds(part.unit) <= sign * part.number * UnitSeconds(part.unit)
    ensures (sign * part.number + 1) * UnitSeconds(part.unit) <= unit
  {
  }

  // Parts of units below the given one add up to less than one of it.
  lemma {:induction false} TotalBelow(parts: seq<Part>, sign: int, unit: nat)
    requires sign == 1 || sign == -1
    requires Parted(parts, sign) && IsUnit(unit)
    requires forall i :: 0 <= i < |parts| ==> UnitSeconds(parts[i].unit) < unit
    ensures 0 <= sign * Total(parts) < unit
  {
    if parts != [] {
      hide PartOf, UnitSeconds, Parted;
      PartedTail(parts, sign);
      PartBelow(parts[0], sign, unit);
      TotalBelow(parts[1..], sign, UnitSeconds(parts[0].unit));
      SplitTotal(sign, parts[0].number, UnitSeconds(parts[0].unit), Total(parts[1..]));
    }
  }

  lemma PartUnit(part: Part, sign: int)
    requires PartOf(part, sign)
    ensures part.unit in ["days", "hours", "mins", "secs"]
    ensures IsUnit(UnitSeconds(part.unit))
  {
  }

  lemma AllBelow(parts: seq<Part>, u: nat, v: nat)
    requires parts != [] && u == UnitSeconds(parts[0].unit) && u < v
    requires forall i :: 0 <= i < |parts[1..]| ==> UnitSeconds(parts[1..][i].unit) < u
    ensures forall i :: 0 <= i < |parts| ==> UnitSeconds(parts[i].unit) < v
  {
    hide UnitSeconds;
    forall i | 0 <= i < |parts| ensures UnitSeconds(parts[i].unit) < v {
      if i > 0 { assert UnitSeconds(parts[1..][i - 1].unit) < u; }
    }
  }

  lemma PositivePart(part: Part, sign: int, u: nat)
    requires PartOf(part, sign) && u > 0
    ensures sign * part.number * u >= u
  {
    assert sign * part.number >= 1;
  }

  lemma Quotient(n: int, u: nat, rest: int)
    requires 0 <= rest < u && IsUnit(u)
    ensures (n * u + rest) / u == n
  {
    if u == 1 {} else if u == 60 {} else if u == 3600 {} else {}
  }

  // The first part decides: its unit is the largest one in the total, its number how often.
  lemma FirstPart(parts: seq<Part>, sign: int)
    requires sign == 1 || sign == -1
    requires Parted(parts, sign) && parts != []
    ensures var u := UnitSeconds(parts[0].unit);
            && IsUnit(u) && parts[0].unit in ["days", "hours", "mins", "secs"]
            && u <= sign * Total(parts)
            && (forall v: nat :: IsUnit(v) && v > u ==> sign * Total(parts) < v)
            && sign * parts[0].number == sign * Total(parts) / u
  {
    hide PartOf, UnitSeconds, Parted, Total;
    var u := UnitSeconds(parts[0].unit);
    PartedTail(parts, sign);
    PartUnit(parts[0], sign);
    TotalBelow(parts[1..], sign, u);
    TotalCons(parts);
    SplitTotal(sign, parts[0].number, u, Total(parts[1..]));
    PositivePart(parts[0], sign, u);
    Quotient(sign * parts[0].number, u, sign * Total(parts[1..]));
    forall v: nat | IsUnit(v) && v > u ensures sign * Total(parts) < v {
      AllBelow(parts, u, v);
      TotalBelow(parts, sign, v);
    }
  }

  lemma SameUnit(a: string, b: string)
    requires a in ["days", "hours", "mins", "secs"] && b in ["days", "hours", "mins", "secs"]
    requires UnitSeconds(a) == UnitSeconds(b)
    ensures a == b
  {
  }

  lemma SameNumber(a: int, b: int, sign: int)
    requires (sign == 1 || sign == -1) && sign * a == sign * b
    ensures a == b
  {
  }

  lemma {:induction false} PartedUnique(p: seq<Part>, q: seq<Part>, sign: int)
    requires sign == 1 || sign == -1
    requires Parted(p, sign) && Parted(q, sign) && Total(p) == Total(q)
    ensures p == q
  {
    hide PartOf, UnitSeconds, Parted, Total;
    NoParts(sign);
    if p != [] { FirstPart(p, sign); }
    if q != [] { FirstPart(q, sign); }
    if p != [] && q != [] {
      SameUnit(p[0].unit, q[0].unit);
      SameNumber(p[0].number, q[0].number, sign);
      PartedTail(p, sign);
      PartedTail(q, sign);
      TotalCons(p);
      TotalCons(q);
      PartedUnique(p[1..], q[1..], sign);
      assert p == [p[0]] + p[1..] && q == [q[0]] + q[1..];
    }
  }

  lemma ShownWritten(n: int, unit: string, rest: seq<Part>)
    ensures Written(Shown(n, unit) + rest) == PartText(n, unit) + Written(rest)
  {
    hide Decimal;
    if n == 0 {
      assert [] + rest == rest && "" + Written(rest) == Written(rest);
    } else {
      assert ([Part(n, unit)] + rest)[1..] == rest;
    }
  }

  lemma NothingWritten()
    ensures Written([]) == ""
  {
  }

  lemma BreakingWritten(interval: int)
    ensures IntervalText(interval) == Written(Breaking(Breakdown(interval)))
  {
    hide PartText, Shown, Breakdown, Written;
    var p := Breakdown(interval);
    var s4 := Shown(p.secs, "secs");
    var s3 := Shown(p.mins, "mins") + s4;
    assert s4 + [] == s4;
    NothingWritten();
    ShownWritten(p.secs, "secs", []);
    ShownWritten(p.mins, "mins", s4);
    ShownWritten(p.hours, "hours", s3);
    ShownWritten(p.days, "days", Shown(p.hours, "hours") + s3);
    assert Written(Breaking(p))
        == PartText(p.days, "days")
           + (PartText(p.hours, "hours") + (PartText(p.mins, "mins") + (PartText(p.secs, "secs") + "")));
  }

  /** An interval has only one such list of parts, and its text is that list written out:
      number, blank, unit, blank. */
  lemma IntervalWritten(interval: int, parts: seq<Part>)
    requires PartsOf(parts, interval)
    ensures IntervalText(interval) == Written(parts)
  {
    hide Parted, Total, Breaking, IntervalText, Breakdown, Written;
    var sign := if interval < 0 then -1 else 1;
    BreakdownExact(interval);
    BreakingParted(Breakdown(interval), sign);
    PartedUnique(parts, Breaking(Breakdown(interval)), sign);
    BreakingWritten(interval);
  }

  /** So a message is a literal head and the letter of the disk and, after the first
      transition, the parts of the interval written out. */
  lemma MessageWritten(down: bool, disk: nat, since: int, now: int, parts: seq<Part>)
    requires disk < 26 && since != 0 && PartsOf(parts, ToInt32(now - since))
    ensures MessageText(down, disk, since, now)
         == (if down then "spinning down /dev/sd" else "spinning up /dev/sd") + ['a' + disk as char]
            + " after " + Written(parts)
  {
    hide IntervalText, ToInt32, PartsOf, Written;
    IntervalWritten(ToInt32(now - since), parts);
    var head := Head(down, disk);
    assert head + (" after " + Written(parts)) == head + " after " + Written(parts);
  }

  lemma FirstMessage(down: bool, disk: nat, now: int)
    requires disk < 26
    ensures MessageText(down, disk, 0, now)
         == (if down then "spinning down /dev/sd" else "spinning up /dev/sd") + ['a' + disk as char]
  {
    assert Head(down, disk) + "" == Head(down, disk);
  }

  method WriteMessage(down: bool, disk: nat, since: int, now: int, buf: array<char>) returns (end: nat)
    requires disk < 26 && buf.Length == BUF_SIZE
    modifies buf
    ensures end < buf.Length && buf[end] == '\0'
    ensures buf[..end] == MessageText(down, disk, since, now)
    ensures since == 0 ==>
              buf[..end] == (if down then "spinning down /dev/sd" else "spinning up /dev/sd") + ['a' + disk as char]
    ensures since != 0 ==> forall parts :: PartsOf(parts, ToInt32(now - since)) ==>
              buf[..end] == (if down then "spinning down /dev/sd" else "spinning up /dev/sd") + ['a' + disk as char]
                            + " after " + Written(parts)
  {
    hide IntervalText, ToInt32, Head, PartsOf, Written;
    FirstMessage(down, disk, now);
    if since != 0 {
      forall parts | PartsOf(parts, ToInt32(now - since))
        ensures MessageText(down, disk, since, now)
             == (if down then "spinning down /dev/sd" else "spinning up /dev/sd") + ['a' + disk as char]
                + " after " + Written(parts)
      {
        MessageWritten(down, disk, since, now, parts);
      }
    }
    MessageFits(down, disk, since, now);
    end := Put(buf, 0, Head(down, disk));
    assert buf[..end] == Head(down, disk);
    if since == 0 { return; }
    end := Put(buf, end, " after ");
    end := WriteInterval(buf, end, ToInt32(now - since));
  }

  // ---------- Reading it back ----------

  // Number and unit words in turn, closed by the empty word after the last blank.
  function ReadWords(words: seq<string>): Option<seq<Part>> {
    if |words| == 1 then (if words[0] == "" then Some([]) else None)
    else if |words| < 3 then None
    else
      match (ReadDecimal(words[0]), ReadWords(words[2..]))
      case (Some(n), Some(rest)) => Some([Part(n, words[1])] + rest)
      case _ => None
  }

  function ReadParts(text: string): Option<seq<Part>> {
    ReadWords(Split(text, ' '))
  }

  // Direction, disk letter and, when an interval is named, its parts.
  datatype Reading = Reading(down: bool, letter: char, parts: Option<seq<Part>>)

  function ReadAfter(down: bool, text: string): Option<Reading> {
    if text == "" then None
    else if |text| == 1 then Some(Reading(down, text[0], None))
    else if " after " <= text[1..] then
      match ReadParts(text[8..])
      case None => None
      case Some(parts) => Some(Reading(down, text[0], Some(parts)))
    else None
  }

  function ReadMessage(text: string): Option<Reading> {
    if "spinning down /dev/sd" <= text then ReadAfter(true, text[21..])
    else if "spinning up /dev/sd" <= text then ReadAfter(false, text[19..])
    else None
  }

  lemma SplitWord(word: string, tail: string)
    requires ' ' !in word
    ensures Split(word + " " + tail, ' ') == [word] + Split(tail, ' ')
  {
    FirstSeparator(word, ' ', tail);
    var s := word + " " + tail;
    assert s == word + [' '] + tail;
    assert s[..|word|] == word && s[|word| + 1..] == tail;
  }

  lemma ReadPart(n: int, unit: string, tail: string, rest: seq<Part>)
    requires unit in ["days", "hours", "mins", "secs"] && ReadParts(tail) == Some(rest)
    ensures ReadParts(PartText(n, unit) + tail) == Some(Shown(n, unit) + rest)
  {
    hide Decimal, Split, ReadDecimal;
    if n == 0 {
      assert PartText(n, unit) + tail == tail;
      assert [] + rest == rest;
    } else {
      var d := Decimal(n);
      assert PartText(n, unit) + tail == d + " " + (unit + " " + tail);
      SplitWord(d, unit + " " + tail);
      SplitWord(unit, tail);
      DecimalRead(n);
      var words := Split(PartText(n, unit) + tail, ' ');
      assert words == [d] + ([unit] + Split(tail, ' '));
      assert words[2..] == Split(tail, ' ');
    }
  }

  lemma NothingRead()
    ensures ReadParts("") == Some([])
  {
    assert Split("", ' ') == [""];
  }

  lemma BreakingRead(interval: int)
    ensures ReadParts(IntervalText(interval)) == Some(Breaking(Breakdown(interval)))
  {
    hide PartText, ReadParts, Breakdown, Shown;
    var p := Breakdown(interval);
    NothingRead();
    var t4 := PartText(p.secs, "secs");
    assert t4 + "" == t4 && Shown(p.secs, "secs") + [] == Shown(p.secs, "secs");
    ReadPart(p.secs, "secs", "", []);
    var t3 := PartText(p.mins, "mins") + t4;
    ReadPart(p.mins, "mins", t4, Shown(p.secs, "secs"));
    var t2 := PartText(p.hours, "hours") + t3;
    ReadPart(p.hours, "hours", t3, Shown(p.mins, "mins") + Shown(p.secs, "secs"));
    ReadPart(p.days, "days", t2, Shown(p.hours, "hours") + (Shown(p.mins, "mins") + Shown(p.secs, "secs")));
    assert IntervalText(interval) == PartText(p.days, "days") + t2;
  }

  /** The text of an interval reads back as days, hours, minutes and seconds in this order,
      zero parts left out, each of the sign of the interval and less than one of the next
      unit, that add up to it. */
  lemma IntervalRead(interval: int)
    ensures ReadParts(IntervalText(interval)).Some?
    ensures PartsOf(ReadParts(IntervalText(interval)).value, interval)
  {
    hide Parted, Total, Breaking, IntervalText, Breakdown, ReadParts;
    BreakingRead(interval);
    BreakdownExact(interval);
    BreakingParted(Breakdown(interval), if interval < 0 then -1 else 1);
  }

  // ---------- There is only one way ----------

  lemma HeadRead(down: bool, disk: nat, rest: string)
    requires disk < 26
    ensures ReadMessage(Head(down, disk) + rest) == ReadAfter(down, [DiskLetter(disk)] + rest)
  {
    hide ReadAfter, DiskLetter;
    var text := Head(down, disk) + rest;
    if down {
      assert text[..21] == "spinning down /dev/sd";
      assert text[21..] == [DiskLetter(disk)] + rest;
    } else {
      assert text[..19] == "spinning up /dev/sd";
      assert text[9] == 'u' && "spinning down /dev/sd"[9] == 'd';
      assert text[19..] == [DiskLetter(disk)] + rest;
    }
  }

  /** A transition message says its direction and disk in full and, after the first
      transition, the parts of the interval as an int. */
  lemma MessageRead(down: bool, disk: nat, since: int, now: int)
    requires disk < 26
    ensures var r := ReadMessage(MessageText(down, disk, since, now));
            && r.Some? && r.value.down == down && r.value.letter as int == 'a' as int + disk
            && (since == 0 ==> r.value.parts == None)
            && (since != 0 ==> r.value.parts.Some? && PartsOf(r.value.parts.value, ToInt32(now - since)))
  {
    hide ReadParts, IntervalText, ToInt32, ReadMessage, Head, PartsOf;
    var interval := ToInt32(now - since);
    var rest := if since == 0 then "" else " after " + IntervalText(interval);
    HeadRead(down, disk, rest);
    var text := [DiskLetter(disk)] + rest;
    if since != 0 {
      IntervalRead(interval);
      assert text[1..] == rest && text[8..] == IntervalText(interval);
    }
  }

  lemma OneWritten()
    ensures Decimal(1) == "1"
  {
  }

  lemma NinetyThousand()
    ensures IntervalText(90061) == "1 days 1 hours 1 mins 1 secs "
  {
    hide Decimal;
    OneWritten();
    assert Breakdown(90061) == Parts(1, 1, 1, 1);
  }

  /** Two messages in full. */
  lemma MessagesSpelled()
    ensures MessageText(true, 0, 0, 5) == "spinning down /dev/sda"
    ensures MessageText(false, 1, 1, 90062)
         == "spinning up /dev/sdb" + (" after " + "1 days 1 hours 1 mins 1 secs ")
  {
    hide IntervalText;
    NinetyThousand();
    assert Head(false, 1) == "spinning up /dev/sdb" && Head(true, 0) == "spinning down /dev/sda";
    assert ToInt32(90061) == 90061;
  }
}
