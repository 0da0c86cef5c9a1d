/** The command line of sd-idle (sd-idle/src/sd-idle-2.6.c:213-342). */
module Options {
  import opened Strings
  import opened CNumbers
  import opened DiskMask

  const IDLETIME_DEFAULT := 900
  const IDLETIME_MIN := 300
  const CHECKTIME_DEFAULT := 30
  const CHECKTIME_MIN := 5

  // ---------- strtol ----------

  // Width of the C type long: the program is built for 32-bit and 64-bit targets.
  datatype Abi = Long32 | Long64

  function Clamp(abi: Abi, v: int): int {
    var max := if abi.Long32? then 0x7FFF_FFFF else 0x7FFF_FFFF_FFFF_FFFF;
    if v > max then max else if v < -max - 1 then -max - 1 else v
  }

  predicate IsSpace(c: char) { c == ' ' || '\t' <= c <= '\r' }

  /** The six blanks: tabs, line feeds, form feeds, carriage returns and the space. */
  lemma Blanks(c: char)
    ensures IsSpace(c) <==> c as int in {9, 10, 11, 12, 13, 32}
  {
  }

  predicate AllSpaces(s: string) { forall i :: 0 <= i < |s| ==> IsSpace(s[i]) }

  function SkipSpaces(s: string, i: nat): (k: nat)
    requires i <= |s|
    ensures i <= k <= |s| && AllSpaces(s[i..k])
    ensures k < |s| ==> !IsSpace(s[k])
    decreases |s| - i
  {
    if i < |s| && IsSpace(s[i]) then
      var k := SkipSpaces(s, i + 1);
      assert s[i..k] == [s[i]] + s[i + 1..k];
      k
    else i
  }

  function SkipDigits(s: string, i: nat): (k: nat)
    requires i <= |s|
    ensures i <= k <= |s| && AllDigits(s[i..k])
    ensures k < |s| ==> !IsDigit(s[k])
    decreases |s| - i
  {
    if i < |s| && IsDigit(s[i]) then
      var k := SkipDigits(s, i + 1);
      assert s[i..k] == [s[i]] + s[i + 1..k];
      k
    else i
  }

  // strtol in base ten: the value and the position of the first character not used.
  function StrToL(abi: Abi, s: string): (int, nat) {
    var a := SkipSpaces(s, 0);
    var neg := a < |s| && s[a] == '-';
    var b := if a < |s| && (s[a] == '-' || s[a] == '+') then a + 1 else a;
    var e := SkipDigits(s, b);
    if e == b then (0, 0)
    else
      var v: int := DigitsValue(s[b..e]);
      (Clamp(abi, if neg then -v else v), e)
  }

  function AtLeast(min: int, v: int): int { if v < min then min else v }

  // A time option: a fully read number raised to the minimum, or else the default.
  function TimeOption(abi: Abi, text: string, min: int, default: int): int {
    var (v, end) := StrToL(abi, text);
    if text != "" && end == |text| then AtLeast(min, ToInt32(v)) else default
  }

  /** A time option never falls below the minimum when the default does not. */
  lemma TimeAtLeast(abi: Abi, text: string, min: int, default: int)
    requires min <= default
    ensures TimeOption(abi, text, min, default) >= min
  {
  }

  // A text that is blanks, an optional sign and at least one digit, in this order.
  ghost predicate Numeral(text: string, blanks: string, sign: string, digits: string) {
    && text == blanks + sign + digits
    && AllSpaces(blanks) && sign in ["", "+", "-"] && digits != "" && AllDigits(digits)
  }

  ghost predicate IsNumeral(text: string) {
    exists blanks, sign, digits :: Numeral(text, blanks, sign, digits)
  }

  function Signed(sign: string, digits: string): int
    requires AllDigits(digits)
  {
    if sign == "-" then -(DigitsValue(digits) as int) else DigitsValue(digits)
  }

  // What an option of that text sets: the number as the C library and the assignment to
  // an int leave it.
  function NumeralTime(abi: Abi, sign: string, digits: string): int
    requires AllDigits(digits)
  {
    ToInt32(Clamp(abi, Signed(sign, digits)))
  }

  lemma SkipExactly(s: string, i: nat, k: nat)
    requires i <= k <= |s| && AllSpaces(s[i..k]) && (k < |s| ==> !IsSpace(s[k]))
    ensures SkipSpaces(s, i) == k
    decreases k - i
  {
    if i < k {
      assert IsSpace(s[i..k][0]);
      assert s[i + 1..k] == s[i..k][1..];
      SkipExactly(s, i + 1, k);
    }
  }

  lemma SkipAllDigits(s: string, i: nat)
    requires i <= |s| && (forall k :: i <= k < |s| ==> IsDigit(s[k]))
    ensures SkipDigits(s, i) == |s|
  {
  }

  lemma NumeralBlanks(text: string, blanks: string, sign: string, digits: string)
    requires Numeral(text, blanks, sign, digits)
    ensures SkipSpaces(text, 0) == |blanks| < |text|
    ensures sign == "" ==> IsDigit(text[|blanks|])
    ensures sign != "" ==> [text[|blanks|]] == sign
  {
    var a := |blanks|;
    assert text[0..a] == blanks;
    assert sign == "" ==> text[a] == digits[0] && IsDigit(digits[0]);
    assert sign != "" ==> text[a] == sign[0];
    SkipExactly(text, 0, a);
  }

  lemma LastPart(head: string, digits: string)
    requires AllDigits(digits)
    ensures (head + digits)[|head|..|head + digits|] == digits
    ensures forall k :: |head| <= k < |head + digits| ==> IsDigit((head + digits)[k])
  {
  }

  lemma NumeralDigits(text: string, blanks: string, sign: string, digits: string)
    requires Numeral(text, blanks, sign, digits)
    ensures |sign| <= 1 && |blanks| + |sign| < |text|
    ensures SkipDigits(text, |blanks| + |sign|) == |text|
    ensures text[|blanks| + |sign|..|text|] == digits
  {
    hide SkipDigits;
    var head := blanks + sign;
    assert text == head + digits;
    LastPart(head, digits);
    SkipAllDigits(text, |head|);
  }

  lemma NumeralTaken(abi: Abi, text: string, blanks: string, sign: string, digits: string)
    requires Numeral(text, blanks, sign, digits)
    ensures StrToL(abi, text) == (Clamp(abi, Signed(sign, digits)), |text|)
  {
    hide Clamp, DigitsValue, SkipSpaces, SkipDigits;
    NumeralBlanks(text, blanks, sign, digits);
    NumeralDigits(text, blanks, sign, digits);
  }

  lemma ThreeParts(text: string, a: nat, b: nat)
    requires a <= b < |text| && AllSpaces(text[0..a]) && AllDigits(text[b..|text|])
    requires a == b || text[a..b] == "+" || text[a..b] == "-"
    ensures Numeral(text, text[0..a], text[a..b], text[b..|text|])
  {
    hide AllSpaces, AllDigits;
    assert text == text[0..a] + text[a..b] + text[b..|text|];
  }

  lemma TakenNumeral(abi: Abi, text: string)
    requires text != "" && StrToL(abi, text).1 == |text|
    ensures IsNumeral(text)
  {
    hide Clamp, DigitsValue, SkipSpaces, SkipDigits, AllSpaces, AllDigits, Numeral;
    var a := SkipSpaces(text, 0);
    var b := if a < |text| && (text[a] == '-' || text[a] == '+') then a + 1 else a;
    assert SkipDigits(text, b) == |text|;
    if a < b { assert text[a..b] == [text[a]]; }
    ThreeParts(text, a, b);
  }

  lemma NumeralNotEmpty(text: string, blanks: string, sign: string, digits: string)
    requires Numeral(text, blanks, sign, digits)
    ensures text != "" && AllDigits(digits)
  {
  }

  lemma TakenTime(abi: Abi, text: string, sign: string, digits: string, min: int, default: int)
    requires AllDigits(digits) && text != "" && StrToL(abi, text) == (Clamp(abi, Signed(sign, digits)), |text|)
    ensures TimeOption(abi, text, min, default) == AtLeast(min, NumeralTime(abi, sign, digits))
  {
    hide StrToL, Clamp, Signed, ToInt32;
  }

  /** A time option is taken exactly when its text is a numeral with nothing after it; the
      time is then its value, as far as an int holds it, raised to the minimum. */
  lemma TimeOptionExact(abi: Abi, text: string, min: int, default: int)
    ensures forall blanks, sign, digits :: Numeral(text, blanks, sign, digits) ==>
              TimeOption(abi, text, min, default) == AtLeast(min, NumeralTime(abi, sign, digits))
    ensures !IsNumeral(text) ==> TimeOption(abi, text, min, default) == default
  {
    hide StrToL, NumeralTime;
    forall blanks, sign, digits | Numeral(text, blanks, sign, digits)
      ensures TimeOption(abi, text, min, default) == AtLeast(min, NumeralTime(abi, sign, digits))
    {
      NumeralNotEmpty(text, blanks, sign, digits);
      NumeralTaken(abi, text, blanks, sign, digits);
      TakenTime(abi, text, sign, digits, min, default);
    }
    if text != "" && StrToL(abi, text).1 == |text| { TakenNumeral(abi, text); }
  }

  lemma NarrowLong(v: int)
    ensures ToInt32(Clamp(Long32, v))
         == if v > 0x7FFF_FFFF then 0x7FFF_FFFF else if v < -0x8000_0000 then -0x8000_0000 else v
  {
    hide ToInt32;
  }

  lemma AboveLong(v: int)
    requires v > 0x7FFF_FFFF_FFFF_FFFF
    ensures ToInt32(Clamp(Long64, v)) == -1
  {
    assert ToInt32(0x7FFF_FFFF_FFFF_FFFF) == -1;
  }

  lemma BelowLong(v: int)
    requires v < -0x8000_0000_0000_0000
    ensures ToInt32(Clamp(Long64, v)) == 0
  {
    assert ToInt32(-0x8000_0000_0000_0000) == 0;
  }

  lemma Low32(v: int)
    ensures (ToInt32(v) - v) % 0x1_0000_0000 == 0
  {
  }

  lemma WithinLong(v: int)
    requires -0x8000_0000_0000_0000 <= v <= 0x7FFF_FFFF_FFFF_FFFF
    ensures ToInt32(Clamp(Long64, v)) == ToInt32(v)
  {
    hide ToInt32;
  }

  /** Numerals beyond int: where long has 32 bits the nearest int is taken; where it has 64
      bits the low 32 bits of the value count, and beyond long even the sign is lost: the
      largest long reads as -1 and the smallest as 0. */
  lemma HugeNumerals(sign: string, digits: string)
    requires AllDigits(digits)
    ensures var v := Signed(sign, digits);
            && NumeralTime(Long32, sign, digits)
               == (if v > 0x7FFF_FFFF then 0x7FFF_FFFF else if v < -0x8000_0000 then -0x8000_0000 else v)
            && (v > 0x7FFF_FFFF_FFFF_FFFF ==> NumeralTime(Long64, sign, digits) == -1)
            && (v < -0x8000_0000_0000_0000 ==> NumeralTime(Long64, sign, digits) == 0)
            && (-0x8000_0000_0000_0000 <= v <= 0x7FFF_FFFF_FFFF_FFFF ==>
                  (NumeralTime(Long64, sign, digits) - v) % 0x1_0000_0000 == 0)
  {
    hide ToInt32, Clamp, Signed;
    var v := Signed(sign, digits);
    NarrowLong(v);
    Low32(v);
    if v > 0x7FFF_FFFF_FFFF_FFFF {
      AboveLong(v);
    } else if v < -0x8000_0000_0000_0000 {
      BelowLong(v);
    } else {
      WithinLong(v);
    }
  }

  lemma ReadsNatural(abi: Abi, n: nat)
    ensures StrToL(abi, Digits(n)) == (Clamp(abi, n), |Digits(n)|)
  {
    hide Digits, Clamp;
    var s := Digits(n);
    DigitsRead(n);
    assert SkipSpaces(s, 0) == 0;
    assert s[0..|s|] == s;
    SkipAllDigits(s, 0);
  }

  lemma ReadsNegative(abi: Abi, n: nat)
    ensures StrToL(abi, "-" + Digits(n)) == (Clamp(abi, -(n as int)), 1 + |Digits(n)|)
  {
    hide Digits, Clamp;
    var s := "-" + Digits(n);
    DigitsRead(n);
    assert s[1..] == Digits(n);
    assert SkipSpaces(s, 0) == 0;
    assert forall k :: 1 <= k < |s| ==> s[k] == Digits(n)[k - 1];
    SkipAllDigits(s, 1);
    assert s[1..|s|] == s[1..];
  }

  /** Any number an int can hold is taken as written, up to the minimum. */
  lemma TimeOptionOfNumeral(abi: Abi, n: int, min: int, default: int)
    requires -0x8000_0000 <= n <= 0x7FFF_FFFF
    ensures TimeOption(abi, Decimal(n), min, default) == if n < min then min else n
  {
    hide StrToL, Digits;
    if n >= 0 { ReadsNatural(abi, n); } else { ReadsNegative(abi, -n); }
  }

  lemma TimeConverted(abi: Abi, sign: string, digits: string)
    requires AllDigits(digits)
    ensures NumeralTime(abi, sign, digits) == ToInt32(Clamp(abi, Signed(sign, digits)))
  {
    hide ToInt32, Clamp, Signed;
  }

  lemma InIntRange(abi: Abi, v: int)
    ensures -0x8000_0000 <= v <= 0x7FFF_FFFF ==> ToInt32(Clamp(abi, v)) == v
  {
    hide ToInt32;
  }

  // What becomes of a number on the way to an int.
  lemma Converted(abi: Abi, v: int)
    ensures var r := ToInt32(Clamp(abi, v));
            && (v > 0x7FFF_FFFF && abi.Long32? ==> r == 0x7FFF_FFFF)
            && (v < -0x8000_0000 && abi.Long32? ==> r == -0x8000_0000)
            && (v < -0x8000_0000_0000_0000 && abi.Long64? ==> r == 0)
            && (-0x8000_0000_0000_0000 <= v <= 0x7FFF_FFFF_FFFF_FFFF && abi.Long64? ==> r == ToInt32(v))
            && (-0x8000_0000 <= v <= 0x7FFF_FFFF ==> r == v)
  {
    hide ToInt32, Clamp;
    InIntRange(abi, v);
    NarrowLong(v);
    if v > 0x7FFF_FFFF_FFFF_FFFF {
    } else if v < -0x8000_0000_0000_0000 {
      BelowLong(v);
    } else {
      WithinLong(v);
    }
  }

  /** The setting is the number written, raised to the minimum, exactly when that number is
      no more than an int holds and, with a 64-bit long, is not a negative one whose low
      32 bits read as something above the minimum. */
  lemma SettingHonoured(abi: Abi, text: string, blanks: string, sign: string, digits: string, min: int, default: int)
    requires Numeral(text, blanks, sign, digits) && 0 < min <= 0x7FFF_FFFF
    ensures var v := Signed(sign, digits);
            (TimeOption(abi, text, min, default) == AtLeast(min, v)
             <==> v <= 0x7FFF_FFFF
                  && (abi.Long64? && -0x8000_0000_0000_0000 <= v < -0x8000_0000 ==> ToInt32(v) <= min))
  {
    hide Numeral, NumeralTime, TimeOption, Clamp, StrToL;
    TimeOptionExact(abi, text, min, default);
    NumeralNotEmpty(text, blanks, sign, digits);
    Converted(abi, Signed(sign, digits));
    TimeConverted(abi, sign, digits);
  }

  /** With a 64-bit long a large negative time, and likewise 2^32 + 1000, sets 1000. */
  lemma LowBitsTaken(default: int)
    ensures TimeOption(Long64, Decimal(-4294966296), IDLETIME_MIN, default) == 1000
    ensures TimeOption(Long64, Decimal(4294968296), IDLETIME_MIN, default) == 1000
  {
    hide StrToL, Digits;
    ReadsNegative(Long64, 4294966296);
    ReadsNatural(Long64, 4294968296);
  }

  // ---------- Disk sets ----------

  function Letters(text: string): set<nat> {
    set i | 0 <= i < |text| && 'a' <= text[i] <= 'z' :: text[i] as int - 'a' as int
  }

  // What the mask stands for: the disks managed, and whether the unused bits are set.
  datatype Choice = Choice(disks: set<nat>, high: bool)

  function Choose(c: Choice, text: string): Choice {
    if text == "" then c
    else if text[0] == '!' then c.(disks := c.disks - Letters(text[1..]))
    else Choice(Letters(text), false)
  }

  ghost predicate Describes(mask: bv32, c: Choice) {
    forall b :: 0 <= b < 32 ==> (IsSet(mask, b) <==> if b < 26 then b in c.disks else c.high)
  }

  lemma ZeroMask(mask: bv32)
    requires forall b :: 0 <= b < 32 ==> !IsSet(mask, b)
    ensures mask == 0
  {
    assert !IsSet(mask, 0) && !IsSet(mask, 1) && !IsSet(mask, 2) && !IsSet(mask, 3);
    assert !IsSet(mask, 4) && !IsSet(mask, 5) && !IsSet(mask, 6) && !IsSet(mask, 7);
    assert !IsSet(mask, 8) && !IsSet(mask, 9) && !IsSet(mask, 10) && !IsSet(mask, 11);
    assert !IsSet(mask, 12) && !IsSet(mask, 13) && !IsSet(mask, 14) && !IsSet(mask, 15);
    assert !IsSet(mask, 16) && !IsSet(mask, 17) && !IsSet(mask, 18) && !IsSet(mask, 19);
    assert !IsSet(mask, 20) && !IsSet(mask, 21) && !IsSet(mask, 22) && !IsSet(mask, 23);
    assert !IsSet(mask, 24) && !IsSet(mask, 25) && !IsSet(mask, 26) && !IsSet(mask, 27);
    assert !IsSet(mask, 28) && !IsSet(mask, 29) && !IsSet(mask, 30) && !IsSet(mask, 31);
  }

  lemma SetLetter(mask: bv32, c: Choice, d: nat, m: bv32)
    requires Describes(mask, c) && d < 26 && m == mask | Mask(d)
    ensures Describes(m, c.(disks := c.disks + {d}))
  {
    hide IsSet, Mask;
    forall b | 0 <= b < 32 ensures IsSet(m, b) == (d == b || IsSet(mask, b)) {
      SetBit(mask, d, b);
    }
  }

  lemma ClearLetter(mask: bv32, c: Choice, d: nat, m: bv32)
    requires Describes(mask, c) && d < 26 && m == mask & !Mask(d)
    ensures Describes(m, c.(disks := c.disks - {d}))
  {
    hide IsSet, Mask;
    forall b | 0 <= b < 32 ensures IsSet(m, b) == (d != b && IsSet(mask, b)) {
      ClearBit(mask, d, b);
    }
  }

  lemma EmptyMask(mask: bv32, c: Choice)
    requires Describes(mask, c) && (forall d :: d in c.disks ==> d < 26)
    ensures mask == 0 <==> c.disks == {} && !c.high
  {
    hide IsSet, Mask;
    if c.disks == {} && !c.high {
      ZeroMask(mask);
    } else if mask == 0 {
      Extremes(31);
      if d :| d in c.disks {
        Extremes(d);
      }
    }
  }

  // ---------- The whole command line ----------

  datatype Opt = Disks(text: string) | Idle(text: string) | Check(text: string)

  datatype Settings = Settings(choice: Choice, idletime: int, checktime: int)

  const DEFAULTS := Settings(Choice(set d | 0 <= d < 26, true), IDLETIME_DEFAULT, CHECKTIME_DEFAULT)

  const OPTIONS := ["-d", "-i", "-c"]
  const IMMEDIATE := ["-h", "--help", "-v", "--version"]

  function OptionOf(name: string, text: string): Opt {
    if name == "-d" then Disks(text) else if name == "-i" then Idle(text) else Check(text)
  }

  // The options in order, or None when one is unknown or lacks its parameter.
  function ReadOptions(args: seq<string>): Option<seq<Opt>> {
    if args == [] then Some([])
    else if args[0] !in OPTIONS || |args| == 1 then None
    else
      match ReadOptions(args[2..])
      case None => None
      case Some(rest) =>
        Some([OptionOf(args[0], args[1])] + rest)
  }

  function Render(opts: seq<Opt>): seq<string> {
    if opts == [] then []
    else
      var o := opts[0];
      [if o.Disks? then "-d" else if o.Idle? then "-i" else "-c", o.text] + Render(opts[1..])
  }

  /** The second pass accepts exactly the well-formed argument lists, and reads from them
      the options they write down. */
  lemma {:induction false} ReadsRendered(args: seq<string>, opts: seq<Opt>)
    ensures ReadOptions(args) == Some(opts) <==> args == Render(opts)
    decreases |args|
  {
    if |args| >= 2 && args[0] in OPTIONS {
      var o := OptionOf(args[0], args[1]);
      if opts != [] {
        ReadsRendered(args[2..], opts[1..]);
        assert args == [args[0], args[1]] + args[2..];
        assert args == Render(opts) ==> args[2..] == Render(opts[1..]) && opts[0] == o;
        assert ReadOptions(args) == Some(opts) ==> opts[0] == o && ReadOptions(args[2..]) == Some(opts[1..]);
        assert opts == [opts[0]] + opts[1..];
      }
    }
  }

  // None stands for the exit with "No disks specified".
  function ApplyOption(abi: Abi, s: Settings, o: Opt): Option<Settings> {
    match o
    case Disks(text) =>
      var c := Choose(s.choice, text);
      if text != "" && c.disks == {} && !c.high then None else Some(s.(choice := c))
    case Idle(text) => Some(s.(idletime := TimeOption(abi, text, IDLETIME_MIN, IDLETIME_DEFAULT)))
    case Check(text) => Some(s.(checktime := TimeOption(abi, text, CHECKTIME_MIN, CHECKTIME_DEFAULT)))
  }

  function ApplyOptions(abi: Abi, s: Settings, opts: seq<Opt>): Option<Settings> {
    if opts == [] then Some(s)
    else
      match ApplyOptions(abi, s, opts[..|opts| - 1])
      case None => None
      case Some(s') => ApplyOption(abi, s', opts[|opts| - 1])
  }

  datatype Outcome = Exit(status: int) | Proceed

  // What the two passes come to: -h and -v anywhere win; then unknown options, missing
  // parameters and an empty disk choice end the program with status 1.
  function FinalSettings(abi: Abi, args: seq<string>): Option<Settings> {
    match ReadOptions(args)
    case None => None
    case Some(opts) => ApplyOptions(abi, DEFAULTS, opts)
  }

  function Expected(abi: Abi, args: seq<string>): Outcome {
    if exists a :: a in args && a in IMMEDIATE then Exit(0)
    else if FinalSettings(abi, args).None? then Exit(1)
    else Proceed
  }

  function Prepend(done: seq<Opt>, rest: Option<seq<Opt>>): Option<seq<Opt>> {
    match rest
    case None => None
    case Some(r) => Some(done + r)
  }

  lemma PrependEnds(done: seq<Opt>, rest: Option<seq<Opt>>)
    ensures Prepend([], rest) == rest
    ensures Prepend(done, Some([])) == Some(done)
  {
    if rest.Some? { assert [] + rest.value == rest.value; }
    assert done + [] == done;
  }

  lemma PrependSnoc(done: seq<Opt>, o: Opt, rest: Option<seq<Opt>>)
    ensures Prepend(done + [o], rest) == Prepend(done, Prepend([o], rest))
  {
    if rest.Some? { assert done + [o] + rest.value == done + ([o] + rest.value); }
  }

  lemma ReadNext(args: seq<string>, a: nat, done: seq<Opt>)
    requires a + 1 < |args| && args[a] in OPTIONS
    ensures Prepend(done, ReadOptions(args[a..]))
         == Prepend(done + [OptionOf(args[a], args[a + 1])], ReadOptions(args[a + 2..]))
  {
    var rest := args[a..];
    assert rest[2..] == args[a + 2..] && rest[0] == args[a] && rest[1] == args[a + 1];
    PrependSnoc(done, OptionOf(args[a], args[a + 1]), ReadOptions(args[a + 2..]));
  }

  lemma ApplySnoc(abi: Abi, s: Settings, opts: seq<Opt>, o: Opt)
    ensures ApplyOptions(abi, s, opts + [o])
         == match ApplyOptions(abi, s, opts) { case None => None case Some(s') => ApplyOption(abi, s', o) }
  {
    assert (opts + [o])[..|opts|] == opts;
  }

  lemma {:induction false} ApplyNoneStays(abi: Abi, s: Settings, a: seq<Opt>, b: seq<Opt>)
    requires ApplyOptions(abi, s, a).None?
    ensures ApplyOptions(abi, s, a + b).None?
    decreases |b|
  {
    if b == [] {
      assert a + b == a;
    } else {
      assert (a + b)[..|a + b| - 1] == a + b[..|b| - 1];
      ApplyNoneStays(abi, s, a, b[..|b| - 1]);
    }
  }

  function WithLetters(c: Choice, letters: set<nat>, including: bool): Choice {
    c.(disks := if including then c.disks + letters else c.disks - letters)
  }

  lemma NothingChosen()
    ensures Describes(0, Choice({}, false))
  {
    hide IsSet;
    forall b | 0 <= b < 32 ensures !IsSet(0, b) { Extremes(b); }
  }

  function Marked(c: Choice, letter: char, including: bool): Choice {
    if letter < 'a' || 'z' < letter then c
    else WithLetters(c, {letter as int - 'a' as int}, including)
  }

  lemma ChosenText(c: Choice, text: string)
    requires text != ""
    ensures Choose(c, text)
         == if text[0] == '!' then WithLetters(c, Letters(text[1..]), false)
            else WithLetters(Choice({}, false), Letters(text[0..]), true)
  {
    assert text[0..] == text;
  }

  lemma NoLetters(c: Choice, text: string, including: bool)
    ensures WithLetters(c, Letters(text[..0]), including) == c
  {
  }

  lemma LettersSmall(text: string)
    ensures forall d :: d in Letters(text) ==> d < 26
  {
  }

  lemma LettersOfSnoc(s: string, c: char)
    ensures Letters(s + [c]) == Letters(s) + if 'a' <= c <= 'z' then {c as int - 'a' as int} else {}
  {
    var t := s + [c];
    forall d | d in Letters(s) ensures d in Letters(t) {
      var k :| 0 <= k < |s| && 'a' <= s[k] <= 'z' && s[k] as int - 'a' as int == d;
      assert t[k] == s[k];
    }
    if 'a' <= c <= 'z' { assert t[|s|] == c; }
  }

  lemma LettersSnoc(c: Choice, text: string, i: nat, including: bool)
    requires i < |text|
    ensures WithLetters(c, Letters(text[..i + 1]), including)
         == Marked(WithLetters(c, Letters(text[..i]), including), text[i], including)
  {
    var s, t, letter := text[..i], text[..i + 1], text[i];
    assert t == s + [letter];
    LettersOfSnoc(s, letter);
  }

  // ---------- The program's options ----------

  ghost predicate Written(args: seq<string>) { exists opts :: args == Render(opts) }

  // The disk choice after the -d options alone, in order.
  function FoldChoice(opts: seq<Opt>): Choice {
    if opts == [] then DEFAULTS.choice
    else
      var c := FoldChoice(opts[..|opts| - 1]);
      match opts[|opts| - 1]
      case Disks(text) => Choose(c, text)
      case _ => c
  }

  predicate NamesDisks(o: Opt) { o.Disks? && o.text != "" }

  ghost predicate HasInclude(opts: seq<Opt>) {
    exists i :: 0 <= i < |opts| && NamesDisks(opts[i]) && opts[i].text[0] != '!'
  }

  // A -d option that leaves nothing selected, with an inclusion somewhere up to it.
  ghost predicate Emptied(opts: seq<Opt>) {
    opts != [] && NamesDisks(opts[|opts| - 1]) && FoldChoice(opts).disks == {} && HasInclude(opts)
  }

  // Some -d option, after an inclusion, leaves no disk.
  ghost predicate LeavesNone(args: seq<string>) {
    exists opts, k :: args == Render(opts) && 0 < k <= |opts| && Emptied(opts[..k])
  }

  ghost predicate Immediate(args: seq<string>) {
    exists a :: a in args && a in ["-h", "--help", "-v", "--version"]
  }

  lemma {:induction false} HighBits(opts: seq<Opt>)
    ensures FoldChoice(opts).high <==> !HasInclude(opts)
  {
    if opts != [] {
      var past := opts[..|opts| - 1];
      HighBits(past);
      var o := opts[|opts| - 1];
      if HasInclude(past) {
        var i :| 0 <= i < |past| && NamesDisks(past[i]) && past[i].text[0] != '!';
        assert opts[i] == past[i];
      }
      if HasInclude(opts) {
        var i :| 0 <= i < |opts| && NamesDisks(opts[i]) && opts[i].text[0] != '!';
        assert i < |past| ==> past[i] == opts[i];
      }
    }
  }

  /** Whenever the arguments are accepted, the times respect their minima and the managed
      disks are what the -d options select one after the other: an inclusion replaces the
      set by its letters, an exclusion subtracts them. */
  lemma {:induction false} AcceptedSettings(abi: Abi, opts: seq<Opt>)
    ensures match ApplyOptions(abi, DEFAULTS, opts)
            case None => true
            case Some(s) => s.idletime >= IDLETIME_MIN && s.checktime >= CHECKTIME_MIN && s.choice == FoldChoice(opts)
  {
    hide TimeOption, Letters;
    if opts != [] {
      AcceptedSettings(abi, opts[..|opts| - 1]);
      TimeAtLeast(abi, opts[|opts| - 1].text, IDLETIME_MIN, IDLETIME_DEFAULT);
      TimeAtLeast(abi, opts[|opts| - 1].text, CHECKTIME_MIN, CHECKTIME_DEFAULT);
    }
  }

  /** The check for an empty selection fires exactly when a -d option leaves no disk
      selected and some -d option so far was an inclusion. */
  lemma {:induction false} NoDisksExit(abi: Abi, opts: seq<Opt>)
    ensures ApplyOptions(abi, DEFAULTS, opts).None? <==> exists k :: 0 < k <= |opts| && Emptied(opts[..k])
  {
    hide TimeOption, Letters, HasInclude;
    if opts != [] {
      var past := opts[..|opts| - 1];
      NoDisksExit(abi, past);
      AcceptedSettings(abi, past);
      HighBits(opts);
      assert forall k :: 0 < k <= |past| ==> past[..k] == opts[..k];
      assert opts[..|opts|] == opts;
      if ApplyOptions(abi, DEFAULTS, past).None? {
        var k :| 0 < k <= |past| && Emptied(past[..k]);
        assert Emptied(opts[..k]);
      }
    }
  }

  /** Which way the program goes: status 0 for help or version anywhere, else status 1 for
      arguments that are not options with their parameters or that leave no disk, else the
      daemon. */
  lemma ExpectedMeans(abi: Abi, args: seq<string>)
    ensures Expected(abi, args)
         == if Immediate(args) then Exit(0) else if !Written(args) || LeavesNone(args) then Exit(1) else Proceed
  {
    hide ApplyOptions, Emptied, Render, ReadOptions;
    if ReadOptions(args).Some? {
      var opts := ReadOptions(args).value;
      ReadsRendered(args, opts);
      NoDisksExit(abi, opts);
      if LeavesNone(args) {
        var opts', k :| args == Render(opts') && 0 < k <= |opts'| && Emptied(opts'[..k]);
        ReadsRendered(args, opts');
        assert 0 < k <= |opts| && Emptied(opts[..k]);
      }
    } else if Written(args) {
      var opts :| args == Render(opts);
      ReadsRendered(args, opts);
    }
  }

  class Options {
    var managing: bv32
    var idletime: int
    var checktime: int
    const abi: Abi

    ghost predicate Holds(s: Settings)
      reads this
    {
      && Describes(managing, s.choice)
      && (forall d :: d in s.choice.disks ==> d < 26)
      && idletime == s.idletime && checktime == s.checktime
    }

    constructor (abi: Abi)
      ensures Holds(DEFAULTS) && this.abi == abi
    {
      this.abi := abi;
      managing, idletime, checktime := 0xFFFF_FFFF, IDLETIME_DEFAULT, CHECKTIME_DEFAULT;
      new;
      hide IsSet;
      forall b | 0 <= b < 32 { Extremes(b); }
    }

    // One character of the -d parameter; anything but a letter is ignored.
    method MarkLetter(letter: char, including: bool, ghost c: Choice)
      requires Describes(managing, c)
      modifies this`managing
      ensures Describes(managing, Marked(c, letter, including))
    {
      hide IsSet, Mask, Describes;
      if letter < 'a' || 'z' < letter { return; }
      var d := letter as int - 'a' as int;
      var bits := managing;
      if including {
        var marked := bits | Mask(d);
        SetLetter(bits, c, d, marked);
        managing := marked;
      } else {
        var cleared := bits & !Mask(d);
        ClearLetter(bits, c, d, cleared);
        managing := cleared;
      }
    }

    method SetDisks(text: string, ghost s: Settings) returns (exit: bool)
      requires Holds(s)
      modifies this`managing
      ensures exit <==> ApplyOption(abi, s, Disks(text)).None?
      ensures Holds(s.(choice := Choose(s.choice, text)))
    {
      hide IsSet, Mask, Describes, Letters, Marked;
      if text == "" { return false; }
      var including := text[0] != '!';
      var p := if including then 0 else 1;
      ghost var rest := text[p..];
      ghost var base := if including then Choice({}, false) else s.choice;
      if including {
        managing := 0;
        NothingChosen();
      }
      ghost var i := 0;
      NoLetters(base, rest, including);
      while p < |text|
        invariant i <= |rest| && p == |text| - |rest| + i
        invariant Describes(managing, WithLetters(base, Letters(rest[..i]), including))
      {
        LettersSnoc(base, rest, i, including);
        MarkLetter(text[p], including, WithLetters(base, Letters(rest[..i]), including));
        p, i := p + 1, i + 1;
      }
      assert rest[..i] == rest;
      ChosenText(s.choice, text);
      LettersSmall(rest);
      EmptyMask(managing, Choose(s.choice, text));
      exit := managing == 0;
    }

    method SetIdletime(text: string)
      modifies this`idletime
      ensures idletime == TimeOption(abi, text, IDLETIME_MIN, IDLETIME_DEFAULT)
      ensures idletime >= IDLETIME_MIN
      ensures forall blanks, sign, digits :: Numeral(text, blanks, sign, digits) ==>
                idletime == AtLeast(IDLETIME_MIN, NumeralTime(abi, sign, digits))
      ensures !IsNumeral(text) ==> idletime == IDLETIME_DEFAULT
    {
      hide StrToL, NumeralTime, Numeral, ToInt32;
      TimeAtLeast(abi, text, IDLETIME_MIN, IDLETIME_DEFAULT);
      TimeOptionExact(abi, text, IDLETIME_MIN, IDLETIME_DEFAULT);
      var (v, end) := StrToL(abi, text);
      idletime := ToInt32(v);
      if text != "" && end == |text| {
        if idletime < IDLETIME_MIN { idletime := IDLETIME_MIN; }
        return;
      }
      idletime := IDLETIME_DEFAULT;
    }

    method SetChecktime(text: string)
      modifies this`checktime
      ensures checktime == TimeOption(abi, text, CHECKTIME_MIN, CHECKTIME_DEFAULT)
      ensures checktime >= CHECKTIME_MIN
      ensures forall blanks, sign, digits :: Numeral(text, blanks, sign, digits) ==>
                checktime == AtLeast(CHECKTIME_MIN, NumeralTime(abi, sign, digits))
      ensures !IsNumeral(text) ==> checktime == CHECKTIME_DEFAULT
    {
      hide StrToL, NumeralTime, Numeral, ToInt32;
      TimeAtLeast(abi, text, CHECKTIME_MIN, CHECKTIME_DEFAULT);
      TimeOptionExact(abi, text, CHECKTIME_MIN, CHECKTIME_DEFAULT);
      var (v, end) := StrToL(abi, text);
      checktime := ToInt32(v);
      if text != "" && end == |text| {
        if checktime < CHECKTIME_MIN { checktime := CHECKTIME_MIN; }
        return;
      }
      checktime := CHECKTIME_DEFAULT;
    }

    method SetOption(name: string, text: string, ghost s: Settings) returns (exit: bool)
      requires Holds(s) && name in OPTIONS
      modifies this
      ensures exit <==> ApplyOption(abi, s, OptionOf(name, text)).None?
      ensures !exit ==> Holds(ApplyOption(abi, s, OptionOf(name, text)).value)
    {
      hide TimeOption, Describes, Letters;
      exit := false;
      if name == "-d" {
        exit := SetDisks(text, s);
      } else if name == "-i" {
        SetIdletime(text);
      } else {
        SetChecktime(text);
      }
    }

    /** Both passes over the arguments, the program name not among them. */
    method ParseOptions(args: seq<string>) returns (outcome: Outcome)
      requires Holds(DEFAULTS)
      modifies this
      ensures outcome == Expected(abi, args)
      ensures outcome == Exit(0) <==> Immediate(args)
      ensures outcome == Exit(1) <==> !Immediate(args) && (!Written(args) || LeavesNone(args))
      ensures outcome in {Exit(0), Exit(1), Proceed}
      ensures outcome == Proceed ==> Holds(FinalSettings(abi, args).value)
    {
      hide Holds, ApplyOption, OptionOf, Immediate, Written, LeavesNone;
      ExpectedMeans(abi, args);
      var a := 0;
      while a < |args|
        invariant a <= |args|
        invariant forall k :: 0 <= k < a ==> args[k] !in IMMEDIATE
      {
        if args[a] in IMMEDIATE { return Exit(0); }
        a := a + 1;
      }
      a := 0;
      ghost var done: seq<Opt> := [];
      ghost var s := DEFAULTS;
      assert args[0..] == args;
      PrependEnds(done, ReadOptions(args));
      while a < |args|
        invariant a <= |args|
        invariant ApplyOptions(abi, DEFAULTS, done) == Some(s) && Holds(s)
        invariant ReadOptions(args) == Prepend(done, ReadOptions(args[a..]))
      {
        if args[a] !in OPTIONS { return Exit(1); }
        if a + 1 >= |args| { return Exit(1); }
        ghost var o, rest := OptionOf(args[a], args[a + 1]), ReadOptions(args[a + 2..]);
        ReadNext(args, a, done);
        ApplySnoc(abi, DEFAULTS, done, o);
        var exit := SetOption(args[a], args[a + 1], s);
        if exit {
          if rest.Some? { ApplyNoneStays(abi, DEFAULTS, done + [o], rest.value); }
          return Exit(1);
        }
        done, s := done + [o], ApplyOption(abi, s, o).value;
        a := a + 2;
      }
      assert args[a..] == [];
      PrependEnds(done, ReadOptions(args));
      outcome := Proceed;
    }
  }

  // ---------- What an accepted command line means ----------

  // ---------- From the arguments themselves ----------

  // Two arguments, a name and a text, and the option they are.
  predicate StandFor(name: string, text: string, o: Opt) {
    (name == "-d" && o == Disks(text)) || (name == "-i" && o == Idle(text)) || (name == "-c" && o == Check(text))
  }

  lemma NamedOption(name: string, text: string)
    requires name in OPTIONS
    ensures StandFor(name, text, OptionOf(name, text))
  {
  }

  /** Accepted arguments are pairs of a name and a text, and this is what they stand for. */
  lemma {:induction false} ReadAt(args: seq<string>, opts: seq<Opt>)
    requires ReadOptions(args) == Some(opts)
    ensures |args| == 2 * |opts|
    ensures forall k :: 0 <= k < |opts| ==> StandFor(args[2 * k], args[2 * k + 1], opts[k])
    decreases |args|
  {
    hide OptionOf, StandFor;
    if args != [] {
      var rest := args[2..];
      ReadAt(rest, opts[1..]);
      NamedOption(args[0], args[1]);
      forall k | 0 < k < |opts|
        ensures args[2 * k] == rest[2 * (k - 1)] && args[2 * k + 1] == rest[2 * (k - 1) + 1]
        ensures opts[k] == opts[1..][k - 1]
      {
      }
    }
  }

  ghost predicate LastOf(s: set<nat>, k: nat) { k in s && forall j :: j in s ==> j <= k }

  lemma LastOfGrown(s: set<nat>, n: nat, k: nat)
    requires forall j :: j in s ==> j < n
    ensures LastOf(s + {n}, k) <==> k == n
  {
    if LastOf(s + {n}, k) { assert n in s + {n}; }
  }

  // Where the times are given.
  function Idles(opts: seq<Opt>): (s: set<nat>)
    ensures forall k :: k in s ==> k < |opts|
  {
    set k | 0 <= k < |opts| && opts[k].Idle?
  }

  function Checks(opts: seq<Opt>): (s: set<nat>)
    ensures forall k :: k in s ==> k < |opts|
  {
    set k | 0 <= k < |opts| && opts[k].Check?
  }

  function Letter(d: nat): char
    requires d < 26
  {
    'a' + d as char
  }

  // Every inclusion says something about disk d, and so does an exclusion that names it.
  predicate Concerns(o: Opt, d: nat)
    requires d < 26
  {
    o.Disks? && o.text != "" && (o.text[0] != '!' || Letter(d) in o.text[1..])
  }

  function Concerning(opts: seq<Opt>, d: nat): (s: set<nat>)
    requires d < 26
    ensures forall k :: k in s ==> k < |opts| && Concerns(opts[k], d)
  {
    set k | 0 <= k < |opts| && Concerns(opts[k], d)
  }

  lemma TimesSnoc(past: seq<Opt>, o: Opt)
    ensures Idles(past + [o]) == Idles(past) + if o.Idle? then {|past|} else {}
    ensures Checks(past + [o]) == Checks(past) + if o.Check? then {|past|} else {}
  {
  }

  lemma ConcerningSnoc(past: seq<Opt>, o: Opt, d: nat)
    requires d < 26
    ensures Concerning(past + [o], d) == Concerning(past, d) + if Concerns(o, d) then {|past|} else {}
  {
    hide Concerns;
  }

  // The value v is what the last text of these positions says, or the default.
  ghost predicate Timed(abi: Abi, opts: seq<Opt>, where: set<nat>, v: int, min: int, default: int)
    requires forall k :: k in where ==> k < |opts|
  {
    && (where == {} ==> v == default)
    && forall k: nat :: LastOf(where, k) ==> v == TimeOption(abi, opts[k].text, min, default)
  }

  lemma TimedKept(abi: Abi, past: seq<Opt>, o: Opt, where: set<nat>, v: int, min: int, default: int)
    requires forall k :: k in where ==> k < |past|
    requires Timed(abi, past, where, v, min, default)
    ensures Timed(abi, past + [o], where, v, min, default)
  {
    hide TimeOption;
    forall k: nat | LastOf(where, k) ensures v == TimeOption(abi, (past + [o])[k].text, min, default) {
      assert (past + [o])[k] == past[k];
    }
  }

  lemma TimedSet(abi: Abi, past: seq<Opt>, o: Opt, where: set<nat>, min: int, default: int)
    requires forall k :: k in where ==> k < |past|
    ensures Timed(abi, past + [o], where + {|past|}, TimeOption(abi, o.text, min, default), min, default)
  {
    hide TimeOption, LastOf;
    forall k: nat | LastOf(where + {|past|}, k)
      ensures k == |past|
    {
      LastOfGrown(where, |past|, k);
    }
    assert |past| in where + {|past|};
  }

  lemma NoTimes()
    ensures Idles([]) == {} && Checks([]) == {}
  {
  }

  lemma NeverTimed(abi: Abi, v: int, min: int)
    ensures Timed(abi, [], {}, v, min, v)
  {
    hide TimeOption;
  }

  lemma {:induction false} TimesMean(abi: Abi, opts: seq<Opt>)
    requires ApplyOptions(abi, DEFAULTS, opts).Some?
    ensures var s := ApplyOptions(abi, DEFAULTS, opts).value;
            && Timed(abi, opts, Idles(opts), s.idletime, 300, 900)
            && Timed(abi, opts, Checks(opts), s.checktime, 5, 30)
    decreases |opts|
  {
    hide TimeOption, Choose, Timed, Idles, Checks;
    NoTimes();
    if opts == [] {
      NeverTimed(abi, 900, 300);
      NeverTimed(abi, 30, 5);
    } else {
      var past, o := opts[..|opts| - 1], opts[|opts| - 1];
      assert past + [o] == opts;
      TimesMean(abi, past);
      var s := ApplyOptions(abi, DEFAULTS, past).value;
      TimesSnoc(past, o);
      assert Idles(past) + {} == Idles(past) && Checks(past) + {} == Checks(past);
      TimedKept(abi, past, o, Idles(past), s.idletime, 300, 900);
      TimedKept(abi, past, o, Checks(past), s.checktime, 5, 30);
      TimedSet(abi, past, o, Idles(past), 300, 900);
      TimedSet(abi, past, o, Checks(past), 5, 30);
    }
  }

  lemma LetterIn(text: string, d: nat)
    requires d < 26
    ensures d in Letters(text) <==> Letter(d) in text
  {
    if Letter(d) in text {
      var i :| 0 <= i < |text| && text[i] == Letter(d);
      assert text[i] as int - 'a' as int == d;
    }
    if d in Letters(text) {
      var i :| 0 <= i < |text| && 'a' <= text[i] <= 'z' && text[i] as int - 'a' as int == d;
      assert text[i] == Letter(d);
    }
  }

  lemma ChooseDisk(c: Choice, text: string, d: nat)
    requires d < 26
    ensures d in Choose(c, text).disks
       <==> if Concerns(Disks(text), d) then text[0] != '!' && Letter(d) in text else d in c.disks
  {
    hide Letters, Letter;
    if text != "" {
      LetterIn(text, d);
      LetterIn(text[1..], d);
    }
  }

  // Disk d is managed as the last concerning text says, and without one.
  ghost predicate Chosen(opts: seq<Opt>, where: set<nat>, d: nat, managed: bool)
    requires d < 26 && forall k :: k in where ==> k < |opts| && opts[k].text != ""
  {
    && (where == {} ==> managed)
    && forall k: nat :: LastOf(where, k) ==> (managed <==> opts[k].text[0] != '!' && Letter(d) in opts[k].text)
  }

  lemma ChosenKept(past: seq<Opt>, o: Opt, where: set<nat>, d: nat, managed: bool)
    requires d < 26 && forall k :: k in where ==> k < |past| && past[k].text != ""
    requires Chosen(past, where, d, managed)
    ensures Chosen(past + [o], where, d, managed)
  {
    hide Letter;
    forall k: nat | LastOf(where, k)
      ensures (past + [o])[k] == past[k]
    {
    }
  }

  lemma ChosenSet(past: seq<Opt>, o: Opt, where: set<nat>, d: nat)
    requires d < 26 && (forall k :: k in where ==> k < |past| && past[k].text != "") && o.text != ""
    ensures Chosen(past + [o], where + {|past|}, d, o.text[0] != '!' && Letter(d) in o.text)
  {
    hide Letter, LastOf;
    forall k: nat | LastOf(where + {|past|}, k)
      ensures k == |past|
    {
      LastOfGrown(where, |past|, k);
    }
    assert |past| in where + {|past|};
  }

  lemma NeverChosen(d: nat)
    requires d < 26
    ensures Concerning([], d) == {} && Chosen([], {}, d, true) && d in FoldChoice([]).disks
  {
  }

  /** Of the -d options that concern a disk the last one decides: the disk is managed when
      that is an inclusion that names it.  A disk that none concerns is managed. */
  lemma {:induction false} DisksMean(opts: seq<Opt>, d: nat)
    requires d < 26
    ensures Chosen(opts, Concerning(opts, d), d, d in FoldChoice(opts).disks)
    decreases |opts|
  {
    hide Choose, Chosen, Concerning, Letter;
    if opts == [] {
      NeverChosen(d);
    } else {
      var past, o := opts[..|opts| - 1], opts[|opts| - 1];
      assert past + [o] == opts;
      DisksMean(past, d);
      ConcerningSnoc(past, o, d);
      ChosenKept(past, o, Concerning(past, d), d, d in FoldChoice(past).disks);
      if o.Disks? { ChooseDisk(FoldChoice(past), o.text, d); }
      if Concerns(o, d) {
        ChosenSet(past, o, Concerning(past, d), d);
      } else {
        assert Concerning(past, d) + {} == Concerning(past, d);
      }
    }
  }

  /** What accepted arguments set: the last -i and the last -c decide the times, with minima
      of 300 and 5 seconds, and 900 and 30 seconds without one; the last -d that concerns a
      disk decides about it. */
  lemma AcceptedArguments(abi: Abi, args: seq<string>, opts: seq<Opt>)
    requires FinalSettings(abi, args).Some? && args == Render(opts)
    ensures var s := FinalSettings(abi, args).value;
            && Timed(abi, opts, Idles(opts), s.idletime, 300, 900)
            && Timed(abi, opts, Checks(opts), s.checktime, 5, 30)
            && forall d :: 0 <= d < 26 ==> Chosen(opts, Concerning(opts, d), d, d in s.choice.disks)
  {
    hide Timed, Idles, Checks, Chosen, Concerning, ApplyOptions, FoldChoice;
    ReadsRendered(args, opts);
    TimesMean(abi, opts);
    AcceptedSettings(abi, opts);
    forall d | 0 <= d < 26 ensures Chosen(opts, Concerning(opts, d), d, d in FoldChoice(opts).disks) {
      DisksMean(opts, d);
    }
  }

  /** No arguments: all 26 disks with the default times. */
  lemma NoArguments(abi: Abi)
    ensures FinalSettings(abi, []).Some?
    ensures var s := FinalSettings(abi, []).value;
            s.idletime == 900 && s.checktime == 30 && forall d: nat :: d in s.choice.disks <==> d < 26
  {
  }

  lemma AlphabetAt(s: string, d: nat)
    requires s == "abcdefghijklmnopqrstuvwxyz" && d < 26
    ensures 'a' <= s[d] <= 'z' && s[d] as int - 'a' as int == d
  {
  }

  /** So excluding every disk is accepted although nothing is left to manage. */
  lemma ExcludeEverything(abi: Abi)
    ensures var opts := [Disks("!abcdefghijklmnopqrstuvwxyz")];
            && FoldChoice(opts).disks == {}
            && ApplyOptions(abi, DEFAULTS, opts).Some?
  {
    var text := "!abcdefghijklmnopqrstuvwxyz";
    var opts := [Disks(text)];
    assert opts[..0] == [];
    var tail := text[1..];
    forall d: nat | d < 26 ensures d in Letters(tail) {
      AlphabetAt(tail, d);
    }
    assert FoldChoice(opts) == Choose(DEFAULTS.choice, text);
    assert ApplyOptions(abi, DEFAULTS, opts) == ApplyOption(abi, DEFAULTS, opts[0]);
  }
}
