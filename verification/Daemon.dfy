/** The sd-idle daemon with its arrays and bit masks (sd-idle/src/sd-idle-2.6.c:59-99,
    389-532).  Every method is tied to the state machine of DiskMachine. */
module Daemon {
  import opened Strings
  import opened StatsLine
  import opened DiskMask
  import opened DiskMachine
  import opened DiskHistory
  import opened TransitionMessage

  // The disks told to stop, in order.
  function Stops(log: seq<(nat, Event)>): seq<nat> {
    if log == [] then []
    else
      var past := Stops(log[..|log| - 1]);
      if log[|log| - 1].1.down then past + [log[|log| - 1].0] else past
  }

  function CountOf(stops: seq<nat>, d: nat): nat {
    if stops == [] then 0 else CountOf(stops[..|stops| - 1], d) + if stops[|stops| - 1] == d then 1 else 0
  }

  lemma {:induction false} StopsAreDowns(log: seq<(nat, Event)>, d: nat)
    ensures CountOf(Stops(log), d) == Downs(EventsOf(log, d))
  {
    if log != [] {
      var past := log[..|log| - 1];
      var (disk, e) := log[|log| - 1];
      StopsAreDowns(past, d);
      if e.down { assert Stops(log)[..|Stops(past)|] == Stops(past); }
      if disk == d { assert EventsOf(log, d)[..|EventsOf(past, d)|] == EventsOf(past, d); }
    }
  }

  /** In every run, the stop commands for a disk number the streaks of its accepted lines
      that reach the idle time. */
  lemma StopsCountStreaks(cfg: Config, xs: seq<Input>, d: nat)
    requires cfg.Valid() && d < DISKS
    ensures CountOf(Stops(Run(cfg, Start(), xs).log), d) == |Crossings(cfg, Accepted(cfg.managing, xs, d))|
  {
    hide Run, Stops, EventsOf, Transitions, Crossings;
    StopsAreDowns(Run(cfg, Start(), xs).log, d);
    RunRefinement(cfg, xs, d);
    DownsCountCrossings(cfg, Accepted(cfg.managing, xs, d));
  }

  // The transition messages written, in order.
  function Texts(log: seq<(nat, Event)>): seq<string>
  {
    if log == [] then []
    else
      var (disk, e) := log[|log| - 1];
      Texts(log[..|log| - 1]) + [if disk < DISKS then MessageText(e.down, disk, e.since, e.now) else ""]
  }

  lemma LogSnoc(log: seq<(nat, Event)>, disk: nat, e: Event)
    requires disk < DISKS
    ensures Stops(log + [(disk, e)]) == if e.down then Stops(log) + [disk] else Stops(log)
    ensures Texts(log + [(disk, e)]) == Texts(log) + [MessageText(e.down, disk, e.since, e.now)]
  {
    assert (log + [(disk, e)])[..|log|] == log;
  }

  function Flat(passes: seq<seq<Input>>): seq<Input> {
    if passes == [] then [] else Flat(passes[..|passes| - 1]) + passes[|passes| - 1]
  }

  lemma NothingRun(cfg: Config, w: World)
    requires ValidWorld(w)
    ensures Run(cfg, w, []) == w
  {
  }

  lemma FlatSnoc(passes: seq<seq<Input>>, i: nat)
    requires i < |passes|
    ensures Flat(passes[..i + 1]) == Flat(passes[..i]) + passes[i]
  {
    assert passes[..i + 1][..i] == passes[..i];
  }

  /** The lines of the passes, in order. */
  lemma {:induction false} FlatInOrder(passes: seq<seq<Input>>)
    requires passes != []
    ensures Flat(passes) == passes[0] + Flat(passes[1..])
    decreases |passes|
  {
    var n := |passes| - 1;
    if n == 0 {
      assert passes[..0] == [] && Flat([]) == [];
      assert passes[1..] == [];
    } else {
      FlatInOrder(passes[..n]);
      assert passes[..n][1..] == passes[1..][..n - 1];
      assert Flat(passes[1..]) == Flat(passes[1..][..n - 1]) + passes[n];
    }
  }

  lemma {:induction false} FlatPrefix(passes: seq<seq<Input>>, i: nat)
    requires i <= |passes|
    ensures Flat(passes[..i]) <= Flat(passes)
  {
    if i < |passes| {
      FlatPrefix(passes[..|passes| - 1], i);
      assert passes[..|passes| - 1][..i] == passes[..i];
    } else {
      assert passes[..i] == passes;
    }
  }

  lemma SafePass(cfg: Config, w: World, passes: seq<seq<Input>>, i: nat)
    requires ValidWorld(w) && i < |passes| && SafeRun(cfg, w, Flat(passes))
    ensures SafeRun(cfg, Run(cfg, w, Flat(passes[..i])), passes[i])
    ensures Run(cfg, w, Flat(passes[..i + 1])) == Run(cfg, Run(cfg, w, Flat(passes[..i])), passes[i])
  {
    hide Run, SafeRun;
    FlatSnoc(passes, i);
    FlatPrefix(passes, i + 1);
    var done := Flat(passes[..i + 1]);
    assert Flat(passes) == done + Flat(passes)[|done|..];
    RunConcat(cfg, w, done, Flat(passes)[|done|..]);
    RunConcat(cfg, w, Flat(passes[..i]), passes[i]);
  }

  lemma TagSmall(disk: nat)
    ensures Tag(disk, []) == []
    ensures forall e: Event :: Tag(disk, [e]) == [(disk, e)]
  {
  }

  lemma ClearBits(bits: bv32, disk: nat, m: bv32)
    requires disk < DISKS && m == bits & !Mask(disk)
    ensures forall d :: 0 <= d < DISKS ==> IsSet(m, d) == (d != disk && IsSet(bits, d))
  {
    hide IsSet, Mask;
    forall d | 0 <= d < DISKS ensures IsSet(m, d) == (d != disk && IsSet(bits, d)) {
      ClearBit(bits, disk, d);
    }
  }

  lemma SetBits(bits: bv32, disk: nat, m: bv32)
    requires disk < DISKS && m == bits | Mask(disk)
    ensures forall d :: 0 <= d < DISKS ==> IsSet(m, d) == (d == disk || IsSet(bits, d))
  {
    hide IsSet, Mask;
    forall d | 0 <= d < DISKS ensures IsSet(m, d) == (d == disk || IsSet(bits, d)) {
      SetBit(bits, disk, d);
    }
  }

  lemma SafeAt(cfg: Config, w: World, xs: seq<Input>, i: nat)
    requires ValidWorld(w) && i < |xs| && SafeRun(cfg, w, xs)
    ensures SafeStep(cfg, Run(cfg, w, xs[..i]), xs[i])
    ensures Run(cfg, w, xs[..i + 1]) == Step(cfg, Run(cfg, w, xs[..i]), xs[i])
  {
    hide Step, SafeStep;
    assert xs == xs[..i + 1] + xs[i + 1..];
    RunConcat(cfg, w, xs[..i + 1], xs[i + 1..]);
    assert xs[..i + 1][..i] == xs[..i];
  }

  lemma NinthOf(managing: bv32, line: string, p: nat, k: nat)
    requires AcceptedAs(managing, line, p, k)
    ensures IoField(line[p + 5..]) == Some(k)
  {
    hide NinthAt, IoField;
    IoFieldExact(line[p + 5..]);
  }

  class Daemon {
    var idletime: int
    var checktime: int
    var managing: bv32
    var spinning: bv32
    const idletimes: array<int>
    const transtimes: array<int>
    const diskstats: array<string>

    // What the daemon does to the outside: transition messages and stop commands.
    var messages: seq<string>
    var stops: seq<nat>

    ghost var log: seq<(nat, Event)>

    ghost predicate Valid()
      reads this, idletimes, transtimes, diskstats
    {
      && idletimes.Length == transtimes.Length == diskstats.Length == DISKS
      && idletimes != transtimes
      && (forall d :: 0 <= d < DISKS ==> |diskstats[d]| < SLOT_SIZE)
      && (forall e :: e in log ==> e.0 < DISKS)
      && messages == Texts(log)
      && stops == Stops(log)
    }

    ghost function DiskAt(d: nat): Disk
      reads this, idletimes, transtimes, diskstats
      requires Valid() && d < DISKS
    {
      Disk(idletimes[d], transtimes[d], diskstats[d], IsSet(spinning, d))
    }

    ghost function View(): (w: World)
      reads this, idletimes, transtimes, diskstats
      requires Valid()
      ensures ValidWorld(w)
    {
      World(seq(DISKS, d requires 0 <= d < DISKS reads this, idletimes, transtimes, diskstats requires Valid() =>
                  DiskAt(d)), log)
    }

    ghost function Settings(): Config
      reads this
    {
      Config(idletime, checktime, managing)
    }

    constructor (idletime: int, checktime: int, managing: bv32)
      ensures Valid() && fresh(idletimes) && fresh(transtimes) && fresh(diskstats)
      ensures Settings() == Config(idletime, checktime, managing)
      ensures View() == Start()
    {
      this.idletime := idletime;
      this.checktime := checktime;
      this.managing := managing;
      spinning := 0xFFFF_FFFF;
      idletimes := new int[DISKS](_ => 0);
      transtimes := new int[DISKS](_ => 0);
      diskstats := new string[DISKS](_ => "");
      messages, stops, log := [], [], [];
      new;
      hide IsSet;
      forall d | 0 <= d < DISKS ensures DiskAt(d) == INITIAL { Extremes(d); }
    }

    // Times and announces a transition; the ghost log records it.
    method TransitionMessage(disk: nat, down: bool, now: int)
      requires Valid() && disk < DISKS
      modifies transtimes, this`messages, this`log
      ensures transtimes[disk] == now
      ensures forall d :: 0 <= d < DISKS && d != disk ==> transtimes[d] == old(transtimes[d])
      ensures messages == old(messages) + [MessageText(down, disk, old(transtimes[disk]), now)]
      ensures log == old(log) + [(disk, Event(down, now, old(transtimes[disk])))]
      ensures messages == Texts(log)
      ensures Stops(log) == if down then Stops(old(log)) + [disk] else Stops(old(log))
    {
      hide MessageText, Stops, Texts;
      var buf := new char[BUF_SIZE];
      var before := transtimes[disk];
      transtimes[disk] := now;
      var end := WriteMessage(down, disk, before, now, buf);
      messages := messages + [buf[..end]];
      LogSnoc(log, disk, Event(down, now, before));
      log := log + [(disk, Event(down, now, before))];
    }

    // The bit macros on the mask of spinning disks.
    method SetSpinning(disk: nat, on: bool)
      requires disk < DISKS
      modifies this`spinning
      ensures forall d :: 0 <= d < DISKS ==> IsSet(spinning, d) == if d == disk then on else IsSet(old(spinning), d)
    {
      hide IsSet, Mask;
      var bits := spinning;
      if on {
        spinning := bits | Mask(disk);
        SetBits(bits, disk, spinning);
      } else {
        spinning := bits & !Mask(disk);
        ClearBits(bits, disk, spinning);
      }
    }

    method DiskIdle(disk: nat, now: int)
      requires Valid() && disk < DISKS
      requires idletimes[disk] + checktime <= INT_MAX
      modifies this`spinning, this`messages, this`stops, this`log, idletimes, transtimes
      ensures Valid() && Settings() == old(Settings())
      ensures forall d :: 0 <= d < DISKS && d != disk ==> DiskAt(d) == old(DiskAt(d))
      ensures var (s, events) := Observe(Settings(), old(DiskAt(disk)), Obs(old(diskstats[disk]), true, now));
              DiskAt(disk) == s && log == old(log) + Tag(disk, events)
    {
      hide IsSet, Mask, MessageText, Stops, Texts, Tag;
      TagSmall(disk);
      idletimes[disk] := idletimes[disk] + checktime;
      if !IsSet(spinning, disk) || idletime > idletimes[disk] {
        return;
      }
      TransitionMessage(disk, true, now);
      // STOP command
      stops := stops + [disk];
      SetSpinning(disk, false);
    }

    method DiskActive(disk: nat, stats: string, now: int, ghost o: Obs)
      requires Valid() && disk < DISKS && |stats| < SLOT_SIZE
      requires o.stats == stats && o.now == now && !Idles(DiskAt(disk), o)
      modifies this`spinning, this`messages, this`log, idletimes, transtimes, diskstats
      ensures Valid() && Settings() == old(Settings())
      ensures forall d :: 0 <= d < DISKS && d != disk ==> DiskAt(d) == old(DiskAt(d))
      ensures var (s, events) := Observe(Settings(), old(DiskAt(disk)), o);
              DiskAt(disk) == s && log == old(log) + Tag(disk, events)
    {
      hide IsSet, Mask, MessageText, Stops, Texts, Tag;
      TagSmall(disk);
      if !IsSet(spinning, disk) {
        TransitionMessage(disk, false, now);
        SetSpinning(disk, true);
      }
      idletimes[disk] := 0;
      diskstats[disk] := stats;
    }

    // The checks a line has to pass before it is looked at.
    method ReadLine(line: string, ghost now: int) returns (disk: int, stats: string, io: nat)
      ensures disk < 0 ==> Accept(managing, Input(line, now)) == None
      ensures disk >= 0 ==> Accept(managing, Input(line, now)) == Some((disk, Obs(stats, Quiet(stats, io), now)))
      ensures disk >= 0 <==> exists p: nat, k: nat :: AcceptedAs(managing, line, p, k)
      ensures forall p: nat, k: nat :: AcceptedAs(managing, line, p, k) ==>
                disk == line[p + 3] as int - 'a' as int && stats == line[p + 5..] && io == k
    {
      hide IsSet, StrStr, IoField, AcceptedAs, NinthAt;
      AcceptExact(managing, Input(line, now));
      disk, stats, io := -1, "", 0;
      // the first " sd" has to stand before a letter and a space
      var found := StrStr(line, " sd", 0);
      if found == None { return; }
      var sd := found.value;
      if sd + 4 >= |line| || line[sd + 4] != ' ' || !('a' <= line[sd + 3] <= 'z') { return; }
      var x := line[sd + 3] as int - 'a' as int;
      if !IsSet(managing, x) { return; }
      if |line| >= SLOT_SIZE { return; }
      var rest := line[sd + 5..];
      var field := FindIoField(rest);
      if field == None { return; }
      disk, stats, io := x, rest, field.value;
      forall p: nat, k: nat | AcceptedAs(managing, line, p, k) ensures io == k {
        NinthOf(managing, line, p, k);
      }
    }

    method ManageDiskstatsLine(line: string, now: int)
      requires Valid()
      requires SafeStep(Settings(), View(), Input(line, now))
      modifies this`spinning, this`messages, this`stops, this`log, idletimes, transtimes, diskstats
      ensures Valid() && Settings() == old(Settings())
      ensures View() == Step(Settings(), old(View()), Input(line, now))
    {
      hide Accept, IsSet, Observe, Stops, Texts;
      var disk, stats, io := ReadLine(line, now);
      if disk < 0 { return; }
      ghost var o := Obs(stats, Quiet(stats, io), now);
      if io < |stats| && stats[io] == '0' && diskstats[disk] == stats {
        DiskIdle(disk, now);
      } else {
        DiskActive(disk, stats, now, o);
      }
    }

    /** One pass over the lines of /proc/diskstats. */
    method ManagePass(inputs: seq<Input>)
      requires Valid()
      requires SafeRun(Settings(), View(), inputs)
      modifies this`spinning, this`messages, this`stops, this`log, idletimes, transtimes, diskstats
      ensures Valid() && Settings() == old(Settings())
      ensures View() == Run(Settings(), old(View()), inputs)
    {
      hide Run, SafeRun, Step, SafeStep, Valid, View, Settings, DiskAt;
      ghost var cfg, w := Settings(), View();
      NothingRun(cfg, w);
      var i := 0;
      while i < |inputs|
        invariant 0 <= i <= |inputs|
        invariant Valid() && Settings() == cfg
        invariant View() == Run(cfg, w, inputs[..i])
      {
        SafeAt(cfg, w, inputs, i);
        ManageDiskstatsLine(inputs[i].line, inputs[i].now);
        i := i + 1;
      }
      assert inputs[..|inputs|] == inputs;
    }

    /** Any number of passes of the daemon's loop: every cached line, counter, transition
        time and spin bit is the function of the accepted lines that DiskHistory defines,
        the messages are those of the transitions and the stops those of the downs. */
    method Manage(passes: seq<seq<Input>>)
      requires Valid() && Settings().Valid() && View() == Start()
      requires SafeRun(Settings(), Start(), Flat(passes))
      modifies this`spinning, this`messages, this`stops, this`log, idletimes, transtimes, diskstats
      ensures Valid() && Settings() == old(Settings())
      ensures View() == Run(Settings(), Start(), Flat(passes))
      ensures forall d :: 0 <= d < DISKS ==> Faithful(d, Accepted(managing, Flat(passes), d))
    {
      hide Run, SafeRun, Faithful, Valid, View, Settings, DiskAt;
      assert Flat(passes[..0]) == [];
      ghost var cfg, w := Settings(), View();
      NothingRun(cfg, w);
      for i := 0 to |passes|
        invariant Valid() && Settings() == cfg
        invariant View() == Run(cfg, w, Flat(passes[..i]))
      {
        SafePass(cfg, w, passes, i);
        ManagePass(passes[i]);
      }
      assert passes[..|passes|] == passes;
      forall d | 0 <= d < DISKS ensures Faithful(d, Accepted(managing, Flat(passes), d)) {
        FaithfulAt(d, Flat(passes));
      }
    }

    // What the fields say about disk d after the accepted lines h.
    ghost predicate Faithful(d: nat, h: seq<Obs>)
      reads this, idletimes, transtimes, diskstats
      requires Valid() && Settings().Valid() && d < DISKS
    {
      && diskstats[d] == LastStats(h)
      && idletimes[d] == checktime * Streak(h)
      && (IsSet(spinning, d) <==> checktime * Streak(h) < idletime)
      && transtimes[d] == LastTime(Transitions(Settings(), h))
      && EventsOf(log, d) == Transitions(Settings(), h)
      && CountOf(stops, d) == |Crossings(Settings(), h)|
    }

    lemma FaithfulAt(d: nat, xs: seq<Input>)
      requires Valid() && d < DISKS && Settings().Valid()
      requires View() == Run(Settings(), Start(), xs)
      ensures Faithful(d, Accepted(managing, xs, d))
    {
      hide Run, Transitions, Streak, Accepted, LastStats, LastTime, EventsOf, Stops, CountOf, Crossings;
      RunRefinement(Settings(), xs, d);
      StopsCountStreaks(Settings(), xs, d);
      assert View().disks[d] == DiskAt(d);
    }
  }
}
