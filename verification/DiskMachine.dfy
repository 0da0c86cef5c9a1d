/** The idle-disk state machine of sd-idle as a function of the lines it reads
    (sd-idle/src/sd-idle-2.6.c:425-504). */
module DiskMachine {
  import opened Strings
  import opened StatsLine
  import opened DiskMask

  const DISKS := 26
  const SLOT_SIZE := 160
  const INT_MAX := 0x7FFF_FFFF

  datatype Config = Config(idletime: int, checktime: int, managing: bv32) {
    ghost predicate Valid() { idletime > 0 && checktime > 0 }
  }

  // A line for a managed disk that passed every check: the text after the device name,
  // whether its I/O-in-progress column starts with '0', and when it was read.
  datatype Obs = Obs(stats: string, quiet: bool, now: int)

  datatype Input = Input(line: string, now: int)

  datatype Disk = Disk(idle: int, trans: int, stats: string, spinning: bool)

  const INITIAL := Disk(0, 0, "", true)

  // A transition: when it happened and when the one before it did, 0 for none.
  datatype Event = Event(down: bool, now: int, since: int)

  datatype World = World(disks: seq<Disk>, log: seq<(nat, Event)>)

  ghost predicate ValidWorld(w: World) {
    |w.disks| == DISKS && forall e :: e in w.log ==> e.0 < DISKS
  }

  // ---------- Which lines are accepted ----------

  // The disk index and the position after the device name, for the first " sd".
  function DeviceOf(line: string): (r: Option<(nat, nat)>)
    ensures r.Some? ==> r.value.0 < DISKS && r.value.1 <= |line|
  {
    match StrStr(line, " sd", 0)
    case None => None
    case Some(sd) =>
      if sd + 4 < |line| && line[sd + 4] == ' ' && 'a' <= line[sd + 3] <= 'z'
      then Some((line[sd + 3] as int - 'a' as int, sd + 5))
      else None
  }

  predicate Quiet(stats: string, io: nat) {
    io < |stats| && stats[io] == '0'
  }

  function Accept(managing: bv32, x: Input): (r: Option<(nat, Obs)>)
    ensures r.Some? ==> r.value.0 < DISKS && r.value.1.stats != "" && |r.value.1.stats| < SLOT_SIZE
  {
    match DeviceOf(x.line)
    case None => None
    case Some((disk, rest)) =>
      if !IsSet(managing, disk) || |x.line| >= SLOT_SIZE then None
      else
        var stats := x.line[rest..];
        match IoField(stats)
        case None => None
        case Some(io) => Some((disk, Obs(stats, Quiet(stats, io), x.now)))
  }

  // The first " sd" of the line is at p and stands before a letter and a space.
  predicate NamesDisk(line: string, p: nat) {
    && p + 5 <= |line|
    && " sd" <= line[p..]
    && (forall k :: 0 <= k < p ==> !(" sd" <= line[k..]))
    && 'a' <= line[p + 3] <= 'z' && line[p + 4] == ' '
  }

  lemma DeviceNamed(line: string, p: nat)
    requires NamesDisk(line, p)
    ensures DeviceOf(line) == Some((line[p + 3] as int - 'a' as int, p + 5))
  {
    assert StrStr(line, " sd", 0) == Some(p);
  }

  lemma AcceptNamed(managing: bv32, x: Input, p: nat, stats: string)
    requires NamesDisk(x.line, p) && x.line[p + 5..] == stats
    ensures Accept(managing, x)
         == (var disk := x.line[p + 3] as int - 'a' as int;
             if IsSet(managing, disk) && |x.line| < SLOT_SIZE && IoField(stats).Some?
             then Some((disk, Obs(stats, Quiet(stats, IoField(stats).value), x.now)))
             else None)
  {
    hide IsSet, IoField, DeviceOf, Quiet;
    DeviceNamed(x.line, p);
  }

  lemma DeviceStands(line: string)
    requires DeviceOf(line).Some?
    ensures DeviceOf(line).value.1 >= 5 && NamesDisk(line, DeviceOf(line).value.1 - 5)
  {
  }

  /** A disk is found exactly in the lines that name one. */
  lemma DeviceExact(line: string)
    ensures DeviceOf(line).Some? <==> exists p: nat :: NamesDisk(line, p)
  {
    hide DeviceOf, NamesDisk;
    forall p: nat | NamesDisk(line, p) ensures DeviceOf(line).Some? {
      DeviceNamed(line, p);
    }
    if DeviceOf(line).Some? {
      DeviceStands(line);
    }
  }

  // The line names a managed disk, fits a slot, and has its ninth column at k behind the
  // name.
  ghost predicate AcceptedAs(managing: bv32, line: string, p: nat, k: nat) {
    && NamesDisk(line, p)
    && IsSet(managing, line[p + 3] as int - 'a' as int)
    && |line| < 160
    && NinthAt(line[p + 5..], k)
  }

  lemma AcceptWhen(managing: bv32, x: Input, p: nat, k: nat)
    requires AcceptedAs(managing, x.line, p, k)
    ensures NamesDisk(x.line, p)
    ensures Accept(managing, x)
         == Some((x.line[p + 3] as int - 'a' as int,
                  Obs(x.line[p + 5..], p + 5 + k < |x.line| && x.line[p + 5 + k] == '0', x.now)))
  {
    hide IsSet, IoField, DeviceOf, NinthAt;
    DeviceNamed(x.line, p);
    IoFieldExact(x.line[p + 5..]);
  }

  lemma AcceptOnly(managing: bv32, x: Input) returns (p: nat, k: nat)
    requires Accept(managing, x).Some?
    ensures AcceptedAs(managing, x.line, p, k)
  {
    hide IsSet, IoField, DeviceOf, NinthAt;
    DeviceStands(x.line);
    p := DeviceOf(x.line).value.1 - 5;
    DeviceNamed(x.line, p);
    IoFieldExact(x.line[p + 5..]);
    k := IoField(x.line[p + 5..]).value;
  }

  /** Which lines count, for every line: those that name a managed disk, with fewer than
      160 characters and a ninth column.  Disk, remainder and the digit the remainder is
      judged by are where the name and the eighth space put them. */
  lemma AcceptExact(managing: bv32, x: Input)
    ensures Accept(managing, x).Some? <==> exists p: nat, k: nat :: AcceptedAs(managing, x.line, p, k)
    ensures forall p: nat, k: nat :: AcceptedAs(managing, x.line, p, k) ==>
              Accept(managing, x)
              == Some((x.line[p + 3] as int - 'a' as int,
                       Obs(x.line[p + 5..], p + 5 + k < |x.line| && x.line[p + 5 + k] == '0', x.now)))
  {
    hide Accept, AcceptedAs;
    forall p: nat, k: nat | AcceptedAs(managing, x.line, p, k)
      ensures NamesDisk(x.line, p)
      ensures Accept(managing, x)
           == Some((x.line[p + 3] as int - 'a' as int,
                    Obs(x.line[p + 5..], p + 5 + k < |x.line| && x.line[p + 5 + k] == '0', x.now)))
    {
      AcceptWhen(managing, x, p, k);
    }
    if Accept(managing, x).Some? {
      var p, k := AcceptOnly(managing, x);
    }
  }

  lemma NinthColumn(stats: string, columns: seq<string>)
    requires |columns| >= 9 && Occupies(stats, ' ', columns[8], FieldStart(columns, 8), |columns| == 9)
    ensures Quiet(stats, FieldStart(columns, 8)) <==> columns[8] != "" && columns[8][0] == '0'
  {
    hide FieldStart;
    var a, f := FieldStart(columns, 8), columns[8];
    if f != "" { assert stats[a] == stats[a..a + |f|][0]; }
  }

  /** A line that names a disk and goes on with columns separated by single spaces is
      accepted exactly when the disk is managed, the line fits a slot and there are nine
      columns; it is quiet when the ninth begins with 0. */
  lemma AcceptFormatted(managing: bv32, x: Input, p: nat, columns: seq<string>)
    requires NamesDisk(x.line, p)
    requires |columns| > 0 && columns[0] != "" && (forall f :: f in columns ==> ' ' !in f)
    requires x.line[p + 5..] == Join(columns, ' ')
    ensures Accept(managing, x)
         == (var disk := x.line[p + 3] as int - 'a' as int;
             if IsSet(managing, disk) && |x.line| < SLOT_SIZE && |columns| >= 9
             then Some((disk, Obs(Join(columns, ' '), columns[8] != "" && columns[8][0] == '0', x.now)))
             else None)
  {
    hide Join, IsSet, IoField, DeviceOf, Quiet, NamesDisk, Occupies, FieldStart;
    var stats := Join(columns, ' ');
    IoFieldOfColumns(columns);
    if |columns| >= 9 {
      NinthColumn(stats, columns);
    }
    AcceptNamed(managing, x, p, stats);
  }

  // ---------- One step ----------

  // Same counters as last time and nothing in flight.
  predicate Idles(s: Disk, o: Obs) {
    o.quiet && s.stats == o.stats
  }

  function Observe(cfg: Config, s: Disk, o: Obs): (Disk, seq<Event>) {
    if Idles(s, o) then
      var idle := s.idle + cfg.checktime;
      if !s.spinning || cfg.idletime > idle
      then (s.(idle := idle), [])
      else (Disk(idle, o.now, s.stats, false), [Event(true, o.now, s.trans)])
    else if s.spinning then (Disk(0, s.trans, o.stats, true), [])
    else (Disk(0, o.now, o.stats, true), [Event(false, o.now, s.trans)])
  }

  function Tag(disk: nat, events: seq<Event>): (r: seq<(nat, Event)>)
    ensures |r| == |events| && forall i :: 0 <= i < |r| ==> r[i] == (disk, events[i])
  {
    seq(|events|, i requires 0 <= i < |events| => (disk, events[i]))
  }

  function Step(cfg: Config, w: World, x: Input): (w': World)
    requires ValidWorld(w)
    ensures ValidWorld(w')
  {
    match Accept(cfg.managing, x)
    case None => w
    case Some((disk, o)) =>
      var (s, events) := Observe(cfg, w.disks[disk], o);
      World(w.disks[disk := s], w.log + Tag(disk, events))
  }

  function Run(cfg: Config, w: World, xs: seq<Input>): (w': World)
    requires ValidWorld(w)
    ensures ValidWorld(w')
  {
    if xs == [] then w
    else Step(cfg, Run(cfg, w, xs[..|xs| - 1]), xs[|xs| - 1])
  }

  function Start(): (w: World)
    ensures ValidWorld(w)
  {
    World(seq(DISKS, _ => INITIAL), [])
  }

  // The C counter is an int: an idle step must not carry it past INT_MAX.
  predicate SafeStep(cfg: Config, w: World, x: Input)
    requires ValidWorld(w)
  {
    match Accept(cfg.managing, x)
    case None => true
    case Some((disk, o)) => Idles(w.disks[disk], o) ==> w.disks[disk].idle + cfg.checktime <= INT_MAX
  }

  predicate SafeRun(cfg: Config, w: World, xs: seq<Input>)
    requires ValidWorld(w)
  {
    xs == [] || (SafeRun(cfg, w, xs[..|xs| - 1]) && SafeStep(cfg, Run(cfg, w, xs[..|xs| - 1]), xs[|xs| - 1]))
  }

  lemma {:induction false} RunConcat(cfg: Config, w: World, xs: seq<Input>, ys: seq<Input>)
    requires ValidWorld(w)
    ensures Run(cfg, w, xs + ys) == Run(cfg, Run(cfg, w, xs), ys)
    ensures SafeRun(cfg, w, xs + ys) <==> SafeRun(cfg, w, xs) && SafeRun(cfg, Run(cfg, w, xs), ys)
    decreases |ys|
  {
    hide Step, SafeStep;
    if ys == [] {
      assert xs + ys == xs;
    } else {
      assert (xs + ys)[..|xs + ys| - 1] == xs + ys[..|ys| - 1];
      RunConcat(cfg, w, xs, ys[..|ys| - 1]);
    }
  }

  // ---------- One disk on its own ----------

  function RunDisk(cfg: Config, s: Disk, h: seq<Obs>): (Disk, seq<Event>) {
    if h == [] then (s, [])
    else
      var (s', past) := RunDisk(cfg, s, h[..|h| - 1]);
      var (s'', events) := Observe(cfg, s', h[|h| - 1]);
      (s'', past + events)
  }

  function Accepted(managing: bv32, xs: seq<Input>, d: nat): (h: seq<Obs>)
    ensures forall o :: o in h ==> o.stats != ""
  {
    if xs == [] then []
    else
      var h := Accepted(managing, xs[..|xs| - 1], d);
      match Accept(managing, xs[|xs| - 1])
      case None => h
      case Some((disk, o)) => if disk == d then h + [o] else h
  }

  function EventsOf(log: seq<(nat, Event)>, d: nat): seq<Event> {
    if log == [] then []
    else
      var past := EventsOf(log[..|log| - 1], d);
      if log[|log| - 1].0 == d then past + [log[|log| - 1].1] else past
  }

  lemma {:induction false} EventsOfAppend(log: seq<(nat, Event)>, disk: nat, events: seq<Event>, d: nat)
    requires |events| <= 1
    ensures EventsOf(log + Tag(disk, events), d) == EventsOf(log, d) + if disk == d then events else []
  {
    if events == [] {
      assert log + Tag(disk, events) == log;
    } else {
      assert (log + Tag(disk, events))[..|log|] == log;
      assert events == [events[0]];
    }
  }

  lemma StepAt(cfg: Config, w: World, x: Input, d: nat)
    requires ValidWorld(w) && d < DISKS
    ensures var a := Accept(cfg.managing, x);
            var (s, events) :=
              if a.Some? && a.value.0 == d then Observe(cfg, w.disks[d], a.value.1) else (w.disks[d], []);
            Step(cfg, w, x).disks[d] == s && EventsOf(Step(cfg, w, x).log, d) == EventsOf(w.log, d) + events
  {
    hide Accept, EventsOf, Tag;
    match Accept(cfg.managing, x)
    case None =>
    case Some((disk, o)) => EventsOfAppend(w.log, disk, Observe(cfg, w.disks[disk], o).1, d);
  }

  lemma AcceptedNext(managing: bv32, xs: seq<Input>, d: nat)
    requires xs != []
    ensures Accepted(managing, xs, d)
         == var h := Accepted(managing, xs[..|xs| - 1], d);
            var a := Accept(managing, xs[|xs| - 1]);
            if a.Some? && a.value.0 == d then h + [a.value.1] else h
  {
    hide Accept;
  }

  lemma RunDiskSnoc(cfg: Config, s: Disk, h: seq<Obs>, o: Obs)
    ensures RunDisk(cfg, s, h + [o])
         == var (s', past) := RunDisk(cfg, s, h);
            var (s'', events) := Observe(cfg, s', o);
            (s'', past + events)
  {
    hide Observe;
    assert (h + [o])[..|h|] == h;
  }

  lemma NothingRead(cfg: Config, w: World, d: nat)
    requires ValidWorld(w) && d < DISKS
    ensures Run(cfg, w, []) == w && Accepted(cfg.managing, [], d) == []
    ensures RunDisk(cfg, w.disks[d], []) == (w.disks[d], [])
  {
  }

  lemma RunNext(cfg: Config, w: World, xs: seq<Input>)
    requires ValidWorld(w) && xs != []
    ensures Run(cfg, w, xs) == Step(cfg, Run(cfg, w, xs[..|xs| - 1]), xs[|xs| - 1])
  {
    hide Step;
  }

  /** What a disk goes through is decided by its own accepted lines alone. */
  lemma {:induction false} Projection(cfg: Config, w: World, xs: seq<Input>, d: nat)
    requires ValidWorld(w) && d < DISKS
    ensures Run(cfg, w, xs).disks[d] == RunDisk(cfg, w.disks[d], Accepted(cfg.managing, xs, d)).0
    ensures EventsOf(Run(cfg, w, xs).log, d)
         == EventsOf(w.log, d) + RunDisk(cfg, w.disks[d], Accepted(cfg.managing, xs, d)).1
    decreases |xs|
  {
    hide Accept, Accepted, Observe, Step, Run, RunDisk, EventsOf;
    if xs == [] {
      NothingRead(cfg, w, d);
    } else {
      var n := |xs| - 1;
      RunNext(cfg, w, xs);
      var h, a := Accepted(cfg.managing, xs[..n], d), Accept(cfg.managing, xs[n]);
      Projection(cfg, w, xs[..n], d);
      StepAt(cfg, Run(cfg, w, xs[..n]), xs[n], d);
      AcceptedNext(cfg.managing, xs, d);
      if a.Some? && a.value.0 == d {
        RunDiskSnoc(cfg, w.disks[d], h, a.value.1);
      }
    }
  }
}
