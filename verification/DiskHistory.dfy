/** What the counters, cached lines, spin bits and transitions of sd-idle mean in terms
    of the history of accepted lines (sd-idle/src/sd-idle-2.6.c:425-504). */
module DiskHistory {
  import opened DiskMachine

  // ---------- Reference definitions over a history ----------

  ghost predicate Proper(h: seq<Obs>) {
    forall o :: o in h ==> o.stats != ""
  }

  // The last line is quiet and repeats its predecessor.
  predicate Repeats(h: seq<Obs>) {
    |h| >= 2 && h[|h| - 1].quiet && h[|h| - 1].stats == h[|h| - 2].stats
  }

  // Length of the current run of such lines.
  function Streak(h: seq<Obs>): nat {
    if Repeats(h) then Streak(h[..|h| - 1]) + 1 else 0
  }

  function LastStats(h: seq<Obs>): string {
    if h == [] then "" else h[|h| - 1].stats
  }

  predicate Reached(cfg: Config, h: seq<Obs>) {
    cfg.idletime <= cfg.checktime * Streak(h)
  }

  // The line at the end of h crosses the idle time, or ends a streak that had.
  predicate GoesDown(cfg: Config, h: seq<Obs>) {
    h != [] && !Reached(cfg, h[..|h| - 1]) && Reached(cfg, h)
  }

  predicate GoesUp(cfg: Config, h: seq<Obs>) {
    h != [] && Reached(cfg, h[..|h| - 1]) && Streak(h) == 0
  }

  function LastTime(events: seq<Event>): int {
    if events == [] then 0 else events[|events| - 1].now
  }

  function Transitions(cfg: Config, h: seq<Obs>): seq<Event> {
    if h == [] then []
    else
      var past := Transitions(cfg, h[..|h| - 1]);
      var now := h[|h| - 1].now;
      if GoesDown(cfg, h) then past + [Event(true, now, LastTime(past))]
      else if GoesUp(cfg, h) then past + [Event(false, now, LastTime(past))]
      else past
  }

  // ---------- The incremental state is a function of the history ----------

  lemma TimesNext(c: int, k: int)
    ensures c * (k + 1) == c * k + c
  {
  }

  lemma StreakTime(cfg: Config, h: seq<Obs>)
    ensures Repeats(h) ==> cfg.checktime * Streak(h) == cfg.checktime * Streak(h[..|h| - 1]) + cfg.checktime
    ensures !Repeats(h) ==> cfg.checktime * Streak(h) == 0
    ensures Streak(h) == 0 <==> !Repeats(h)
  {
    if Repeats(h) { TimesNext(cfg.checktime, Streak(h[..|h| - 1])); }
  }

  /** The cached line is the last accepted one, the counter is the check time times the
      streak, the disk spins exactly while the counter is below the idle time, and the
      transitions are those of the history. */
  lemma {:induction false} Refinement(cfg: Config, h: seq<Obs>)
    requires cfg.Valid() && Proper(h)
    ensures RunDisk(cfg, INITIAL, h).1 == Transitions(cfg, h)
    ensures RunDisk(cfg, INITIAL, h).0
         == Disk(cfg.checktime * Streak(h), LastTime(Transitions(cfg, h)), LastStats(h),
                 !Reached(cfg, h))
  {
    hide Streak;
    StreakTime(cfg, h);
    if h != [] {
      var n := |h| - 1;
      Refinement(cfg, h[..n]);
      assert h[n] in h;
      assert Idles(RunDisk(cfg, INITIAL, h[..n]).0, h[n]) <==> Repeats(h);
    }
  }

  lemma StartAt(d: nat)
    requires d < DISKS
    ensures Start().disks[d] == INITIAL && EventsOf(Start().log, d) == []
  {
  }

  /** The same for a whole run of the program, seen at one disk. */
  lemma RunRefinement(cfg: Config, xs: seq<Input>, d: nat)
    requires cfg.Valid() && d < DISKS
    ensures var h := Accepted(cfg.managing, xs, d);
            var w := Run(cfg, Start(), xs);
            && w.disks[d].stats == LastStats(h)
            && w.disks[d].idle == cfg.checktime * Streak(h)
            && (w.disks[d].spinning <==> cfg.checktime * Streak(h) < cfg.idletime)
            && w.disks[d].trans == LastTime(Transitions(cfg, h))
            && EventsOf(w.log, d) == Transitions(cfg, h)
  {
    hide Run, Start, Accepted, Transitions, Streak, EventsOf, RunDisk, LastTime, LastStats;
    var h := Accepted(cfg.managing, xs, d);
    StartAt(d);
    Projection(cfg, Start(), xs, d);
    Refinement(cfg, h);
    assert RunDisk(cfg, INITIAL, h).1 == [] + RunDisk(cfg, INITIAL, h).1;
  }

  // ---------- The same without counting ----------

  // The last k lines are quiet and each repeats the one before it.
  ghost predicate QuietTail(h: seq<Obs>, k: nat) {
    k < |h| && forall i :: |h| - k <= i < |h| ==> h[i].quiet && h[i].stats == h[i - 1].stats
  }

  lemma TailOne(h: seq<Obs>)
    requires h != []
    ensures QuietTail(h, 1) <==> Repeats(h)
  {
    if Repeats(h) {
      forall i | |h| - 1 <= i < |h| ensures h[i].quiet && h[i].stats == h[i - 1].stats { }
    }
  }

  lemma TailStep(h: seq<Obs>, k: nat)
    requires h != [] && k > 1
    ensures QuietTail(h, k) <==> Repeats(h) && QuietTail(h[..|h| - 1], k - 1)
  {
    var past, n := h[..|h| - 1], |h| - 1;
    if QuietTail(h, k) {
      assert h[n].quiet && h[n].stats == h[n - 1].stats;
      forall i | |past| - (k - 1) <= i < |past| ensures past[i].quiet && past[i].stats == past[i - 1].stats {
        assert h[i].quiet && h[i].stats == h[i - 1].stats;
      }
    }
    if Repeats(h) && QuietTail(past, k - 1) {
      forall i | |h| - k <= i < |h| ensures h[i].quiet && h[i].stats == h[i - 1].stats {
        if i < n { assert past[i].quiet && past[i].stats == past[i - 1].stats; }
      }
    }
  }

  lemma {:induction false} StreakTail(h: seq<Obs>, k: nat)
    ensures k > 0 ==> (Streak(h) >= k <==> QuietTail(h, k))
    decreases k
  {
    if k > 1 && h != [] {
      var past := h[..|h| - 1];
      StreakTail(past, k - 1);
      TailStep(h, k);
    } else if k == 1 && h != [] {
      TailOne(h);
    }
  }

  // Long enough a tail for the idle time.
  ghost predicate Stopped(cfg: Config, h: seq<Obs>) {
    exists k: nat :: QuietTail(h, k) && cfg.idletime <= cfg.checktime * k
  }

  lemma Monotone(c: int, a: int, b: int)
    requires c > 0 && a <= b
    ensures c * a <= c * b
  {
  }

  lemma StoppedReached(cfg: Config, h: seq<Obs>)
    requires cfg.Valid()
    ensures Stopped(cfg, h) <==> Reached(cfg, h)
  {
    hide Streak, QuietTail;
    if Reached(cfg, h) && Streak(h) > 0 {
      StreakTail(h, Streak(h));
      assert QuietTail(h, Streak(h)) && cfg.idletime <= cfg.checktime * Streak(h);
    }
    if Stopped(cfg, h) {
      var k: nat :| QuietTail(h, k) && cfg.idletime <= cfg.checktime * k;
      if k > 0 {
        StreakTail(h, k);
        Monotone(cfg.checktime, k, Streak(h));
      }
    }
  }

  /** After every run, a disk is stopped exactly when its last accepted lines, for long
      enough, are quiet and repeat each other. */
  lemma StoppedMeans(cfg: Config, xs: seq<Input>, d: nat)
    requires cfg.Valid() && d < DISKS
    ensures !Run(cfg, Start(), xs).disks[d].spinning <==> Stopped(cfg, Accepted(cfg.managing, xs, d))
  {
    hide Run, Start, Accepted, Transitions, Streak, EventsOf, LastTime, LastStats, Stopped;
    RunRefinement(cfg, xs, d);
    StoppedReached(cfg, Accepted(cfg.managing, xs, d));
  }

  lemma UpOnlyStopped(cfg: Config, h: seq<Obs>)
    requires cfg.Valid() && h != []
    ensures GoesDown(cfg, h) ==> !Reached(cfg, h[..|h| - 1])
    ensures GoesUp(cfg, h) ==> Reached(cfg, h[..|h| - 1])
  {
    hide Reached, Streak;
  }

  // The least number of repetitions that reaches the idle time.
  function Threshold(cfg: Config): (k: int)
    requires cfg.checktime > 0
  {
    (cfg.idletime + cfg.checktime - 1) / cfg.checktime
  }

  lemma DivideUp(n: int, c: int, t: int)
    requires c > 0 && t == (n + c - 1) / c
    ensures n <= c * t < n + c
  {
    assert n + c - 1 == c * t + (n + c - 1) % c;
  }

  lemma ThresholdIsLeast(cfg: Config, k: nat)
    requires cfg.Valid()
    ensures cfg.idletime <= cfg.checktime * k <==> Threshold(cfg) <= k
    ensures cfg.idletime <= cfg.checktime * Threshold(cfg) < cfg.idletime + cfg.checktime
    ensures Threshold(cfg) > 0
  {
    var t, c := Threshold(cfg), cfg.checktime;
    DivideUp(cfg.idletime, c, t);
    if t <= k {
      Monotone(c, t, k);
    } else {
      Monotone(c, k, t - 1);
      assert c * (t - 1) == c * t - c;
    }
    if t <= 0 { Monotone(c, t, 0); }
  }

  lemma StreakGrows(h: seq<Obs>)
    requires h != []
    ensures Streak(h) == 0 || Streak(h) == Streak(h[..|h| - 1]) + 1
  {
  }

  lemma Flips(cfg: Config, h: seq<Obs>)
    requires cfg.Valid() && h != []
    ensures !(GoesDown(cfg, h) && GoesUp(cfg, h))
    ensures Reached(cfg, h)
         == if GoesDown(cfg, h) then true else if GoesUp(cfg, h) then false else Reached(cfg, h[..|h| - 1])
  {
    ThresholdIsLeast(cfg, Streak(h));
    ThresholdIsLeast(cfg, Streak(h[..|h| - 1]));
    StreakGrows(h);
  }

  /** A line adds a transition exactly when it changes whether the disk is stopped; the
      transition has the direction of the change and the time of the line. */
  lemma TransitionsMean(cfg: Config, h: seq<Obs>)
    requires cfg.Valid() && h != []
    ensures var past, events := Transitions(cfg, h[..|h| - 1]), Transitions(cfg, h);
            if Stopped(cfg, h) == Stopped(cfg, h[..|h| - 1]) then events == past
            else && |events| == |past| + 1 && events[..|past|] == past
                 && events[|past|].down == Stopped(cfg, h) && events[|past|].now == h[|h| - 1].now
  {
    hide Streak, Stopped, Reached;
    StoppedReached(cfg, h);
    StoppedReached(cfg, h[..|h| - 1]);
    Flips(cfg, h);
    UpOnlyStopped(cfg, h);
  }

  // ---------- One stop per streak ----------

  /** A stop is issued exactly on the line where the streak reaches the threshold, so
      once per streak; the counter then exceeds the idle time by less than one check. */
  lemma StopAtThreshold(cfg: Config, h: seq<Obs>)
    requires cfg.Valid() && h != []
    ensures GoesDown(cfg, h) <==> Streak(h) == Threshold(cfg)
    ensures GoesDown(cfg, h) ==> cfg.idletime <= cfg.checktime * Streak(h) < cfg.idletime + cfg.checktime
    ensures GoesUp(cfg, h) <==> Streak(h) == 0 && Streak(h[..|h| - 1]) >= Threshold(cfg)
  {
    ThresholdIsLeast(cfg, Streak(h));
    ThresholdIsLeast(cfg, Streak(h[..|h| - 1]));
    StreakGrows(h);
  }

  // ---------- Alternation ----------

  function Downs(events: seq<Event>): nat {
    if events == [] then 0 else Downs(events[..|events| - 1]) + if events[|events| - 1].down then 1 else 0
  }

  ghost predicate Alternates(ev: seq<Event>) {
    && (forall i :: 0 <= i < |ev| ==> (ev[i].down <==> i % 2 == 0))
    && (ev != [] ==> ev[0].since == 0)
    && (forall i :: 0 < i < |ev| ==> ev[i].since == ev[i - 1].now)
  }

  lemma NoEvents()
    ensures Alternates([]) && Downs([]) == 0
  {
  }

  lemma AlternatesSnoc(past: seq<Event>, e: Event)
    requires Alternates(past) && (e.down <==> |past| % 2 == 0) && e.since == LastTime(past)
    ensures Alternates(past + [e])
    ensures Downs(past + [e]) == Downs(past) + if e.down then 1 else 0
  {
    var ev := past + [e];
    assert ev[..|past|] == past;
    forall i | 0 < i < |ev| ensures ev[i].since == ev[i - 1].now {
      if i < |past| { assert past[i].since == past[i - 1].now; }
    }
  }

  lemma NothingReached(cfg: Config)
    requires cfg.Valid()
    ensures !Reached(cfg, [])
  {
  }

  /** Downs and ups alternate beginning with a down, each event names its predecessor's
      time, and downs outnumber ups by one exactly while the disk is stopped. */
  lemma {:induction false} Alternation(cfg: Config, h: seq<Obs>)
    requires cfg.Valid()
    ensures Alternates(Transitions(cfg, h))
    ensures Downs(Transitions(cfg, h)) - (|Transitions(cfg, h)| - Downs(Transitions(cfg, h)))
         == if Reached(cfg, h) then 1 else 0
    ensures |Transitions(cfg, h)| % 2 == if Reached(cfg, h) then 1 else 0
  {
    hide Reached, Streak, Alternates, Downs;
    if h == [] {
      NothingReached(cfg);
      NoEvents();
    } else {
      var past := Transitions(cfg, h[..|h| - 1]);
      Alternation(cfg, h[..|h| - 1]);
      Flips(cfg, h);
      var ev := Transitions(cfg, h);
      if ev != past {
        AlternatesSnoc(past, ev[|past|]);
      }
    }
  }

  lemma AlternatesInit(ev: seq<Event>)
    requires Alternates(ev) && ev != []
    ensures Alternates(ev[..|ev| - 1])
    ensures ev[|ev| - 1].since == LastTime(ev[..|ev| - 1])
  {
    var past := ev[..|ev| - 1];
    forall i | 0 < i < |past| ensures past[i].since == past[i - 1].now {
      assert ev[i].since == ev[i - 1].now;
    }
  }

  // The lines of a history on which the streak reaches the threshold, one for each streak
  // that gets that far.
  function Crossings(cfg: Config, h: seq<Obs>): set<nat>
    requires cfg.checktime > 0
  {
    set n | 0 < n <= |h| && Streak(h[..n]) == Threshold(cfg)
  }

  lemma InCrossings(cfg: Config, h: seq<Obs>, n: nat)
    requires cfg.checktime > 0
    ensures n in Crossings(cfg, h) <==> 0 < n <= |h| && Streak(h[..n]) == Threshold(cfg)
  {
    hide Streak, Threshold;
  }

  lemma CrossingsNext(cfg: Config, h: seq<Obs>)
    requires cfg.checktime > 0 && h != []
    ensures Crossings(cfg, h)
         == Crossings(cfg, h[..|h| - 1]) + if Streak(h) == Threshold(cfg) then {|h|} else {}
    ensures |h| !in Crossings(cfg, h[..|h| - 1])
  {
    hide Streak, Threshold, Crossings;
    var past := h[..|h| - 1];
    assert h[..|h|] == h;
    InCrossings(cfg, past, |h|);
    forall n: nat
      ensures n in Crossings(cfg, h) <==> n in Crossings(cfg, past) || (n == |h| && Streak(h) == Threshold(cfg))
    {
      InCrossings(cfg, h, n);
      InCrossings(cfg, past, n);
      if n <= |past| { assert past[..n] == h[..n]; }
    }
  }

  lemma NoCrossings(cfg: Config)
    requires cfg.Valid()
    ensures Crossings(cfg, []) == {}
  {
  }

  /** The downs of a history number its crossings. */
  lemma {:induction false} DownsCountCrossings(cfg: Config, h: seq<Obs>)
    requires cfg.Valid()
    ensures Downs(Transitions(cfg, h)) == |Crossings(cfg, h)|
  {
    hide Streak, Threshold, Crossings, GoesDown, GoesUp;
    if h == [] {
      NoCrossings(cfg);
    } else {
      var past, ev := Transitions(cfg, h[..|h| - 1]), Transitions(cfg, h);
      DownsCountCrossings(cfg, h[..|h| - 1]);
      CrossingsNext(cfg, h);
      StopAtThreshold(cfg, h);
      assert ev != past ==> ev[..|past|] == past;
    }
  }

  // ---------- The int counter ----------

  ghost predicate Short(cfg: Config, xs: seq<Input>) {
    forall d :: 0 <= d < DISKS ==> cfg.checktime * Streak(Accepted(cfg.managing, xs, d)) <= 0x7FFF_FFFF
  }

  lemma CounterStep(cfg: Config, s: Disk, h: seq<Obs>, o: Obs)
    requires cfg.Valid() && cfg.checktime * Streak(h) <= INT_MAX && o.stats != ""
    requires s.stats == LastStats(h) && s.idle == cfg.checktime * Streak(h)
    ensures (Idles(s, o) ==> s.idle + cfg.checktime <= INT_MAX) <==> cfg.checktime * Streak(h + [o]) <= INT_MAX
  {
    assert (h + [o])[..|h|] == h;
    assert cfg.checktime * (Streak(h) + 1) == cfg.checktime * Streak(h) + cfg.checktime;
  }

  lemma SafeStepIffShort(cfg: Config, xs: seq<Input>)
    requires cfg.Valid() && xs != [] && Short(cfg, xs[..|xs| - 1])
    ensures SafeStep(cfg, Run(cfg, Start(), xs[..|xs| - 1]), xs[|xs| - 1]) <==> Short(cfg, xs)
  {
    hide Accept, Run, Start, Accepted, Idles, Streak;
    var past, a := xs[..|xs| - 1], Accept(cfg.managing, xs[|xs| - 1]);
    forall d | 0 <= d < DISKS
      ensures !(a.Some? && a.value.0 == d) ==> Accepted(cfg.managing, xs, d) == Accepted(cfg.managing, past, d)
    {
      AcceptedNext(cfg.managing, xs, d);
    }
    if a.Some? {
      var (disk, o) := a.value;
      RunRefinement(cfg, past, disk);
      AcceptedNext(cfg.managing, xs, disk);
      CounterStep(cfg, Run(cfg, Start(), past).disks[disk], Accepted(cfg.managing, past, disk), o);
    }
  }

  lemma NothingShort(cfg: Config)
    ensures Short(cfg, [])
  {
  }

  /** The C counter never overflows during a run exactly when no disk ever has a streak
      whose length times the check time exceeds INT_MAX. */
  lemma {:induction false} SafeIffStreaksShort(cfg: Config, xs: seq<Input>)
    requires cfg.Valid()
    ensures SafeRun(cfg, Start(), xs) <==> forall n :: 0 <= n <= |xs| ==> Short(cfg, xs[..n])
  {
    hide Short, SafeStep, Run;
    if xs == [] {
      NothingShort(cfg);
      assert xs[..0] == [];
    } else {
      var past := xs[..|xs| - 1];
      SafeIffStreaksShort(cfg, past);
      assert forall n :: 0 <= n <= |past| ==> past[..n] == xs[..n];
      assert xs[..|xs|] == xs;
      if SafeRun(cfg, Start(), past) {
        assert past[..|past|] == past;
        SafeStepIffShort(cfg, xs);
      }
    }
  }
}
