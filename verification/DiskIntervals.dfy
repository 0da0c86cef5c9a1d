/** What the intervals named in the transition messages of a disk add up to
    (sd-idle/src/sd-idle-2.6.c:400-409). */
module DiskIntervals {
  import opened Strings
  import opened CNumbers
  import opened DiskMask
  import opened DiskMachine
  import opened DiskHistory
  import opened TransitionMessage

  // ---------- Reading the messages ----------

  // The interval that can be read in the message of an event, 0 when it names none.
  function Named(disk: nat, e: Event): int
    requires disk < DISKS
  {
    match ReadMessage(MessageText(e.down, disk, e.since, e.now))
    case None => 0
    case Some(r) => match r.parts { case None => 0 case Some(parts) => Total(parts) }
  }

  function Reported(disk: nat, events: seq<Event>): int
    requires disk < DISKS
  {
    if events == [] then 0
    else Reported(disk, events[..|events| - 1]) + Named(disk, events[|events| - 1])
  }

  lemma NamedInterval(disk: nat, e: Event)
    requires disk < DISKS
    ensures Named(disk, e) == if e.since == 0 then 0 else ToInt32(e.now - e.since)
  {
    hide ReadMessage, MessageText, ToInt32;
    MessageRead(e.down, disk, e.since, e.now);
  }

  // The first nonzero transition time, 0 for none.
  function FirstTime(events: seq<Event>): int {
    if events == [] then 0
    else
      var past := FirstTime(events[..|events| - 1]);
      if past != 0 then past else events[|events| - 1].now
  }

  // What the message of e leaves out: the whole time since the last transition when that
  // was at time zero, so that no interval is named; otherwise what the int drops.
  function Missed(past: seq<Event>, e: Event): int {
    if e.since != 0 then e.now - e.since - ToInt32(e.now - e.since)
    else if FirstTime(past) != 0 then e.now
    else 0
  }

  function Missing(events: seq<Event>): int {
    if events == [] then 0
    else
      var past := events[..|events| - 1];
      Missing(past) + Missed(past, events[|events| - 1])
  }

  lemma {:induction false} Telescope(disk: nat, events: seq<Event>)
    requires disk < DISKS && Alternates(events)
    ensures Reported(disk, events) + Missing(events) == LastTime(events) - FirstTime(events)
  {
    hide Named, ToInt32, Alternates;
    if events != [] {
      AlternatesInit(events);
      Telescope(disk, events[..|events| - 1]);
      NamedInterval(disk, events[|events| - 1]);
    }
  }

  // ---------- When they are right ----------

  ghost predicate Right(disk: nat, events: seq<Event>)
    requires disk < DISKS
  {
    Reported(disk, events) == LastTime(events) - FirstTime(events)
  }

  // A transition at time zero after a nonzero one, followed by one at another time.
  ghost predicate Restarts(events: seq<Event>, i: nat) {
    && 0 < i < |events| && events[i - 1].now == 0 && events[i].now != 0
    && exists j :: 0 <= j < i && events[j].now != 0
  }

  // Consecutive transitions too far apart for an int.
  ghost predicate Overflows(events: seq<Event>, i: nat) {
    && 0 < i < |events| && events[i - 1].now != 0
    && !(-0x8000_0000 <= events[i].now - events[i - 1].now <= 0x7FFF_FFFF)
  }

  ghost predicate Clean(events: seq<Event>, i: nat) {
    !Restarts(events, i) && !Overflows(events, i)
  }

  lemma {:induction false} FirstNonzero(events: seq<Event>)
    ensures FirstTime(events) != 0 <==> exists j :: 0 <= j < |events| && events[j].now != 0
  {
    if events != [] {
      var past := events[..|events| - 1];
      FirstNonzero(past);
      if exists j :: 0 <= j < |past| && past[j].now != 0 {
        var j :| 0 <= j < |past| && past[j].now != 0;
        assert events[j].now != 0;
      }
      if exists j :: 0 <= j < |events| && events[j].now != 0 {
        var j :| 0 <= j < |events| && events[j].now != 0;
        assert j < |past| ==> past[j].now != 0;
      }
    }
  }

  lemma MissedIffUnclean(events: seq<Event>, i: nat)
    requires Alternates(events) && i < |events|
    ensures Missed(events[..i], events[i]) == 0 <==> Clean(events, i)
  {
    var past := events[..i];
    FirstNonzero(past);
    if i > 0 {
      assert events[i].since == events[i - 1].now;
      assert forall j :: 0 <= j < i ==> past[j] == events[j];
    }
  }

  lemma {:induction false} MissingPrefix(events: seq<Event>, n: nat)
    requires n < |events|
    ensures Missing(events[..n + 1]) == Missing(events[..n]) + Missed(events[..n], events[n])
  {
    assert events[..n + 1][..n] == events[..n];
  }

  lemma {:induction false} AlternatesPrefix(events: seq<Event>, n: nat)
    requires Alternates(events) && n <= |events|
    ensures Alternates(events[..n])
    decreases |events|
  {
    if n < |events| {
      AlternatesInit(events);
      AlternatesPrefix(events[..|events| - 1], n);
      assert events[..|events| - 1][..n] == events[..n];
    } else {
      assert events[..n] == events;
    }
  }

  lemma RightIffNothingMissing(disk: nat, events: seq<Event>, n: nat)
    requires disk < DISKS && Alternates(events) && n <= |events|
    ensures Right(disk, events[..n]) <==> Missing(events[..n]) == 0
  {
    AlternatesPrefix(events, n);
    Telescope(disk, events[..n]);
  }

  lemma {:induction false} CleanMissesNothing(events: seq<Event>, n: nat)
    requires Alternates(events) && n <= |events|
    requires forall i :: 0 <= i < n ==> Clean(events, i)
    ensures Missing(events[..n]) == 0
  {
    hide Alternates, Clean;
    if n > 0 {
      CleanMissesNothing(events, n - 1);
      MissingPrefix(events, n - 1);
      MissedIffUnclean(events, n - 1);
    }
  }

  lemma RightThroughout(disk: nat, events: seq<Event>)
    requires disk < DISKS && Alternates(events)
    ensures (forall n :: 0 <= n <= |events| ==> Right(disk, events[..n]))
       <==> forall i :: 0 <= i < |events| ==> Clean(events, i)
  {
    hide Alternates, Clean, Right, Missing, Missed;
    if forall i :: 0 <= i < |events| ==> Clean(events, i) {
      forall n | 0 <= n <= |events| ensures Right(disk, events[..n]) {
        CleanMissesNothing(events, n);
        RightIffNothingMissing(disk, events, n);
      }
    }
    if forall n :: 0 <= n <= |events| ==> Right(disk, events[..n]) {
      forall i | 0 <= i < |events| ensures Clean(events, i) {
        RightIffNothingMissing(disk, events, i);
        RightIffNothingMissing(disk, events, i + 1);
        assert Right(disk, events[..i]) && Right(disk, events[..i + 1]);
        MissingPrefix(events, i);
        MissedIffUnclean(events, i);
      }
    }
  }

  // Clock readings as time() gives them, none more than 2^31 seconds before its predecessor.
  ghost predicate Plausible(events: seq<Event>) {
    && (forall i :: 0 <= i < |events| ==> events[i].now >= 0)
    && (forall i :: 0 < i < |events| ==> events[i].now - events[i - 1].now >= -0x8000_0000)
  }

  lemma LowInt(x: int)
    requires x >= -0x8000_0000
    ensures ToInt32(x) <= x
  {
  }

  lemma MissedNotNegative(events: seq<Event>, i: nat)
    requires Alternates(events) && Plausible(events) && i < |events|
    ensures Missed(events[..i], events[i]) >= 0
  {
    if i > 0 {
      assert events[i].since == events[i - 1].now;
      LowInt(events[i].now - events[i - 1].now);
    }
  }

  lemma {:induction false} MissingZero(events: seq<Event>, n: nat)
    requires Alternates(events) && Plausible(events) && n <= |events|
    ensures Missing(events[..n]) >= 0
    ensures Missing(events[..n]) == 0 <==> forall i :: 0 <= i < n ==> Clean(events, i)
  {
    hide Alternates, Plausible, Clean, Missed;
    if n > 0 {
      MissingZero(events, n - 1);
      MissingPrefix(events, n - 1);
      MissedNotNegative(events, n - 1);
      MissedIffUnclean(events, n - 1);
    }
  }

  lemma PlausibleRight(disk: nat, events: seq<Event>)
    requires disk < DISKS && Alternates(events) && Plausible(events)
    ensures Right(disk, events) <==> forall i :: 0 <= i < |events| ==> Clean(events, i)
  {
    hide Right, Missing, Clean, Alternates, Plausible;
    assert events[..|events|] == events;
    RightIffNothingMissing(disk, events, |events|);
    MissingZero(events, |events|);
  }

  // ---------- Runs ----------

  // The transitions of a disk in a run of the program.
  function RunEvents(cfg: Config, xs: seq<Input>, d: nat): seq<Event> {
    EventsOf(Run(cfg, Start(), xs).log, d)
  }

  lemma RunAlternates(cfg: Config, xs: seq<Input>, d: nat)
    requires cfg.Valid() && d < DISKS
    ensures Alternates(RunEvents(cfg, xs, d))
  {
    hide Run, EventsOf, Transitions;
    RunRefinement(cfg, xs, d);
    Alternation(cfg, Accepted(cfg.managing, xs, d));
  }

  /** In every run, the intervals read from a disk's messages telescope: together with what
      the messages miss they are the last transition time minus the first nonzero one. */
  lemma IntervalsTelescope(cfg: Config, xs: seq<Input>, d: nat)
    requires cfg.Valid() && d < DISKS
    ensures var events := RunEvents(cfg, xs, d);
            Reported(d, events) + Missing(events) == LastTime(events) - FirstTime(events)
  {
    hide RunEvents;
    RunAlternates(cfg, xs, d);
    Telescope(d, RunEvents(cfg, xs, d));
  }

  /** The messages are right after every transition of a run exactly when no transition
      follows one at time zero that itself came after a nonzero one, and no two consecutive
      ones are too far apart for an int. */
  lemma IntervalsRightThroughout(cfg: Config, xs: seq<Input>, d: nat)
    requires cfg.Valid() && d < DISKS
    ensures var events := RunEvents(cfg, xs, d);
            ((forall n :: 0 <= n <= |events| ==> Right(d, events[..n]))
             <==> forall i :: 0 <= i < |events| ==> Clean(events, i))
  {
    hide RunEvents;
    RunAlternates(cfg, xs, d);
    RightThroughout(d, RunEvents(cfg, xs, d));
  }

  /** With plausible clock readings the same condition decides the sum of the whole run. */
  lemma IntervalsRight(cfg: Config, xs: seq<Input>, d: nat)
    requires cfg.Valid() && d < DISKS && Plausible(RunEvents(cfg, xs, d))
    ensures var events := RunEvents(cfg, xs, d);
            Right(d, events) <==> forall i :: 0 <= i < |events| ==> Clean(events, i)
  {
    hide RunEvents, Clean, Plausible, Right;
    RunAlternates(cfg, xs, d);
    PlausibleRight(d, RunEvents(cfg, xs, d));
  }

  // ---------- Failing runs ----------

  const EAGER := Config(300, 300, 0xFFFF_FFFF)

  function SdaStats(count: char): string { [count] + " 1 1 1 1 1 1 1 0\n" }

  // The line of an idle first disk; the digit counts its completed reads.
  function SdaLine(count: char): string { " sda " + SdaStats(count) }

  function SdaColumns(count: char): seq<string> {
    [[count]] + ["1", "1", "1", "1", "1", "1", "1", "0\n"]
  }

  lemma ColumnsJoin(first: string, rest: seq<string>)
    requires |rest| > 0
    ensures Join([first] + rest, ' ') == first + " " + Join(rest, ' ')
  {
    assert ([first] + rest)[1..] == rest;
  }

  lemma FourJoined()
    ensures Join(["1", "1", "1", "0\n"], ' ') == "1 1 1 0\n"
  {
    ColumnsJoin("1", ["0\n"]);
    ColumnsJoin("1", ["1", "0\n"]);
    ColumnsJoin("1", ["1", "1", "0\n"]);
    assert ["1"] + ["0\n"] == ["1", "0\n"] && ["1"] + ["1", "0\n"] == ["1", "1", "0\n"];
    assert ["1"] + ["1", "1", "0\n"] == ["1", "1", "1", "0\n"];
  }

  lemma OnesJoined()
    ensures Join(["1", "1", "1", "1", "1", "1", "1", "0\n"], ' ') == "1 1 1 1 1 1 1 0\n"
  {
    hide Join;
    FourJoined();
    ColumnsJoin("1", ["1", "1", "1", "0\n"]);
    ColumnsJoin("1", ["1", "1", "1", "1", "0\n"]);
    ColumnsJoin("1", ["1", "1", "1", "1", "1", "0\n"]);
    ColumnsJoin("1", ["1", "1", "1", "1", "1", "1", "0\n"]);
    assert ["1"] + ["1", "1", "1", "0\n"] == ["1", "1", "1", "1", "0\n"];
    assert ["1"] + ["1", "1", "1", "1", "0\n"] == ["1", "1", "1", "1", "1", "0\n"];
    assert ["1"] + ["1", "1", "1", "1", "1", "0\n"] == ["1", "1", "1", "1", "1", "1", "0\n"];
    assert ["1"] + ["1", "1", "1", "1", "1", "1", "0\n"] == ["1", "1", "1", "1", "1", "1", "1", "0\n"];
  }

  lemma SdaStatsJoined(count: char)
    ensures Join(SdaColumns(count), ' ') == SdaStats(count)
  {
    hide Join;
    ColumnsJoin([count], ["1", "1", "1", "1", "1", "1", "1", "0\n"]);
    OnesJoined();
  }

  lemma SdaLength(count: char)
    ensures |SdaStats(count)| == 18
  {
  }

  lemma SdaNamed(count: char)
    ensures NamesDisk(SdaLine(count), 0) && SdaLine(count)[3] == 'a'
    ensures SdaLine(count)[5..] == SdaStats(count) && |SdaLine(count)| < SLOT_SIZE
  {
    hide SdaStats;
    var line := SdaLine(count);
    assert line[0..] == line && " sd" <= line;
    assert |SdaStats(count)| == 18 by { SdaLength(count); }
  }

  lemma SdaSpaceFree(count: char)
    requires count != ' '
    ensures forall f :: f in SdaColumns(count) ==> ' ' !in f
  {
  }

  lemma SdaAccepted(count: char, now: int)
    requires count != ' '
    ensures Accept(EAGER.managing, Input(SdaLine(count), now)) == Some((0, Obs(SdaStats(count), true, now)))
  {
    hide Accept, Join, NamesDisk, IsSet, SdaLine, SdaStats;
    SdaNamed(count);
    SdaSpaceFree(count);
    SdaStatsJoined(count);
    Extremes(0);
    AcceptFormatted(EAGER.managing, Input(SdaLine(count), now), 0, SdaColumns(count));
  }

  // The disk is seen idle twice, so it is stopped at a; it is busy in between and again
  // idle, so it spins up at b and is stopped at c.
  function Passes(a: int, b: int, c: int): seq<Input> {
    [Input(SdaLine('1'), a), Input(SdaLine('1'), a), Input(SdaLine('2'), b), Input(SdaLine('2'), c)]
  }

  function Idled(a: int, b: int, c: int): seq<Obs> {
    [Obs(SdaStats('1'), true, a), Obs(SdaStats('1'), true, a), Obs(SdaStats('2'), true, b), Obs(SdaStats('2'), true, c)]
  }

  lemma AcceptedSnoc(xs: seq<Input>, count: char, now: int)
    requires count != ' '
    ensures Accepted(EAGER.managing, xs + [Input(SdaLine(count), now)], 0)
         == Accepted(EAGER.managing, xs, 0) + [Obs(SdaStats(count), true, now)]
  {
    hide Accept, SdaLine, SdaStats;
    var all := xs + [Input(SdaLine(count), now)];
    assert all[..|all| - 1] == xs;
    SdaAccepted(count, now);
    AcceptedNext(EAGER.managing, all, 0);
  }

  lemma NothingToAccept()
    ensures Accepted(EAGER.managing, [], 0) == []
  {
  }

  lemma PassesAccepted(a: int, b: int, c: int)
    ensures Accepted(EAGER.managing, Passes(a, b, c), 0) == Idled(a, b, c)
  {
    hide Accepted, SdaLine, SdaStats;
    var xs := Passes(a, b, c);
    NothingToAccept();
    AcceptedSnoc([], '1', a);
    AcceptedSnoc(xs[..1], '1', a);
    AcceptedSnoc(xs[..2], '2', b);
    AcceptedSnoc(xs[..3], '2', c);
    assert [] + [xs[0]] == xs[..1] && xs[..1] + [xs[1]] == xs[..2];
    assert xs[..2] + [xs[2]] == xs[..3] && xs[..3] + [xs[3]] == xs;
  }

  // One more idle line that repeats the last one stops the disk, and one that differs
  // spins it up.
  lemma {:induction false} NextDown(h: seq<Obs>, o: Obs)
    requires h != [] && Streak(h) == 0 && o.quiet && o.stats == h[|h| - 1].stats
    ensures Streak(h + [o]) == 1
    ensures Transitions(EAGER, h + [o])
         == Transitions(EAGER, h) + [Event(true, o.now, LastTime(Transitions(EAGER, h)))]
  {
    assert (h + [o])[..|h|] == h;
  }

  lemma {:induction false} NextUp(h: seq<Obs>, o: Obs)
    requires h != [] && Streak(h) == 1 && o.stats != h[|h| - 1].stats
    ensures Streak(h + [o]) == 0
    ensures Transitions(EAGER, h + [o])
         == Transitions(EAGER, h) + [Event(false, o.now, LastTime(Transitions(EAGER, h)))]
  {
    assert (h + [o])[..|h|] == h;
  }

  lemma FirstLine(o: Obs)
    ensures Streak([o]) == 0 && Transitions(EAGER, [o]) == []
  {
    assert [o][..0] == [];
  }

  lemma IdledTransitions(a: int, b: int, c: int)
    ensures Transitions(EAGER, Idled(a, b, c)) == [Event(true, a, 0), Event(false, b, a), Event(true, c, b)]
  {
    hide Transitions, Streak;
    var h := Idled(a, b, c);
    assert SdaStats('1')[0] != SdaStats('2')[0];
    hide SdaStats;
    FirstLine(h[0]);
    assert h[..1] == [h[0]] && h[..1] + [h[1]] == h[..2] && h[..2] + [h[2]] == h[..3] && h[..3] + [h[3]] == h;
    NextDown(h[..1], h[1]);
    NextUp(h[..2], h[2]);
    NextDown(h[..3], h[3]);
  }

  lemma PassesEvents(a: int, b: int, c: int)
    ensures RunEvents(EAGER, Passes(a, b, c), 0) == [Event(true, a, 0), Event(false, b, a), Event(true, c, b)]
  {
    hide Run, Accepted, EventsOf, Transitions, Passes, Idled, Streak, LastTime, LastStats;
    PassesAccepted(a, b, c);
    IdledTransitions(a, b, c);
    RunRefinement(EAGER, Passes(a, b, c), 0);
  }

  /** A clock that reads zero in between makes the messages lose an interval. */
  lemma ZeroClockLoses()
    ensures var events := RunEvents(EAGER, Passes(5, 0, 7), 0);
            events == [Event(true, 5, 0), Event(false, 0, 5), Event(true, 7, 0)]
            && Restarts(events, 2) && !Right(0, events)
  {
    hide Right, RunEvents, Passes;
    PassesEvents(5, 0, 7);
    RunAlternates(EAGER, Passes(5, 0, 7), 0);
    var events := RunEvents(EAGER, Passes(5, 0, 7), 0);
    assert events[0].now != 0;
    PlausibleRight(0, events);
    assert !Clean(events, 2);
  }

  /** A gap of 2^31 seconds is named as a negative interval. */
  lemma LongGapWraps()
    ensures var events := RunEvents(EAGER, Passes(1, 0x8000_0001, 0x8000_0001), 0);
            |events| == 3 && events[1] == Event(false, 0x8000_0001, 1)
            && Named(0, events[1]) == -0x8000_0000 && Overflows(events, 1) && !Right(0, events)
  {
    hide Right, Named, RunEvents, Passes;
    PassesEvents(1, 0x8000_0001, 0x8000_0001);
    RunAlternates(EAGER, Passes(1, 0x8000_0001, 0x8000_0001), 0);
    var events := RunEvents(EAGER, Passes(1, 0x8000_0001, 0x8000_0001), 0);
    NamedInterval(0, events[1]);
    PlausibleRight(0, events);
    assert !Clean(events, 1);
  }
}
