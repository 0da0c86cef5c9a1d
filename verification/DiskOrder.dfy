/** How far the order of diskstats lines matters, and disks that are not managed
    (sd-idle/src/sd-idle-2.6.c:479-504, 524-526). */
module DiskOrder {
  import opened DiskMachine
  import opened DiskMask

  // The same disk states and the same transitions of every disk.
  ghost predicate SameOutcome(w1: World, w2: World) {
    && w1.disks == w2.disks
    && forall d :: 0 <= d < DISKS ==> EventsOf(w1.log, d) == EventsOf(w2.log, d)
  }

  /** Two runs agree as soon as each disk sees the same lines in the same order. */
  lemma SameLinesPerDisk(cfg: Config, w: World, xs: seq<Input>, ys: seq<Input>)
    requires ValidWorld(w)
    requires forall d :: 0 <= d < DISKS ==> Accepted(cfg.managing, xs, d) == Accepted(cfg.managing, ys, d)
    ensures SameOutcome(Run(cfg, w, xs), Run(cfg, w, ys))
  {
    hide Run, Accepted, EventsOf, RunDisk;
    forall d | 0 <= d < DISKS
      ensures Run(cfg, w, xs).disks[d] == Run(cfg, w, ys).disks[d]
      ensures EventsOf(Run(cfg, w, xs).log, d) == EventsOf(Run(cfg, w, ys).log, d)
    {
      Projection(cfg, w, xs, d);
      Projection(cfg, w, ys, d);
    }
  }

  lemma {:induction false} AcceptedAppend(managing: bv32, xs: seq<Input>, ys: seq<Input>, d: nat)
    ensures Accepted(managing, xs + ys, d) == Accepted(managing, xs, d) + Accepted(managing, ys, d)
    decreases |ys|
  {
    hide Accept;
    if ys == [] {
      assert xs + ys == xs;
    } else {
      var n := |ys| - 1;
      assert (xs + ys)[..|xs + ys| - 1] == xs + ys[..n];
      AcceptedAppend(managing, xs, ys[..n], d);
    }
  }

  /** Two lines that are not both accepted for the same disk may be processed, each with
      its own time, in either order, from any state. */
  lemma LinesCommute(cfg: Config, w: World, x: Input, y: Input)
    requires ValidWorld(w)
    requires var a, b := Accept(cfg.managing, x), Accept(cfg.managing, y);
             !(a.Some? && b.Some? && a.value.0 == b.value.0)
    ensures SameOutcome(Run(cfg, w, [x, y]), Run(cfg, w, [y, x]))
  {
    hide Accept;
    forall d | 0 <= d < DISKS
      ensures Accepted(cfg.managing, [x, y], d) == Accepted(cfg.managing, [y, x], d)
    {
      assert [x, y] == [x] + [y] && [y, x] == [y] + [x];
      AcceptedAppend(cfg.managing, [x], [y], d);
      AcceptedAppend(cfg.managing, [y], [x], d);
    }
    SameLinesPerDisk(cfg, w, [x, y], [y, x]);
  }

  lemma WithoutOne<T>(s: seq<T>, j: nat)
    requires j < |s|
    ensures multiset(s[..j] + s[j + 1..]) == multiset(s) - multiset{s[j]}
  {
    assert s == s[..j] + [s[j]] + s[j + 1..];
  }

  lemma AcceptedWithout(managing: bv32, ys: seq<Input>, j: nat, d: nat)
    requires j < |ys|
    ensures multiset(Accepted(managing, ys, d))
         == multiset(Accepted(managing, ys[..j] + ys[j + 1..], d)) + multiset(Accepted(managing, [ys[j]], d))
  {
    hide Accepted;
    assert ys == ys[..j] + [ys[j]] + ys[j + 1..];
    AcceptedAppend(managing, ys[..j], ys[j + 1..], d);
    AcceptedAppend(managing, ys[..j] + [ys[j]], ys[j + 1..], d);
    AcceptedAppend(managing, ys[..j], [ys[j]], d);
  }

  lemma Occurrence<T>(x: T, ys: seq<T>) returns (j: nat)
    requires x in multiset(ys)
    ensures j < |ys| && ys[j] == x
  {
    j :| 0 <= j < |ys| && ys[j] == x;
  }

  lemma {:induction false} AcceptedOfPermutation(managing: bv32, xs: seq<Input>, ys: seq<Input>, d: nat)
    requires multiset(xs) == multiset(ys)
    ensures multiset(Accepted(managing, xs, d)) == multiset(Accepted(managing, ys, d))
    decreases |xs|
  {
    hide Accepted;
    if xs == [] {
      assert |multiset(ys)| == 0;
    } else {
      var j := Occurrence(xs[0], ys);
      WithoutOne(xs, 0);
      WithoutOne(ys, j);
      AcceptedOfPermutation(managing, xs[..0] + xs[1..], ys[..j] + ys[j + 1..], d);
      AcceptedWithout(managing, xs, 0, d);
      AcceptedWithout(managing, ys, j, d);
    }
  }

  lemma SmallMultisets<T>(a: seq<T>, b: seq<T>)
    requires |a| <= 1 && multiset(a) == multiset(b)
    ensures a == b
  {
    assert |a| == |multiset(a)| && |b| == |multiset(b)|;
    if a != [] {
      assert a[0] in multiset(b);
    }
  }

  /** A pass in which every disk has at most one accepted line reaches the same state
      under every permutation of its lines. */
  lemma PassOrderIrrelevant(cfg: Config, w: World, xs: seq<Input>, ys: seq<Input>)
    requires ValidWorld(w) && multiset(xs) == multiset(ys)
    requires forall d :: 0 <= d < DISKS ==> |Accepted(cfg.managing, xs, d)| <= 1
    ensures SameOutcome(Run(cfg, w, xs), Run(cfg, w, ys))
  {
    forall d | 0 <= d < DISKS
      ensures Accepted(cfg.managing, xs, d) == Accepted(cfg.managing, ys, d)
    {
      AcceptedOfPermutation(cfg.managing, xs, ys, d);
      SmallMultisets(Accepted(cfg.managing, xs, d), Accepted(cfg.managing, ys, d));
    }
    SameLinesPerDisk(cfg, w, xs, ys);
  }

  lemma {:induction false} NothingAccepted(managing: bv32, xs: seq<Input>, d: nat)
    requires d < DISKS && !IsSet(managing, d)
    ensures Accepted(managing, xs, d) == []
  {
    if xs != [] { NothingAccepted(managing, xs[..|xs| - 1], d); }
  }

  /** A disk that is not managed never leaves its initial state and never changes. */
  lemma UnmanagedUntouched(cfg: Config, xs: seq<Input>, d: nat)
    requires d < DISKS && !IsSet(cfg.managing, d)
    ensures Run(cfg, Start(), xs).disks[d] == INITIAL
    ensures EventsOf(Run(cfg, Start(), xs).log, d) == []
  {
    hide IsSet, Accept;
    NothingAccepted(cfg.managing, xs, d);
    Projection(cfg, Start(), xs, d);
  }
}
