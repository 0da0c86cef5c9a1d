/** Accounting of the accel-ppp memory pool under concurrency
    (accel-ppp/patches/035-mempool-modern-atomics.patch).

    Threads interleave two kinds of atomic steps: moving a block or mapping memory, done
    under a lock, and the update of one shared counter, done after the lock is released.
    Between the two a thread owes the counters an update. */
module MemPool {
  datatype Place = Pooled | HandedOut | Gone

  datatype Block = Block(size: nat, place: Place)

  // What a thread is about to do to the counters, in the order of the source.
  datatype Thread =
    | Idle
    | SubAvailable(size: nat)           // mempool_alloc: from the free list or the mapped region
    | AddAllocated(size: nat)           // mempool_alloc: fresh from malloc
    | SubAllocated(size: nat)           // mempool_free with need_free
    | AddAvailable(size: nat)           // mempool_free into the pool
    | CleanAllocated(size: nat)         // mempool_clean: allocated first,
    | CleanAvailable(size: nat)         //   then available
    | GrowAllocated(size: nat)          // mmap_grow: allocated first,
    | GrowAvailable(size: nat)          //   then available

  // The two counters; the bytes mapped and not handed out from there; every block ever
  // made; and what each thread owes.
  datatype State = State(alloc: int, avail: int, room: nat, blocks: seq<Block>, threads: seq<Thread>)

  datatype Action =
    | TakePooled(t: nat, b: nat)
    | TakeMapped(t: nat, size: nat)
    | TakeFresh(t: nat, size: nat)
    | FreeBlock(t: nat, b: nat)
    | FreeToPool(t: nat, b: nat)
    | CleanBlock(t: nat, b: nat)
    | Grow(t: nat, size: nat)
    | Update(t: nat)

  // ---------- Steps ----------

  predicate Enabled(s: State, a: Action) {
    && a.t < |s.threads|
    && (a.Update? <==> s.threads[a.t] != Idle)
    && match a
       case TakePooled(_, b) => b < |s.blocks| && s.blocks[b].place == Pooled
       case CleanBlock(_, b) => b < |s.blocks| && s.blocks[b].place == Pooled
       case FreeBlock(_, b) => b < |s.blocks| && s.blocks[b].place == HandedOut
       case FreeToPool(_, b) => b < |s.blocks| && s.blocks[b].place == HandedOut
       case TakeMapped(_, size) => size <= s.room
       case _ => true
  }

  function Move(blocks: seq<Block>, b: nat, place: Place): seq<Block> {
    if b < |blocks| then blocks[b := blocks[b].(place := place)] else blocks
  }

  function SizeOf(blocks: seq<Block>, b: nat): nat {
    if b < |blocks| then blocks[b].size else 0
  }

  function NextBlocks(blocks: seq<Block>, a: Action): seq<Block> {
    match a
    case TakePooled(_, b) => Move(blocks, b, HandedOut)
    case TakeMapped(_, size) => blocks + [Block(size, HandedOut)]
    case TakeFresh(_, size) => blocks + [Block(size, HandedOut)]
    case FreeBlock(_, b) => Move(blocks, b, Gone)
    case FreeToPool(_, b) => Move(blocks, b, Pooled)
    case CleanBlock(_, b) => Move(blocks, b, Gone)
    case Grow(_, _) => blocks
    case Update(_) => blocks
  }

  function NextRoom(room: nat, a: Action): nat {
    match a
    case Grow(_, size) => room + size
    case TakeMapped(_, size) => if size <= room then room - size else room
    case _ => room
  }

  // Where an action leaves the thread that was at p.
  function NextThread(blocks: seq<Block>, p: Thread, a: Action): Thread {
    match a
    case TakePooled(_, b) => SubAvailable(SizeOf(blocks, b))
    case TakeMapped(_, size) => SubAvailable(size)
    case TakeFresh(_, size) => AddAllocated(size)
    case FreeBlock(_, b) => SubAllocated(SizeOf(blocks, b))
    case FreeToPool(_, b) => AddAvailable(SizeOf(blocks, b))
    case CleanBlock(_, b) => CleanAllocated(SizeOf(blocks, b))
    case Grow(_, size) => GrowAllocated(size)
    case Update(_) =>
      match p
      case CleanAllocated(size) => CleanAvailable(size)
      case GrowAllocated(size) => GrowAvailable(size)
      case _ => Idle
  }

  // The amount the next update of a thread adds to each counter.
  function NowAllocated(p: Thread): int {
    match p
    case AddAllocated(size) => size
    case GrowAllocated(size) => size
    case SubAllocated(size) => -(size as int)
    case CleanAllocated(size) => -(size as int)
    case _ => 0
  }

  function NowAvailable(p: Thread): int {
    match p
    case AddAvailable(size) => size
    case GrowAvailable(size) => size
    case SubAvailable(size) => -(size as int)
    case CleanAvailable(size) => -(size as int)
    case _ => 0
  }

  /** A disabled action changes nothing, so every sequence of actions is a run. */
  function Step(s: State, a: Action): State {
    if !Enabled(s, a) then s
    else
      var p := s.threads[a.t];
      State(if a.Update? then s.alloc + NowAllocated(p) else s.alloc,
            if a.Update? then s.avail + NowAvailable(p) else s.avail,
            NextRoom(s.room, a),
            NextBlocks(s.blocks, a),
            s.threads[a.t := NextThread(s.blocks, p, a)])
  }

  function Run(s: State, actions: seq<Action>): State {
    if actions == [] then s
    else Step(Run(s, actions[..|actions| - 1]), actions[|actions| - 1])
  }

  function Start(n: nat): State {
    State(0, 0, 0, [], seq(n, _ => Idle))
  }

  // ---------- Conservation ----------

  // Everything a thread still owes the counters.
  function OwesAllocated(p: Thread): int { NowAllocated(p) }

  function OwesAvailable(p: Thread): int {
    match p
    case CleanAllocated(size) => -(size as int)
    case GrowAllocated(size) => size
    case _ => NowAvailable(p)
  }

  function SumAllocated(threads: seq<Thread>): int {
    if threads == [] then 0 else OwesAllocated(threads[0]) + SumAllocated(threads[1..])
  }

  function SumAvailable(threads: seq<Thread>): int {
    if threads == [] then 0 else OwesAvailable(threads[0]) + SumAvailable(threads[1..])
  }

  function SizeAt(b: Block, place: Place): nat { if b.place == place then b.size else 0 }

  function BytesAt(blocks: seq<Block>, place: Place): nat {
    if blocks == [] then 0 else SizeAt(blocks[0], place) + BytesAt(blocks[1..], place)
  }

  lemma {:induction false} SumsUpdate(threads: seq<Thread>, t: nat, p: Thread)
    requires t < |threads|
    ensures SumAllocated(threads[t := p]) == SumAllocated(threads) - OwesAllocated(threads[t]) + OwesAllocated(p)
    ensures SumAvailable(threads[t := p]) == SumAvailable(threads) - OwesAvailable(threads[t]) + OwesAvailable(p)
  {
    hide OwesAllocated, OwesAvailable;
    if t == 0 {
      assert threads[t := p][1..] == threads[1..];
    } else {
      assert threads[t := p][1..] == threads[1..][t - 1 := p];
      SumsUpdate(threads[1..], t - 1, p);
    }
  }

  lemma {:induction false} BytesUpdate(blocks: seq<Block>, b: nat, x: Block, place: Place)
    requires b < |blocks|
    ensures BytesAt(blocks[b := x], place) == BytesAt(blocks, place) - SizeAt(blocks[b], place) + SizeAt(x, place)
  {
    if b == 0 {
      assert blocks[b := x][1..] == blocks[1..];
    } else {
      assert blocks[b := x][1..] == blocks[1..][b - 1 := x];
      BytesUpdate(blocks[1..], b - 1, x, place);
    }
  }

  lemma {:induction false} BytesAppend(blocks: seq<Block>, x: Block, place: Place)
    ensures BytesAt(blocks + [x], place) == BytesAt(blocks, place) + SizeAt(x, place)
  {
    if blocks == [] {
      assert blocks + [x] == [x];
    } else {
      assert (blocks + [x])[1..] == blocks[1..] + [x];
      BytesAppend(blocks[1..], x, place);
    }
  }

  ghost predicate Conserved(s: State) {
    (s.alloc + SumAllocated(s.threads)) - (s.avail + SumAvailable(s.threads)) == BytesAt(s.blocks, HandedOut)
  }

  lemma MoveBytes(blocks: seq<Block>, b: nat, to: Place, place: Place)
    requires b < |blocks|
    ensures BytesAt(Move(blocks, b, to), place)
         == BytesAt(blocks, place) - SizeAt(blocks[b], place) + if to == place then blocks[b].size else 0
  {
    BytesUpdate(blocks, b, blocks[b].(place := to), place);
  }

  // The change at one place when size bytes go from one place to another.
  function Shift(size: nat, from: Place, to: Place, place: Place): int {
    (if to == place then size as int else 0) - (if from == place then size as int else 0)
  }

  // What an action does to the bytes at each place.
  function Change(blocks: seq<Block>, a: Action, place: Place): int {
    match a
    case TakePooled(_, b) => Shift(SizeOf(blocks, b), Pooled, HandedOut, place)
    case TakeMapped(_, size) => if place == HandedOut then size else 0
    case TakeFresh(_, size) => if place == HandedOut then size else 0
    case FreeBlock(_, b) => Shift(SizeOf(blocks, b), HandedOut, Gone, place)
    case FreeToPool(_, b) => Shift(SizeOf(blocks, b), HandedOut, Pooled, place)
    case CleanBlock(_, b) => Shift(SizeOf(blocks, b), Pooled, Gone, place)
    case _ => 0
  }

  lemma BlocksStep(s: State, a: Action, place: Place)
    requires Enabled(s, a)
    ensures BytesAt(NextBlocks(s.blocks, a), place) == BytesAt(s.blocks, place) + Change(s.blocks, a, place)
  {
    hide BytesAt, Move;
    match a
    case TakePooled(_, b) => MoveBytes(s.blocks, b, HandedOut, place);
    case TakeMapped(_, size) => BytesAppend(s.blocks, Block(size, HandedOut), place);
    case TakeFresh(_, size) => BytesAppend(s.blocks, Block(size, HandedOut), place);
    case FreeBlock(_, b) => MoveBytes(s.blocks, b, Gone, place);
    case FreeToPool(_, b) => MoveBytes(s.blocks, b, Pooled, place);
    case CleanBlock(_, b) => MoveBytes(s.blocks, b, Gone, place);
    case Grow(_, _) =>
    case Update(_) =>
  }

  lemma StepConserves(s: State, a: Action)
    requires Conserved(s)
    ensures Conserved(Step(s, a))
  {
    hide BytesAt, NextBlocks, SumAllocated, SumAvailable;
    if Enabled(s, a) {
      BlocksStep(s, a, HandedOut);
      SumsUpdate(s.threads, a.t, NextThread(s.blocks, s.threads[a.t], a));
    }
  }

  lemma {:induction false} IdleOwesNothing(threads: seq<Thread>)
    requires forall i :: 0 <= i < |threads| ==> threads[i] == Idle
    ensures SumAllocated(threads) == 0 && SumAvailable(threads) == 0
  {
    if threads != [] { IdleOwesNothing(threads[1..]); }
  }

  ghost predicate Quiet(s: State) { forall i :: 0 <= i < |s.threads| ==> s.threads[i] == Idle }

  /** In every interleaving, bytes allocated minus bytes available is the bytes handed out,
      once the updates still owed are added in. */
  lemma {:induction false} Conservation(n: nat, actions: seq<Action>)
    ensures Conserved(Run(Start(n), actions))
  {
    if actions == [] {
      IdleOwesNothing(Start(n).threads);
    } else {
      Conservation(n, actions[..|actions| - 1]);
      StepConserves(Run(Start(n), actions[..|actions| - 1]), actions[|actions| - 1]);
    }
  }

  /** So the difference of the two counters is right exactly when the updates still owed
      cancel, in particular whenever no operation is in flight. */
  lemma DifferenceExact(n: nat, actions: seq<Action>)
    ensures var s := Run(Start(n), actions);
            && (s.alloc - s.avail == BytesAt(s.blocks, HandedOut)
                <==> SumAllocated(s.threads) == SumAvailable(s.threads))
            && (Quiet(s) ==> s.alloc - s.avail == BytesAt(s.blocks, HandedOut))
  {
    var s := Run(Start(n), actions);
    Conservation(n, actions);
    if Quiet(s) { IdleOwesNothing(s.threads); }
  }

  lemma RunSnoc(s: State, actions: seq<Action>, a: Action)
    ensures Run(s, actions + [a]) == Step(Run(s, actions), a)
  {
    hide Step;
    assert (actions + [a])[..|actions|] == actions;
  }

  lemma RunFive(s: State, a: Action, b: Action, c: Action, d: Action, e: Action)
    ensures Run(s, [a, b, c, d, e]) == Step(Step(Step(Step(Step(s, a), b), c), d), e)
  {
    hide Step;
    RunSnoc(s, [], a);
    RunSnoc(s, [a], b);
    RunSnoc(s, [a, b], c);
    RunSnoc(s, [a, b, c], d);
    RunSnoc(s, [a, b, c, d], e);
    assert [] + [a] == [a] && [a] + [b] == [a, b] && [a, b] + [c] == [a, b, c];
    assert [a, b, c] + [d] == [a, b, c, d] && [a, b, c, d] + [e] == [a, b, c, d, e];
  }

  // Two threads and one block that came from malloc.
  function OneBlock(size: nat, avail: int, place: Place, p: Thread, q: Thread): State {
    State(size, avail, 0, [Block(size, place)], [p, q])
  }

  lemma FreshBlock(size: nat)
    ensures Step(Step(Start(2), TakeFresh(0, size)), Update(0)) == OneBlock(size, 0, HandedOut, Idle, Idle)
  {
    assert Step(Start(2), TakeFresh(0, size))
        == State(0, 0, 0, [Block(size, HandedOut)], [AddAllocated(size), Idle]);
  }

  lemma BlockPooled(size: nat)
    ensures Step(OneBlock(size, 0, HandedOut, Idle, Idle), FreeToPool(0, 0))
         == OneBlock(size, 0, Pooled, AddAvailable(size), Idle)
  {
  }

  lemma BlockTaken(size: nat, p: Thread)
    ensures Step(OneBlock(size, 0, Pooled, p, Idle), TakePooled(1, 0))
         == OneBlock(size, 0, HandedOut, p, SubAvailable(size))
  {
  }

  lemma TakerUpdates(size: nat, p: Thread)
    ensures Step(OneBlock(size, 0, HandedOut, p, SubAvailable(size)), Update(1)).avail == -(size as int)
  {
  }

  /** A counter seen on its own can be off by any size in flight: here the available bytes
      drop below zero while one thread has pooled a block and another has taken it. */
  lemma AvailableBelowZero(size: nat)
    requires size > 0
    ensures var run := [TakeFresh(0, size), Update(0), FreeToPool(0, 0), TakePooled(1, 0), Update(1)];
            Run(Start(2), run).avail == -(size as int)
  {
    hide Step, Run, Start, OneBlock;
    RunFive(Start(2), TakeFresh(0, size), Update(0), FreeToPool(0, 0), TakePooled(1, 0), Update(1));
    FreshBlock(size);
    BlockPooled(size);
    BlockTaken(size, AddAvailable(size));
    TakerUpdates(size, AddAvailable(size));
  }

  // ---------- When the counters change ----------

  /** Moving memory leaves both counters alone; the thread that moved it then makes its
      updates one at a time: one for alloc and free, and for clean and grow the allocated
      counter before the available one. */
  lemma UpdateOrder(s: State, a: Action)
    requires Enabled(s, a) && !a.Update?
    ensures var s1 := Step(s, a); var s2 := Step(s1, Update(a.t)); var s3 := Step(s2, Update(a.t));
            && s1.alloc == s.alloc && s1.avail == s.avail
            && match a
               case TakePooled(t, b) =>
                 s2.alloc == s.alloc && s2.avail == s.avail - s.blocks[b].size && s3 == s2 && s2.threads[t] == Idle
               case TakeMapped(t, size) =>
                 s2.alloc == s.alloc && s2.avail == s.avail - size && s3 == s2 && s2.threads[t] == Idle
               case TakeFresh(t, size) =>
                 s2.alloc == s.alloc + size && s2.avail == s.avail && s3 == s2 && s2.threads[t] == Idle
               case FreeBlock(t, b) =>
                 s2.alloc == s.alloc - s.blocks[b].size && s2.avail == s.avail && s3 == s2 && s2.threads[t] == Idle
               case FreeToPool(t, b) =>
                 s2.alloc == s.alloc && s2.avail == s.avail + s.blocks[b].size && s3 == s2 && s2.threads[t] == Idle
               case CleanBlock(t, b) =>
                 && s2.alloc == s.alloc - s.blocks[b].size && s2.avail == s.avail
                 && s3.alloc == s2.alloc && s3.avail == s.avail - s.blocks[b].size && s3.threads[t] == Idle
               case Grow(t, size) =>
                 && s2.alloc == s.alloc + size && s2.avail == s.avail
                 && s3.alloc == s2.alloc && s3.avail == s.avail + size && s3.threads[t] == Idle
               case Update(t) => true
  {
    hide NextBlocks, NextRoom;
  }

  // ---------- The order of the counter updates does not matter ----------

  // The block movements of a run, without the counter updates.
  function Moves(s: State, actions: seq<Action>): seq<Action> {
    if actions == [] then []
    else
      var n := |actions| - 1;
      var past := Moves(s, actions[..n]);
      if Enabled(Run(s, actions[..n]), actions[n]) && !actions[n].Update? then past + [actions[n]] else past
  }

  datatype Ledger = Ledger(alloc: int, avail: int, blocks: seq<Block>)

  // Every movement with all its counter updates at once, one operation after the other.
  function Settle(moves: seq<Action>): Ledger {
    if moves == [] then Ledger(0, 0, [])
    else
      var l, a := Settle(moves[..|moves| - 1]), moves[|moves| - 1];
      var p := NextThread(l.blocks, Idle, a);
      Ledger(l.alloc + OwesAllocated(p), l.avail + OwesAvailable(p), NextBlocks(l.blocks, a))
  }

  lemma SettleSnoc(moves: seq<Action>, a: Action)
    ensures Settle(moves + [a])
         == var l := Settle(moves);
            var p := NextThread(l.blocks, Idle, a);
            Ledger(l.alloc + OwesAllocated(p), l.avail + OwesAvailable(p), NextBlocks(l.blocks, a))
  {
    assert (moves + [a])[..|moves|] == moves;
  }

  ghost predicate Agrees(s: State, l: Ledger) {
    && s.alloc + SumAllocated(s.threads) == l.alloc
    && s.avail + SumAvailable(s.threads) == l.avail
    && s.blocks == l.blocks
  }

  lemma EnabledThread(s: State, a: Action)
    requires Enabled(s, a)
    ensures a.t < |s.threads| && (a.Update? <==> s.threads[a.t] != Idle)
  {
  }

  lemma KeepsBlocks(blocks: seq<Block>, a: Action)
    ensures a.Update? ==> NextBlocks(blocks, a) == blocks
  {
  }

  lemma UpdateAgrees(s: State, a: Action, l: Ledger)
    requires Enabled(s, a) && a.Update? && Agrees(s, l)
    ensures Agrees(Step(s, a), l)
  {
    hide NextBlocks, SumAllocated, SumAvailable;
    EnabledThread(s, a);
    SumsUpdate(s.threads, a.t, NextThread(s.blocks, s.threads[a.t], a));
    KeepsBlocks(s.blocks, a);
  }

  lemma MoveAgrees(s: State, a: Action, l: Ledger)
    requires Enabled(s, a) && !a.Update? && Agrees(s, l)
    ensures var p := NextThread(l.blocks, Idle, a);
            Agrees(Step(s, a),
                   Ledger(l.alloc + OwesAllocated(p), l.avail + OwesAvailable(p), NextBlocks(l.blocks, a)))
  {
    hide NextBlocks, NextRoom, SumAllocated, SumAvailable;
    EnabledThread(s, a);
    SumsUpdate(s.threads, a.t, NextThread(s.blocks, s.threads[a.t], a));
  }

  // The moves of a run after one more action.
  function WithMove(moves: seq<Action>, a: Action): seq<Action> {
    if a.Update? then moves else moves + [a]
  }

  lemma StepAgrees(s: State, a: Action, moves: seq<Action>)
    requires Enabled(s, a) && Agrees(s, Settle(moves))
    ensures Agrees(Step(s, a), Settle(WithMove(moves, a)))
  {
    hide Enabled, Step, NextBlocks, NextThread, Agrees, Settle;
    if a.Update? {
      UpdateAgrees(s, a, Settle(moves));
    } else {
      MoveAgrees(s, a, Settle(moves));
      SettleSnoc(moves, a);
    }
  }

  lemma DisabledStays(s: State, a: Action)
    requires !Enabled(s, a)
    ensures Step(s, a) == s
  {
  }

  lemma {:induction false} RunSettles(n: nat, actions: seq<Action>)
    ensures Agrees(Run(Start(n), actions), Settle(Moves(Start(n), actions)))
  {
    hide Step, Enabled;
    if actions == [] {
      IdleOwesNothing(Start(n).threads);
    } else {
      hide Agrees, Settle;
      var past, a := actions[..|actions| - 1], actions[|actions| - 1];
      var s := Run(Start(n), past);
      RunSettles(n, past);
      if Enabled(s, a) {
        StepAgrees(s, a, Moves(Start(n), past));
      } else {
        DisabledStays(s, a);
      }
    }
  }

  /** Two runs that move the same blocks in the same order end with the same counters once
      nothing is in flight, however their threads and counter updates were interleaved. */
  lemma InterleavingIrrelevant(n1: nat, run1: seq<Action>, n2: nat, run2: seq<Action>)
    requires Moves(Start(n1), run1) == Moves(Start(n2), run2)
    requires Quiet(Run(Start(n1), run1)) && Quiet(Run(Start(n2), run2))
    ensures Run(Start(n1), run1).alloc == Run(Start(n2), run2).alloc
    ensures Run(Start(n1), run1).avail == Run(Start(n2), run2).avail
    ensures Run(Start(n1), run1).blocks == Run(Start(n2), run2).blocks
  {
    hide Run, Moves, Settle;
    RunSettles(n1, run1);
    RunSettles(n2, run2);
    IdleOwesNothing(Run(Start(n1), run1).threads);
    IdleOwesNothing(Run(Start(n2), run2).threads);
  }

  // ---------- What each counter means ----------

  // Bytes mapped by mmap_grow, handed out of mapped memory, and obtained from malloc.
  function Mapped(moves: seq<Action>): nat {
    if moves == [] then 0
    else Mapped(moves[..|moves| - 1]) + var a := moves[|moves| - 1]; if a.Grow? then a.size else 0
  }

  function Carved(moves: seq<Action>): nat {
    if moves == [] then 0
    else Carved(moves[..|moves| - 1]) + var a := moves[|moves| - 1]; if a.TakeMapped? then a.size else 0
  }

  function Fresh(moves: seq<Action>): nat {
    if moves == [] then 0
    else Fresh(moves[..|moves| - 1]) + var a := moves[|moves| - 1]; if a.TakeFresh? then a.size else 0
  }

  lemma VolumesSnoc(moves: seq<Action>, a: Action)
    ensures Mapped(moves + [a]) == Mapped(moves) + if a.Grow? then a.size else 0
    ensures Carved(moves + [a]) == Carved(moves) + if a.TakeMapped? then a.size else 0
    ensures Fresh(moves + [a]) == Fresh(moves) + if a.TakeFresh? then a.size else 0
  {
    assert (moves + [a])[..|moves|] == moves;
  }

  // Each clause of the account on its own.
  ghost predicate RoomAccount(s: State, moves: seq<Action>) {
    s.room == Mapped(moves) - Carved(moves)
  }

  ghost predicate BlocksAccount(s: State, moves: seq<Action>) {
    BytesAt(s.blocks, HandedOut) + BytesAt(s.blocks, Pooled) + BytesAt(s.blocks, Gone)
    == Carved(moves) + Fresh(moves)
  }

  ghost predicate AllocatedAccount(s: State, moves: seq<Action>) {
    s.alloc + SumAllocated(s.threads) == Mapped(moves) + Fresh(moves) - BytesAt(s.blocks, Gone)
  }

  ghost predicate AvailableAccount(s: State, moves: seq<Action>) {
    s.avail + SumAvailable(s.threads) == Mapped(moves) - Carved(moves) + BytesAt(s.blocks, Pooled)
  }

  ghost predicate Accounted(s: State, moves: seq<Action>) {
    && RoomAccount(s, moves) && BlocksAccount(s, moves)
    && AllocatedAccount(s, moves) && AvailableAccount(s, moves)
  }

  lemma StepRoom(s: State, a: Action, moves: seq<Action>)
    requires Enabled(s, a) && RoomAccount(s, moves)
    ensures RoomAccount(Step(s, a), WithMove(moves, a))
  {
    hide NextBlocks, NextThread, Mapped, Carved, Fresh;
    VolumesSnoc(moves, a);
  }

  lemma StepBlocks(s: State, a: Action, moves: seq<Action>)
    requires Enabled(s, a) && BlocksAccount(s, moves)
    ensures BlocksAccount(Step(s, a), WithMove(moves, a))
  {
    hide BytesAt, NextBlocks, NextThread, NextRoom, Mapped, Carved, Fresh;
    BlocksStep(s, a, HandedOut);
    BlocksStep(s, a, Gone);
    BlocksStep(s, a, Pooled);
    VolumesSnoc(moves, a);
  }

  // What an action does to each counter together with the updates owed to it.
  lemma OwedChange(blocks: seq<Block>, p: Thread, a: Action)
    requires a.Update? <==> p != Idle
    ensures OwesAllocated(NextThread(blocks, p, a)) - OwesAllocated(p) + (if a.Update? then NowAllocated(p) else 0)
         == (if a.Grow? || a.TakeFresh? then a.size as int else 0) - Change(blocks, a, Gone)
    ensures OwesAvailable(NextThread(blocks, p, a)) - OwesAvailable(p) + (if a.Update? then NowAvailable(p) else 0)
         == (if a.Grow? then a.size as int else 0) - (if a.TakeMapped? then a.size as int else 0)
            + Change(blocks, a, Pooled)
  {
    hide SizeOf;
  }

  lemma StepAllocated(s: State, a: Action, moves: seq<Action>)
    requires Enabled(s, a) && AllocatedAccount(s, moves)
    ensures AllocatedAccount(Step(s, a), WithMove(moves, a))
  {
    hide BytesAt, NextBlocks, NextThread, NextRoom, SumAllocated, SumAvailable, Mapped, Carved, Fresh;
    hide OwesAllocated, OwesAvailable, NowAllocated, NowAvailable, Change;
    BlocksStep(s, a, Gone);
    SumsUpdate(s.threads, a.t, NextThread(s.blocks, s.threads[a.t], a));
    OwedChange(s.blocks, s.threads[a.t], a);
    VolumesSnoc(moves, a);
  }

  lemma StepAvailable(s: State, a: Action, moves: seq<Action>)
    requires Enabled(s, a) && AvailableAccount(s, moves)
    ensures AvailableAccount(Step(s, a), WithMove(moves, a))
  {
    hide BytesAt, NextBlocks, NextThread, NextRoom, SumAllocated, SumAvailable, Mapped, Carved, Fresh;
    hide OwesAllocated, OwesAvailable, NowAllocated, NowAvailable, Change;
    BlocksStep(s, a, Pooled);
    SumsUpdate(s.threads, a.t, NextThread(s.blocks, s.threads[a.t], a));
    OwedChange(s.blocks, s.threads[a.t], a);
    VolumesSnoc(moves, a);
  }

  lemma StepAccounts(s: State, a: Action, moves: seq<Action>)
    requires Enabled(s, a) && Accounted(s, moves)
    ensures Accounted(Step(s, a), WithMove(moves, a))
  {
    hide Enabled, Step, WithMove, RoomAccount, BlocksAccount, AllocatedAccount, AvailableAccount;
    StepRoom(s, a, moves);
    StepBlocks(s, a, moves);
    StepAllocated(s, a, moves);
    StepAvailable(s, a, moves);
  }

  lemma {:induction false} RunAccounts(n: nat, actions: seq<Action>)
    ensures Accounted(Run(Start(n), actions), Moves(Start(n), actions))
  {
    hide Step, Enabled;
    if actions == [] {
      IdleOwesNothing(Start(n).threads);
    } else {
      hide Accounted;
      var past, a := actions[..|actions| - 1], actions[|actions| - 1];
      var s := Run(Start(n), past);
      RunAccounts(n, past);
      if Enabled(s, a) {
        StepAccounts(s, a, Moves(Start(n), past));
      } else {
        DisabledStays(s, a);
      }
    }
  }

  /** With nothing in flight, allocated is what was mapped or malloced less what was given
      back to the system, and available is what was mapped and never handed out from there,
      plus what lies in the pools. */
  lemma CountersMean(n: nat, actions: seq<Action>)
    requires Quiet(Run(Start(n), actions))
    ensures var s, moves := Run(Start(n), actions), Moves(Start(n), actions);
            && s.alloc == Mapped(moves) + Fresh(moves) - BytesAt(s.blocks, Gone)
            && s.avail == Mapped(moves) - Carved(moves) + BytesAt(s.blocks, Pooled)
  {
    hide Run, Moves, Mapped, Carved, Fresh, BytesAt;
    RunAccounts(n, actions);
    IdleOwesNothing(Run(Start(n), actions).threads);
  }

  /** A counter is negative exactly while the updates still owed to it outweigh the bytes
      behind it: the mapped and pooled ones for available, those and the ones handed out
      for allocated.  With nothing in flight neither is negative. */
  lemma CounterSigns(n: nat, actions: seq<Action>)
    ensures var s := Run(Start(n), actions);
            && (s.avail >= 0 <==> SumAvailable(s.threads) <= s.room + BytesAt(s.blocks, Pooled))
            && (s.alloc >= 0 <==>
                SumAllocated(s.threads) <= s.room + BytesAt(s.blocks, Pooled) + BytesAt(s.blocks, HandedOut))
            && (Quiet(s) ==> s.avail >= 0 && s.alloc >= 0)
  {
    hide Run, Moves, Mapped, Carved, Fresh, BytesAt;
    var s := Run(Start(n), actions);
    RunAccounts(n, actions);
    if Quiet(s) { IdleOwesNothing(s.threads); }
  }

  // ---------- The operations ----------

  lemma {:induction false} RunAppend(s: State, xs: seq<Action>, ys: seq<Action>)
    ensures Run(s, xs + ys) == Run(Run(s, xs), ys)
    decreases |ys|
  {
    hide Step;
    if ys == [] {
      assert xs + ys == xs;
    } else {
      assert (xs + ys)[..|xs + ys| - 1] == xs + ys[..|ys| - 1];
      RunAppend(s, xs, ys[..|ys| - 1]);
    }
  }

  lemma RunOne(s: State, a: Action)
    ensures Run(s, [a]) == Step(s, a)
  {
    hide Step;
    assert [a][..0] == [];
  }

  lemma {:induction false} RunConserves(s: State, actions: seq<Action>)
    requires Conserved(s)
    ensures Conserved(Run(s, actions))
  {
    hide Step, Conserved;
    if actions != [] {
      RunConserves(s, actions[..|actions| - 1]);
      StepConserves(Run(s, actions[..|actions| - 1]), actions[|actions| - 1]);
    }
  }

  // No action of the thread t.
  ghost predicate Others(t: nat, actions: seq<Action>) {
    forall i :: 0 <= i < |actions| ==> actions[i].t != t
  }

  lemma {:induction false} OthersKeepThread(s: State, t: nat, actions: seq<Action>)
    requires t < |s.threads| && Others(t, actions)
    ensures |Run(s, actions).threads| == |s.threads| && Run(s, actions).threads[t] == s.threads[t]
  {
    hide NextBlocks, NextThread, NextRoom;
    if actions != [] {
      OthersKeepThread(s, t, actions[..|actions| - 1]);
    }
  }

  // A thread moves something, others act, and the thread makes its counter update.
  lemma TwoPhases(s: State, a: Action, meanwhile: seq<Action>)
    ensures Run(s, [a] + meanwhile + [Update(a.t)]) == Step(Run(Step(s, a), meanwhile), Update(a.t))
    ensures Conserved(s) ==> Conserved(Run(s, [a] + meanwhile + [Update(a.t)]))
  {
    hide Step, Conserved;
    RunOne(s, a);
    RunAppend(s, [a], meanwhile);
    RunAppend(s, [a] + meanwhile, [Update(a.t)]);
    RunOne(Run(s, [a] + meanwhile), Update(a.t));
    if Conserved(s) { RunConserves(s, [a] + meanwhile + [Update(a.t)]); }
  }

  // The same with two counter updates.
  lemma ThreePhases(s: State, a: Action, first: seq<Action>, second: seq<Action>)
    ensures Run(s, [a] + first + [Update(a.t)] + second + [Update(a.t)])
         == Step(Run(Step(Run(Step(s, a), first), Update(a.t)), second), Update(a.t))
    ensures Conserved(s) ==> Conserved(Run(s, [a] + first + [Update(a.t)] + second + [Update(a.t)]))
  {
    hide Step, Conserved;
    TwoPhases(s, a, first);
    var done := [a] + first + [Update(a.t)];
    RunAppend(s, done, second);
    RunAppend(s, done + second, [Update(a.t)]);
    RunOne(Run(s, done + second), Update(a.t));
    if Conserved(s) { RunConserves(s, done + second + [Update(a.t)]); }
  }

  // Where mempool_alloc finds a block.
  datatype Source = FromPool(b: nat) | FromRegion(size: nat) | FromMalloc(size: nat)

  function Taking(t: nat, source: Source): Action {
    match source
    case FromPool(b) => TakePooled(t, b)
    case FromRegion(size) => TakeMapped(t, size)
    case FromMalloc(size) => TakeFresh(t, size)
  }

  // ---------- The shared state ----------

  lemma RunNothing(s: State)
    ensures Run(s, []) == s
  {
  }

  // A turn of the loop of mempool_clean, with what other threads do before and between
  // its counter updates.
  datatype Turn = Turn(b: nat, first: seq<Action>, second: seq<Action>)

  ghost predicate Listed(s: State, b: nat) { b < |s.blocks| && s.blocks[b].place == Pooled }

  function TurnActions(t: nat, turn: Turn): seq<Action> {
    [CleanBlock(t, turn.b)] + turn.first + [Update(t)] + turn.second + [Update(t)]
  }

  function Cleaning(t: nat, turns: seq<Turn>): seq<Action> {
    if turns == [] then [] else Cleaning(t, turns[..|turns| - 1]) + TurnActions(t, turns[|turns| - 1])
  }

  lemma NoTurns(t: nat)
    ensures Cleaning(t, []) == []
  {
  }

  lemma TurnRuns(s: State, t: nat, turns: seq<Turn>, i: nat)
    requires i < |turns|
    ensures Run(s, Cleaning(t, turns[..i + 1]))
         == Run(Run(s, Cleaning(t, turns[..i])), TurnActions(t, turns[i]))
  {
    hide Run, TurnActions;
    assert turns[..i + 1][..i] == turns[..i];
    RunAppend(s, Cleaning(t, turns[..i]), TurnActions(t, turns[i]));
  }

  /** The shared counters and memory.  Each operation takes the actions that other threads
      perform between its phases as a parameter. */
  class Pool {
    // triton_stat.mempool_allocated and mempool_available
    var mempoolAllocated: int
    var mempoolAvailable: int
    var room: nat
    var blocks: seq<Block>
    var threads: seq<Thread>

    function View(): State
      reads this
    {
      State(mempoolAllocated, mempoolAvailable, room, blocks, threads)
    }

    constructor (n: nat)
      ensures View() == Start(n)
    {
      mempoolAllocated, mempoolAvailable, room, blocks, threads := 0, 0, 0, [], seq(n, _ => Idle);
    }

    // The atomic additions and subtractions on the counters.
    method UpdateCounter(t: nat)
      requires Enabled(View(), Update(t))
      modifies this
      ensures View() == Step(old(View()), Update(t))
    {
      var next := Idle;
      match threads[t] {
        case SubAvailable(size) => mempoolAvailable := mempoolAvailable - size;
        case AddAllocated(size) => mempoolAllocated := mempoolAllocated + size;
        case SubAllocated(size) => mempoolAllocated := mempoolAllocated - size;
        case AddAvailable(size) => mempoolAvailable := mempoolAvailable + size;
        case CleanAllocated(size) => mempoolAllocated := mempoolAllocated - size; next := CleanAvailable(size);
        case CleanAvailable(size) => mempoolAvailable := mempoolAvailable - size;
        case GrowAllocated(size) => mempoolAllocated := mempoolAllocated + size; next := GrowAvailable(size);
        case GrowAvailable(size) => mempoolAvailable := mempoolAvailable + size;
      }
      threads := threads[t := next];
    }

    // The movements done under a lock.
    method MoveBlock(t: nat, b: nat, place: Place, owes: Thread)
      requires t < |threads| && b < |blocks|
      modifies this`blocks, this`threads
      ensures blocks == old(blocks)[b := Block(old(blocks)[b].size, place)]
      ensures threads == old(threads)[t := owes]
    {
      blocks := blocks[b := Block(blocks[b].size, place)];
      threads := threads[t := owes];
    }

    method Perform(a: Action)
      modifies this
      ensures View() == Step(old(View()), a)
    {
      if !Enabled(View(), a) { return; }
      match a {
        case Update(t) => UpdateCounter(t);
        case TakePooled(t, b) => MoveBlock(t, b, HandedOut, SubAvailable(blocks[b].size));
        case FreeBlock(t, b) => MoveBlock(t, b, Gone, SubAllocated(blocks[b].size));
        case FreeToPool(t, b) => MoveBlock(t, b, Pooled, AddAvailable(blocks[b].size));
        case CleanBlock(t, b) => MoveBlock(t, b, Gone, CleanAllocated(blocks[b].size));
        case TakeMapped(t, size) =>
          room := room - size;
          blocks := blocks + [Block(size, HandedOut)];
          threads := threads[t := SubAvailable(size)];
        case TakeFresh(t, size) =>
          blocks := blocks + [Block(size, HandedOut)];
          threads := threads[t := AddAllocated(size)];
        case Grow(t, size) =>
          room := room + size;
          threads := threads[t := GrowAllocated(size)];
      }
    }

    /** Any schedule. */
    method Execute(actions: seq<Action>)
      modifies this
      ensures View() == Run(old(View()), actions)
    {
      for i := 0 to |actions|
        invariant View() == Run(old(View()), actions[..i])
      {
        assert actions[..i + 1][..i] == actions[..i];
        Perform(actions[i]);
      }
      assert actions[..|actions|] == actions;
    }

    /** mempool_alloc: take a block, release the lock, then update one counter. */
    method MempoolAlloc(t: nat, source: Source, meanwhile: seq<Action>)
      requires t < |threads| && threads[t] == Idle && Others(t, meanwhile)
      requires match source
               case FromPool(b) => Listed(View(), b)
               case FromRegion(size) => size <= room
               case FromMalloc(_) => true
      modifies this
      ensures View() == Run(old(View()), [Taking(t, source)] + meanwhile + [Update(t)])
      ensures t < |threads| && threads[t] == Idle
      ensures old(Conserved(View())) ==> Conserved(View())
      ensures meanwhile == [] ==>
                match source
                case FromPool(b) =>
                  && mempoolAvailable == old(mempoolAvailable - blocks[b].size)
                  && mempoolAllocated == old(mempoolAllocated)
                case FromRegion(size) =>
                  mempoolAvailable == old(mempoolAvailable) - size && mempoolAllocated == old(mempoolAllocated)
                case FromMalloc(size) =>
                  mempoolAvailable == old(mempoolAvailable) && mempoolAllocated == old(mempoolAllocated) + size
    {
      hide Conserved, Run;
      ghost var s := View();
      TwoPhases(s, Taking(t, source), meanwhile);
      match source {
        case FromPool(b) =>
          MoveBlock(t, b, HandedOut, SubAvailable(blocks[b].size));
        case FromRegion(size) =>
          room := room - size;
          blocks := blocks + [Block(size, HandedOut)];
          threads := threads[t := SubAvailable(size)];
        case FromMalloc(size) =>
          blocks := blocks + [Block(size, HandedOut)];
          threads := threads[t := AddAllocated(size)];
      }
      assert View() == Step(s, Taking(t, source));
      RunNothing(View());
      OthersKeepThread(View(), t, meanwhile);
      Execute(meanwhile);
      UpdateCounter(t);
    }

    /** mempool_free: give the block back to the system or list it, then update one counter. */
    method MempoolFree(t: nat, b: nat, needFree: bool, meanwhile: seq<Action>)
      requires t < |threads| && threads[t] == Idle && b < |blocks| && blocks[b].place == HandedOut
      requires Others(t, meanwhile)
      modifies this
      ensures var a := if needFree then FreeBlock(t, b) else FreeToPool(t, b);
              View() == Run(old(View()), [a] + meanwhile + [Update(t)])
      ensures t < |threads| && threads[t] == Idle
      ensures old(Conserved(View())) ==> Conserved(View())
      ensures meanwhile == [] ==>
                && mempoolAllocated == old(mempoolAllocated - if needFree then blocks[b].size else 0)
                && mempoolAvailable == old(mempoolAvailable + if needFree then 0 else blocks[b].size)
                && BytesAt(blocks, HandedOut) == old(BytesAt(blocks, HandedOut) - blocks[b].size)
    {
      hide Conserved, Run, BytesAt;
      ghost var s := View();
      ghost var a := if needFree then FreeBlock(t, b) else FreeToPool(t, b);
      TwoPhases(s, a, meanwhile);
      MoveBytes(blocks, b, if needFree then Gone else Pooled, HandedOut);
      if needFree {
        MoveBlock(t, b, Gone, SubAllocated(blocks[b].size));
      } else {
        MoveBlock(t, b, Pooled, AddAvailable(blocks[b].size));
      }
      assert View() == Step(s, a);
      RunNothing(View());
      OthersKeepThread(View(), t, meanwhile);
      Execute(meanwhile);
      UpdateCounter(t);
    }

    // The two counter updates of mempool_clean and mmap_grow.
    method FinishTwo(t: nat, first: seq<Action>, second: seq<Action>)
      requires t < |threads| && (threads[t].CleanAllocated? || threads[t].GrowAllocated?)
      requires Others(t, first) && Others(t, second)
      modifies this
      ensures View() == Step(Run(Step(Run(old(View()), first), Update(t)), second), Update(t))
      ensures t < |threads| && threads[t] == Idle
      ensures first == second == [] ==>
                && mempoolAllocated == old(mempoolAllocated + NowAllocated(threads[t]))
                && mempoolAvailable == old(mempoolAvailable + OwesAvailable(threads[t]))
                && room == old(room) && blocks == old(blocks)
    {
      hide Run;
      RunNothing(View());
      OthersKeepThread(View(), t, first);
      Execute(first);
      UpdateCounter(t);
      RunNothing(View());
      OthersKeepThread(View(), t, second);
      Execute(second);
      UpdateCounter(t);
    }

    // One turn of the loop of mempool_clean: give a listed block back, then lower both
    // counters.
    method CleanListed(t: nat, b: nat, first: seq<Action>, second: seq<Action>)
      requires t < |threads| && threads[t] == Idle && Listed(View(), b)
      requires Others(t, first) && Others(t, second)
      modifies this
      ensures View() == Run(old(View()), [CleanBlock(t, b)] + first + [Update(t)] + second + [Update(t)])
      ensures t < |threads| && threads[t] == Idle
      ensures old(Conserved(View())) ==> Conserved(View())
      ensures first == second == [] ==>
                && mempoolAllocated == old(mempoolAllocated - blocks[b].size)
                && mempoolAvailable == old(mempoolAvailable - blocks[b].size)
                && BytesAt(blocks, HandedOut) == old(BytesAt(blocks, HandedOut))
                && BytesAt(blocks, Pooled) == old(BytesAt(blocks, Pooled) - blocks[b].size)
    {
      hide Conserved, Run, BytesAt;
      ghost var s := View();
      ThreePhases(s, CleanBlock(t, b), first, second);
      MoveBytes(blocks, b, Gone, HandedOut);
      MoveBytes(blocks, b, Gone, Pooled);
      MoveBlock(t, b, Gone, CleanAllocated(blocks[b].size));
      assert View() == Step(s, CleanBlock(t, b));
      FinishTwo(t, first, second);
    }

    /** mempool_clean: as many listed blocks as its loop finds, one after the other.  Alone,
        it lowers both counters by the bytes that leave the pools. */
    method MempoolClean(t: nat, turns: seq<Turn>)
      requires t < |threads| && threads[t] == Idle
      requires forall i :: 0 <= i < |turns| ==> Others(t, turns[i].first) && Others(t, turns[i].second)
      requires forall i :: 0 <= i < |turns| ==> Listed(Run(View(), Cleaning(t, turns[..i])), turns[i].b)
      modifies this
      ensures View() == Run(old(View()), Cleaning(t, turns))
      ensures t < |threads| && threads[t] == Idle
      ensures old(Conserved(View())) ==> Conserved(View())
      ensures (forall i :: 0 <= i < |turns| ==> turns[i].first == turns[i].second == []) ==>
                && mempoolAllocated == old(mempoolAllocated - BytesAt(blocks, Pooled)) + BytesAt(blocks, Pooled)
                && mempoolAvailable == old(mempoolAvailable - BytesAt(blocks, Pooled)) + BytesAt(blocks, Pooled)
                && BytesAt(blocks, HandedOut) == old(BytesAt(blocks, HandedOut))
    {
      hide Conserved, Run, BytesAt, Listed, Others, Cleaning;
      ghost var s := View();
      RunNothing(s);
      NoTurns(t);
      assert turns[..0] == [];
      var i := 0;
      while i < |turns|
        invariant 0 <= i <= |turns|
        invariant View() == Run(s, Cleaning(t, turns[..i]))
        invariant t < |threads| && threads[t] == Idle
        invariant Conserved(s) ==> Conserved(View())
        invariant (forall k :: 0 <= k < |turns| ==> turns[k].first == turns[k].second == []) ==>
                    && mempoolAllocated == s.alloc - BytesAt(s.blocks, Pooled) + BytesAt(blocks, Pooled)
                    && mempoolAvailable == s.avail - BytesAt(s.blocks, Pooled) + BytesAt(blocks, Pooled)
                    && BytesAt(blocks, HandedOut) == BytesAt(s.blocks, HandedOut)
      {
        TurnRuns(s, t, turns, i);
        CleanListed(t, turns[i].b, turns[i].first, turns[i].second);
        i := i + 1;
      }
      assert turns[..|turns|] == turns;
    }

    /** mmap_grow: new mapped memory, then raise both counters. */
    method MmapGrow(t: nat, size: nat, first: seq<Action>, second: seq<Action>)
      requires t < |threads| && threads[t] == Idle && Others(t, first) && Others(t, second)
      modifies this
      ensures View() == Run(old(View()), [Grow(t, size)] + first + [Update(t)] + second + [Update(t)])
      ensures t < |threads| && threads[t] == Idle
      ensures old(Conserved(View())) ==> Conserved(View())
      ensures first == second == [] ==>
                && mempoolAllocated == old(mempoolAllocated) + size
                && mempoolAvailable == old(mempoolAvailable) + size
                && room == old(room) + size && blocks == old(blocks)
    {
      hide Conserved, Run;
      ghost var s := View();
      ThreePhases(s, Grow(t, size), first, second);
      room := room + size;
      threads := threads[t := GrowAllocated(size)];
      assert View() == Step(s, Grow(t, size));
      FinishTwo(t, first, second);
    }
  }
}
