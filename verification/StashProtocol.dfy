/**
 * The stash's lock and its pending flag under concurrency: every read or write of shared state
 * is a step, and threads interleave freely.
 */
module StashProtocol {
  import opened KeventQueue

  /** Where a thread is. Stashing, Stored, Draining and Removing hold the lock. */
  datatype Phase =
    | Idle
    | Stashing(dirty: bool)
    | Stored
    | Draining
    | WantsRemoval
    | Removing

  datatype Shared = Shared(table: seq<Slot>, any: bool, threads: map<nat, Phase>)

  function PhaseOf(s: Shared, t: nat): Phase { if t in s.threads then s.threads[t] else Idle }

  predicate Locked(p: Phase) { p.Stashing? || p.Stored? || p.Draining? || p.Removing? }

  ghost predicate LockFree(s: Shared) { forall t: nat :: !Locked(PhaseOf(s, t)) }

  function Enter(s: Shared, t: nat, p: Phase): Shared { s.(threads := s.threads[t := p]) }

  datatype Step =
    | LockToStash
    | Append(kq: int, evs: seq<Event>)
    | StoreFlag
    | LockToDrain
    | Take(kq: int, max: nat)
    | ClearFlag
    | ReadFlag
    | LockToRemove
    | Erase(kq: int, ident: nat, filter: int)
    | Unlock

  /** Thread t performs one step. */
  ghost predicate Next(s: Shared, r: Shared, t: nat, step: Step) {
    var p := PhaseOf(s, t);
    match step
    case LockToStash => p.Idle? && LockFree(s) && r == Enter(s, t, Stashing(false))
    case Append(kq, evs) =>
      && p.Stashing? && kq != FREE && SlotFor(s.table, kq) < |s.table|
      && r == Enter(s, t, Stashing(true)).(table := Stashed(s.table, kq, evs))
    case StoreFlag => p.Stashing? && r == Enter(s, t, Stored).(any := true)
    case LockToDrain => p.Idle? && LockFree(s) && r == Enter(s, t, Draining)
    case Take(kq, max) => p.Draining? && kq != FREE && r == s.(table := Drained(s.table, kq, max))
    case ClearFlag => p.Draining? && AllEmpty(s.table) && r == s.(any := false)
    case ReadFlag => p.Idle? && r == if s.any then Enter(s, t, WantsRemoval) else s
    case LockToRemove => p.WantsRemoval? && LockFree(s) && r == Enter(s, t, Removing)
    case Erase(kq, ident, filter) =>
      p.Removing? && kq != FREE && r == s.(table := Invalidated(s.table, kq, ident, filter))
    case Unlock => Locked(p) && (p.Stashing? ==> !p.dirty) && r == Enter(s, t, Idle)
  }

  /** A clear flag with something held means a stash is still between append and store. */
  ghost predicate Invariant(s: Shared) {
    && ValidTable(s.table)
    && (forall t: nat, u: nat :: Locked(PhaseOf(s, t)) && Locked(PhaseOf(s, u)) ==> t == u)
    && (!s.any && !AllEmpty(s.table) ==> exists t: nat :: PhaseOf(s, t) == Stashing(true))
  }

  ghost predicate Initial(s: Shared) {
    ValidTable(s.table) && AllEmpty(s.table) && forall t: nat :: PhaseOf(s, t) == Idle
  }

  lemma InitialInvariant(s: Shared)
    requires Initial(s)
    ensures Invariant(s)
  {}

  lemma EnterPhase(s: Shared, t: nat, p: Phase)
    ensures PhaseOf(Enter(s, t, p), t) == p
    ensures forall u: nat :: u != t ==> PhaseOf(Enter(s, t, p), u) == PhaseOf(s, u)
  {}

  lemma TableKept(s: Shared, r: Shared, t: nat, step: Step)
    requires ValidTable(s.table) && Next(s, r, t, step)
    ensures ValidTable(r.table)
    ensures AllEmpty(s.table) && !step.Append? ==> AllEmpty(r.table)
  {
    hide ValidTable, LockFree;
    match step
    case Append(kq, evs) => StashRefines(s.table, kq, evs, kq);
    case Take(kq, max) => DrainRefines(s.table, kq, max, kq);
    case Erase(kq, ident, filter) => InvalidateRefines(s.table, kq, ident, filter, kq);
    case _ =>
  }

  lemma ExclusionKept(s: Shared, r: Shared, t: nat, step: Step)
    requires Invariant(s) && Next(s, r, t, step)
    ensures forall u: nat, v: nat :: Locked(PhaseOf(r, u)) && Locked(PhaseOf(r, v)) ==> u == v
  {
    hide ValidTable, AllEmpty, Stashed, Drained, Invalidated;
    forall u: nat, v: nat | Locked(PhaseOf(r, u)) && Locked(PhaseOf(r, v))
      ensures u == v
    {
      OthersStay(s, r, t, step, u);
      OthersStay(s, r, t, step, v);
      if u != t && v == t { OwnerAlone(s, r, t, step, u); }
      if v != t && u == t { OwnerAlone(s, r, t, step, v); }
    }
  }

  lemma OthersStay(s: Shared, r: Shared, t: nat, step: Step, u: nat)
    requires Next(s, r, t, step)
    ensures u != t ==> PhaseOf(r, u) == PhaseOf(s, u)
  {
    hide AllEmpty, Stashed, Drained, Invalidated, SlotFor;
  }

  /** While another thread holds the lock, this one cannot come to hold it. */
  lemma OwnerAlone(s: Shared, r: Shared, t: nat, step: Step, u: nat)
    requires Invariant(s) && Next(s, r, t, step) && u != t && Locked(PhaseOf(s, u))
    ensures !Locked(PhaseOf(r, t))
  {
    hide ValidTable, AllEmpty, Stashed, Drained, Invalidated, SlotFor;
  }

  lemma StepInvariant(s: Shared, r: Shared, t: nat, step: Step)
    requires Invariant(s) && Next(s, r, t, step)
    ensures Invariant(r)
  {
    TableKept(s, r, t, step);
    ExclusionKept(s, r, t, step);
    FlagKept(s, r, t, step);
  }

  lemma FlagKept(s: Shared, r: Shared, t: nat, step: Step)
    requires Invariant(s) && Next(s, r, t, step)
    ensures !r.any && !AllEmpty(r.table) ==> exists u: nat :: PhaseOf(r, u) == Stashing(true)
  {
    TableKept(s, r, t, step);
    if !r.any && !AllEmpty(r.table) {
      hide ValidTable, AllEmpty, Stashed, Drained, Invalidated, SlotFor;
      if step.Append? {
        assert PhaseOf(r, t) == Stashing(true);
      } else {
        assert !s.any;
        var u: nat :| PhaseOf(s, u) == Stashing(true);
        OthersStay(s, r, t, step, u);
        assert u != t;
      }
    }
  }

  /** A run: who moved, and how. */
  ghost predicate Run(trace: seq<Shared>, moves: seq<(nat, Step)>) {
    && |trace| == |moves| + 1 && Initial(trace[0])
    && forall i :: 0 <= i < |moves| ==> Next(trace[i], trace[i + 1], moves[i].0, moves[i].1)
  }

  lemma {:induction false} RunInvariant(trace: seq<Shared>, moves: seq<(nat, Step)>, i: nat)
    requires Run(trace, moves) && i < |trace|
    ensures Invariant(trace[i])
  {
    hide Invariant, Next, Initial;
    if i == 0 {
      InitialInvariant(trace[0]);
    } else {
      RunInvariant(trace, moves, i - 1);
      StepInvariant(trace[i - 1], trace[i], moves[i - 1].0, moves[i - 1].1);
    }
  }

  /** In every reachable state: the flag clear and the lock free, nothing is held anywhere. */
  lemma ClearMeansEmpty(trace: seq<Shared>, moves: seq<(nat, Step)>, i: nat)
    requires Run(trace, moves) && i < |trace|
    ensures !trace[i].any && LockFree(trace[i]) ==> AllEmpty(trace[i].table)
  {
    hide AllEmpty, ValidTable, Run;
    RunInvariant(trace, moves, i);
  }

  /**
   * An invalidation that skips the lock because the flag is clear misses nothing, unless at
   * that moment another thread holds the lock with an event appended and the flag not yet set.
   */
  lemma SkipMissesNothing(trace: seq<Shared>, moves: seq<(nat, Step)>, i: nat, kq: int, ident: nat, filter: int)
    requires Run(trace, moves) && i < |moves| && moves[i].1.ReadFlag? && !trace[i].any
    ensures trace[i + 1] == trace[i]
    ensures
      || Invalidated(trace[i].table, kq, ident, filter) == trace[i].table
      || exists t: nat :: t != moves[i].0 && PhaseOf(trace[i], t) == Stashing(true)
  {
    RunInvariant(trace, moves, i);
    var s := trace[i];
    assert Next(s, trace[i + 1], moves[i].0, moves[i].1);
    if !AllEmpty(s.table) {
      var t: nat :| PhaseOf(s, t) == Stashing(true);
      assert t != moves[i].0;
    }
  }
}
