/** Connection slots. */
module ConnBudget {
  /* Slots are counted by one atomic number. Tasks interleave between any two of their loads,
   compare-exchanges and updates; a slot won but not yet wrapped, or a lease being resized, is a state. */

  import opened Common

  const DEFAULT_CONNECTION_LIMIT: nat := 400
  const METADATA_RESERVE_MIN: nat := 8

  /** Slots kept for metadata fetches: a fiftieth of the limit, at least 8, at most a quarter. */
  function Reserve(limit: nat): (r: nat)
    ensures r <= limit / 4
    ensures limit >= 32 ==> r >= 8
    ensures 32 <= limit < 450 ==> r == 8
    ensures limit >= 400 ==> r == limit / 50
    ensures limit < 32 ==> r == limit / 4
  {
    Min(Max(METADATA_RESERVE_MIN, limit / 50), limit / 4)
  }

  function TorrentCap(limit: nat): nat { limit - Reserve(limit) }

  /** The limit asked for, or 400, within half of the open-file limit, and never zero. */
  function ResolveLimit(requested: Option<nat>, nofile: Option<nat>): (limit: nat)
    ensures limit >= 1
    ensures nofile.Some? && nofile.value >= 2 ==> limit <= nofile.value / 2
    ensures nofile.None? && requested.Some? && requested.value >= 1 ==> limit == requested.value
    ensures nofile.None? && requested.None? ==> limit == 400
    ensures nofile.Some? ==>
              var wanted := if requested.Some? then requested.value else 400;
              limit == (if wanted <= nofile.value / 2 then wanted else nofile.value / 2) || limit == 1
  {
    var wanted := if requested.Some? then requested.value else DEFAULT_CONNECTION_LIMIT;
    Max(if nofile.Some? then Min(wanted, nofile.value / 2) else wanted, 1)
  }

  /** Where a task stands in `try_acquire` (a guard), `try_reserve` (its lease) or `sync`. */
  datatype Phase =
    | Idle
    | Capped(lease: bool, cap: nat)
    | Trying(lease: bool, cap: nat, current: nat)
    | Won(lease: bool)
    | Synced(target: nat)

  datatype Task = Task(guards: nat, held: nat, phase: Phase)

  datatype Budget = Budget(limit: nat, used: nat, tasks: seq<Task>)

  datatype Step =
    | Join
    | ReadCap(t: nat, lease: bool)
    | ReadUsed(t: nat)
    | GiveUp(t: nat)
    | CompareExchange(t: nat, spurious: bool)
    | Wrap(t: nat)
    | DropGuard(t: nat)
    | Sync(t: nat, target: nat)
    | EndSync(t: nat)
    | SetLimit(limit: nat)

  predicate Enabled(b: Budget, s: Step) {
    match s
    case Join => true
    case SetLimit(_) => true
    case ReadCap(t, _) => t < |b.tasks| && b.tasks[t].phase.Idle?
    case ReadUsed(t) => t < |b.tasks| && b.tasks[t].phase.Capped?
    case GiveUp(t) => t < |b.tasks| && b.tasks[t].phase.Trying? && b.tasks[t].phase.current >= b.tasks[t].phase.cap
    case CompareExchange(t, _) =>
      t < |b.tasks| && b.tasks[t].phase.Trying? && b.tasks[t].phase.current < b.tasks[t].phase.cap
    case Wrap(t) => t < |b.tasks| && b.tasks[t].phase.Won?
    case DropGuard(t) => t < |b.tasks| && b.tasks[t].phase.Idle? && b.tasks[t].guards > 0
    case Sync(t, _) => t < |b.tasks| && b.tasks[t].phase.Idle?
    case EndSync(t) => t < |b.tasks| && b.tasks[t].phase.Synced?
  }

  function With(b: Budget, t: nat, used: int, task: Task): Budget
    requires t < |b.tasks|
  {
    b.(used := Max(0, used), tasks := b.tasks[t := task])
  }

  function Apply(b: Budget, s: Step): Budget
    requires Enabled(b, s)
  {
    match s
    case Join => b.(tasks := b.tasks + [Task(0, 0, Idle)])
    case SetLimit(n) => b.(limit := Max(n, 1))
    case ReadCap(t, lease) =>
      With(b, t, b.used, b.tasks[t].(phase := Capped(lease, if lease then TorrentCap(b.limit) else b.limit)))
    case ReadUsed(t) =>
      With(b, t, b.used, b.tasks[t].(phase := Trying(b.tasks[t].phase.lease, b.tasks[t].phase.cap, b.used)))
    case GiveUp(t) => With(b, t, b.used, b.tasks[t].(phase := Idle))
    case CompareExchange(t, spurious) =>
      var p := b.tasks[t].phase;
      if b.used == p.current && !spurious then With(b, t, b.used + 1, b.tasks[t].(phase := Won(p.lease)))
      else With(b, t, b.used, b.tasks[t].(phase := p.(current := b.used)))
    case Wrap(t) =>
      var x := b.tasks[t];
      With(b, t, b.used, if x.phase.lease then Task(x.guards, x.held + 1, Idle) else Task(x.guards + 1, x.held, Idle))
    case DropGuard(t) => With(b, t, b.used - 1, b.tasks[t].(guards := b.tasks[t].guards - 1))
    case Sync(t, target) => With(b, t, b.used + target - b.tasks[t].held, b.tasks[t].(phase := Synced(target)))
    case EndSync(t) => With(b, t, b.used, b.tasks[t].(held := b.tasks[t].phase.target, phase := Idle))
  }

  // ----- what tasks hold -----

  /** Slots a task's lease stands for, one just won and a new size just announced included. */
  function Leased(x: Task): nat {
    if x.phase.Synced? then x.phase.target
    else x.held + if x.phase.Won? && x.phase.lease then 1 else 0
  }

  function Guarded(x: Task): nat { x.guards + if x.phase.Won? && !x.phase.lease then 1 else 0 }

  function LeasedAll(tasks: seq<Task>): nat {
    if tasks == [] then 0 else LeasedAll(tasks[..|tasks| - 1]) + Leased(tasks[|tasks| - 1])
  }

  function GuardedAll(tasks: seq<Task>): nat {
    if tasks == [] then 0 else GuardedAll(tasks[..|tasks| - 1]) + Guarded(tasks[|tasks| - 1])
  }

  lemma {:induction false} OneChanged(tasks: seq<Task>, t: nat, x: Task)
    requires t < |tasks|
    ensures LeasedAll(tasks[t := x]) == LeasedAll(tasks) - Leased(tasks[t]) + Leased(x)
    ensures GuardedAll(tasks[t := x]) == GuardedAll(tasks) - Guarded(tasks[t]) + Guarded(x)
    ensures Leased(tasks[t]) <= LeasedAll(tasks) && Guarded(tasks[t]) <= GuardedAll(tasks)
  {
    var n := |tasks| - 1;
    if t < n {
      OneChanged(tasks[..n], t, x);
      assert tasks[t := x][..n] == tasks[..n][t := x];
    } else {
      assert tasks[t := x][..n] == tasks[..n];
    }
  }

  /** The counter is what guards and leases hold together. */
  predicate Counted(b: Budget) { b.used == GuardedAll(b.tasks) + LeasedAll(b.tasks) }

  lemma StepCounts(b: Budget, s: Step)
    requires Counted(b) && Enabled(b, s)
    ensures Counted(Apply(b, s))
    ensures s.Sync? ==> Apply(b, s).used == b.used + s.target - b.tasks[s.t].held
    ensures s.DropGuard? ==> Apply(b, s).used == b.used - 1
  {
    hide LeasedAll, GuardedAll;
    if s.Join? {
      OneMore(b.tasks);
    } else if !s.SetLimit? {
      OneChanged(b.tasks, s.t, Apply(b, s).tasks[s.t]);
    }
  }

  /** No task is ever stuck: whatever it is doing it can go on with, an idle one may begin anything or drop
      a guard it holds, tasks may join, and the limit may be set, to one at least. */
  lemma NeverStuck(b: Budget, t: nat, target: nat, n: nat)
    requires t < |b.tasks|
    ensures var x := b.tasks[t];
            match x.phase
            case Idle =>
              && Enabled(b, ReadCap(t, true)) && Enabled(b, ReadCap(t, false)) && Enabled(b, Sync(t, target))
              && (x.guards >= 1 <==> Enabled(b, DropGuard(t)))
            case Capped(_, _) => Enabled(b, ReadUsed(t))
            case Trying(_, _, _) => Enabled(b, GiveUp(t)) != Enabled(b, CompareExchange(t, false))
            case Won(_) => Enabled(b, Wrap(t))
            case Synced(_) => Enabled(b, EndSync(t))
    ensures Enabled(b, Join) && Apply(b, Join).tasks == b.tasks + [Task(0, 0, Idle)]
    ensures Enabled(b, SetLimit(n)) && Apply(b, SetLimit(n)) == b.(limit := if n == 0 then 1 else n)
  {
  }

  /** What a step leaves its own task with; a loop that lost a race goes on from the value it saw. */
  lemma StepLeaves(b: Budget, t: nat, s: Step)
    requires t < |b.tasks| && Enabled(b, s)
    ensures var x, c := b.tasks[t], Apply(b, s);
            && |c.tasks| >= |b.tasks|
            && (s == GiveUp(t) || s == EndSync(t) || s == Wrap(t) ==> c.tasks[t].phase == Idle && c.used == b.used)
            && (s == GiveUp(t) ==> c.tasks[t] == x.(phase := Idle))
            && (s.CompareExchange? && s.t == t ==>
                  var won := b.used == x.phase.current && !s.spurious;
                  && c.used == (if won then b.used + 1 else b.used)
                  && c.tasks[t].phase == if won then Won(x.phase.lease) else x.phase.(current := b.used))
            && (s == EndSync(t) ==> c.tasks[t].held == x.phase.target && c.tasks[t].guards == x.guards)
    ensures forall u | 0 <= u < |b.tasks| && !s.Join? && !s.SetLimit? && u != s.t ::
              Apply(b, s).tasks[u] == b.tasks[u]
  {
  }

  lemma OneMore(tasks: seq<Task>)
    ensures LeasedAll(tasks + [Task(0, 0, Idle)]) == LeasedAll(tasks)
    ensures GuardedAll(tasks + [Task(0, 0, Idle)]) == GuardedAll(tasks)
  {
    assert (tasks + [Task(0, 0, Idle)])[..|tasks|] == tasks;
  }

  ghost predicate Next(b: Budget, s: Step, c: Budget) { Enabled(b, s) && c == Apply(b, s) }

  ghost predicate Run(bs: seq<Budget>, ss: seq<Step>, limit: nat) {
    && |bs| == |ss| + 1 && bs[0] == Budget(limit, 0, [])
    && forall i | 0 <= i < |ss| :: Next(bs[i], ss[i], bs[i + 1])
  }

  /** In every interleaving the counter is exactly the live guards and the lease holdings. */
  lemma {:induction false} AlwaysCounted(bs: seq<Budget>, ss: seq<Step>, limit: nat, i: nat)
    requires Run(bs, ss, limit) && i < |bs|
    ensures bs[i].used == GuardedAll(bs[i].tasks) + LeasedAll(bs[i].tasks)
  {
    if i == 0 {
    } else {
      AlwaysCounted(bs, ss, limit, i - 1);
      assert Next(bs[i - 1], ss[i - 1], bs[i]);
      StepCounts(bs[i - 1], ss[i - 1]);
    }
  }

  // ----- staying within the limit, and keeping the reserve -----

  /** What a resize checks before it adds: that the counter stays within the limit. */
  predicate FitsLimit(b: Budget, s: Step, limit: nat) {
    s.Sync? && s.t < |b.tasks| ==> b.used + s.target - b.tasks[s.t].held <= limit
  }

  /** And that the leases together stay within what torrents may take. */
  predicate FitsTorrents(b: Budget, s: Step, limit: nat) {
    s.Sync? && s.t < |b.tasks| ==> LeasedAll(b.tasks) + s.target - b.tasks[s.t].held <= TorrentCap(limit)
  }

  /** One look at the counter before adding would settle both. */
  lemma OneLookIsEnough(b: Budget, s: Step, limit: nat)
    requires Counted(b) && s.Sync? && s.t < |b.tasks|
    requires b.used + s.target - b.tasks[s.t].held <= TorrentCap(limit)
    ensures FitsLimit(b, s, limit) && FitsTorrents(b, s, limit)
  {
  }

  /** Caps in use were read while the limit was `limit`. */
  predicate CapRead(x: Task, limit: nat) {
    x.phase.Capped? || x.phase.Trying? ==> x.phase.cap == if x.phase.lease then TorrentCap(limit) else limit
  }

  predicate Read(b: Budget, limit: nat) {
    b.limit == limit && Counted(b) && forall t | 0 <= t < |b.tasks| :: CapRead(b.tasks[t], limit)
  }

  lemma StepReads(b: Budget, s: Step, limit: nat)
    requires Read(b, limit) && Enabled(b, s) && !s.SetLimit?
    ensures Read(Apply(b, s), limit)
  {
    StepCounts(b, s);
    hide TorrentCap, Counted, LeasedAll, GuardedAll;
    var c := Apply(b, s);
    forall t | 0 <= t < |c.tasks|
      ensures CapRead(c.tasks[t], limit)
    {
      assert t < |b.tasks| ==> CapRead(b.tasks[t], limit);
    }
  }

  /** Nothing but a resize can carry the counter past the limit, or the leases past the torrents' part. */
  lemma BoundsStay(b: Budget, s: Step, limit: nat)
    requires Read(b, limit) && Enabled(b, s) && !s.SetLimit?
    ensures b.used <= limit && FitsLimit(b, s, limit) ==> Apply(b, s).used <= limit
    ensures LeasedAll(b.tasks) <= TorrentCap(limit) && FitsTorrents(b, s, limit) ==>
              LeasedAll(Apply(b, s).tasks) <= TorrentCap(limit)
    ensures s.Sync? ==>
              && Apply(b, s).used == b.used + s.target - b.tasks[s.t].held
              && LeasedAll(Apply(b, s).tasks) == LeasedAll(b.tasks) + s.target - b.tasks[s.t].held
  {
    StepCounts(b, s);
    hide LeasedAll, GuardedAll;
    if s.Join? {
      OneMore(b.tasks);
    } else {
      OneChanged(b.tasks, s.t, Apply(b, s).tasks[s.t]);
      assert CapRead(b.tasks[s.t], limit);
    }
  }

  /** A run in which the limit is never changed. */
  ghost predicate FixedRun(bs: seq<Budget>, ss: seq<Step>, limit: nat) {
    Run(bs, ss, limit) && forall i | 0 <= i < |ss| :: !ss[i].SetLimit?
  }

  lemma {:induction false} AlwaysRead(bs: seq<Budget>, ss: seq<Step>, limit: nat, i: nat)
    requires FixedRun(bs, ss, limit) && i < |bs|
    ensures Read(bs[i], limit)
  {
    if i == 0 {
    } else {
      AlwaysRead(bs, ss, limit, i - 1);
      assert Next(bs[i - 1], ss[i - 1], bs[i]);
      StepReads(bs[i - 1], ss[i - 1], limit);
    }
  }

  /** While the resizes up to a point fit, so do the counter and the leases at that point. */
  lemma {:induction false} FitUpTo(bs: seq<Budget>, ss: seq<Step>, limit: nat, i: nat)
    requires FixedRun(bs, ss, limit) && i < |bs|
    ensures (forall j | 0 <= j < i :: FitsLimit(bs[j], ss[j], limit)) ==> bs[i].used <= limit
    ensures (forall j | 0 <= j < i :: FitsTorrents(bs[j], ss[j], limit)) ==> LeasedAll(bs[i].tasks) <= TorrentCap(limit)
  {
    hide Apply, Enabled, FitsLimit, FitsTorrents, Read, TorrentCap;
    if i == 0 {
      assert LeasedAll([]) == 0;
    } else {
      hide LeasedAll;
      FitUpTo(bs, ss, limit, i - 1);
      AlwaysRead(bs, ss, limit, i - 1);
      assert Next(bs[i - 1], ss[i - 1], bs[i]);
      BoundsStay(bs[i - 1], ss[i - 1], limit);
    }
  }

  /** With a fixed limit, the counter stays within it throughout a run exactly when every `sync` of the
      run, before it adds, finds that it does. */
  lemma LimitKeptExactly(bs: seq<Budget>, ss: seq<Step>, limit: nat)
    requires FixedRun(bs, ss, limit)
    ensures (forall i | 0 <= i < |bs| :: bs[i].used <= limit)
       <==> (forall i | 0 <= i < |ss| :: FitsLimit(bs[i], ss[i], limit))
  {
    forall i | 0 <= i < |ss|
      ensures bs[i + 1].used <= limit ==> FitsLimit(bs[i], ss[i], limit)
    {
      AlwaysRead(bs, ss, limit, i);
      assert Next(bs[i], ss[i], bs[i + 1]);
      BoundsStay(bs[i], ss[i], limit);
    }
    forall i | 0 <= i < |bs|
      ensures (forall j | 0 <= j < i :: FitsLimit(bs[j], ss[j], limit)) ==> bs[i].used <= limit
    {
      FitUpTo(bs, ss, limit, i);
    }
    hide FitsLimit;
    if forall i | 0 <= i < |bs| :: bs[i].used <= limit {
      forall i | 0 <= i < |ss|
        ensures FitsLimit(bs[i], ss[i], limit)
      {
        var next := i + 1;
        assert bs[next].used <= limit;
      }
    }
  }

  /** However many guards fewer than the reserve are out, a slot is free. */
  ghost predicate ReserveFree(b: Budget, limit: nat) {
    forall guards: nat | guards < Reserve(limit) :: RoomFor(b, guards, limit)
  }

  predicate RoomFor(b: Budget, guards: nat, limit: nat) { guards + LeasedAll(b.tasks) < limit }

  /** With a fixed limit that has a reserve, the reserve stays free throughout a run exactly when every
      `sync` of the run leaves the leases within what torrents may take. */
  lemma ReserveKeptExactly(bs: seq<Budget>, ss: seq<Step>, limit: nat)
    requires FixedRun(bs, ss, limit) && Reserve(limit) > 0
    ensures (forall i | 0 <= i < |bs| :: ReserveFree(bs[i], limit))
       <==> (forall i | 0 <= i < |ss| :: FitsTorrents(bs[i], ss[i], limit))
  {
    forall i | 0 <= i < |bs|
      ensures ReserveFree(bs[i], limit) <==> LeasedAll(bs[i].tasks) <= TorrentCap(limit)
    {
      assert RoomFor(bs[i], Reserve(limit) - 1, limit) <==> LeasedAll(bs[i].tasks) <= TorrentCap(limit);
    }
    forall i | 0 <= i < |ss|
      ensures ReserveFree(bs[i + 1], limit) ==> FitsTorrents(bs[i], ss[i], limit)
    {
      AlwaysRead(bs, ss, limit, i);
      assert Next(bs[i], ss[i], bs[i + 1]);
      BoundsStay(bs[i], ss[i], limit);
    }
    forall i | 0 <= i < |bs|
      ensures (forall j | 0 <= j < i :: FitsTorrents(bs[j], ss[j], limit)) ==> ReserveFree(bs[i], limit)
    {
      FitUpTo(bs, ss, limit, i);
    }
    hide FitsTorrents, ReserveFree;
    if forall i | 0 <= i < |bs| :: ReserveFree(bs[i], limit) {
      forall i | 0 <= i < |ss|
        ensures FitsTorrents(bs[i], ss[i], limit)
      {
        var next := i + 1;
        assert ReserveFree(bs[next], limit);
      }
    }
  }

  /** Torrents never take the reserve while every resize leaves the leases within their part: while
      fewer guards than the reserve are out, a slot is free, and an idle task that runs undisturbed
      gets a guard. */
  lemma ReserveIsReachable(bs: seq<Budget>, ss: seq<Step>, limit: nat, i: nat, t: nat)
    requires FixedRun(bs, ss, limit) && i < |bs| && forall j | 0 <= j < i :: FitsTorrents(bs[j], ss[j], limit)
    requires GuardedAll(bs[i].tasks) < Reserve(limit)
    requires t < |bs[i].tasks| && bs[i].tasks[t].phase.Idle?
    ensures bs[i].used < limit
    ensures var b1 := Apply(bs[i], ReadCap(t, false));
            Enabled(b1, ReadUsed(t))
    ensures var b2 := Apply(Apply(bs[i], ReadCap(t, false)), ReadUsed(t));
            Enabled(b2, CompareExchange(t, false))
    ensures var b3 := Apply(Apply(Apply(bs[i], ReadCap(t, false)), ReadUsed(t)), CompareExchange(t, false));
            Enabled(b3, Wrap(t)) && Apply(b3, Wrap(t)).tasks[t].guards == bs[i].tasks[t].guards + 1
  {
    FitUpTo(bs, ss, limit, i);
    AlwaysRead(bs, ss, limit, i);
  }

  /** A metadata fetch is turned away only if, when it looked, the whole reserve was out in guards. */
  lemma RefusedOnlyWhenTaken(bs: seq<Budget>, ss: seq<Step>, limit: nat, i: nat, t: nat)
    requires FixedRun(bs, ss, limit) && i < |ss| && forall j | 0 <= j <= i :: FitsTorrents(bs[j], ss[j], limit)
    requires ss[i] == ReadUsed(t) || (ss[i].CompareExchange? && ss[i].t == t)
    requires t < |bs[i + 1].tasks| && bs[i + 1].tasks[t].phase.Trying? && !bs[i + 1].tasks[t].phase.lease
    requires Enabled(bs[i + 1], GiveUp(t))
    ensures GuardedAll(bs[i + 1].tasks) >= Reserve(limit)
  {
    FitUpTo(bs, ss, limit, i + 1);
    AlwaysRead(bs, ss, limit, i + 1);
    assert Next(bs[i], ss[i], bs[i + 1]);
    assert CapRead(bs[i + 1].tasks[t], limit);
  }

  /** The check is needed: `sync` adds without looking, and one that does not fit overshoots. */
  lemma SyncMayOvershoot(limit: nat)
    ensures exists b, s :: Counted(b) && b.used <= limit == b.limit && Enabled(b, s) && s.Sync?
                           && !FitsLimit(b, s, limit) && Apply(b, s).used > limit
  {
    var b := Budget(limit, 0, [Task(0, 0, Idle)]);
    assert LeasedAll(b.tasks) == 0 && GuardedAll(b.tasks) == 0 by {
      assert b.tasks[..0] == [];
    }
    assert Apply(b, Sync(0, limit + 1)).used > limit;
  }

  // ----- one task at a time -----

  /** What other tasks leave in the counter before an exchange, and whether the exchange fails anyway. */
  datatype Turn = Turn(used: nat, spurious: bool)

  /** The counter as it stands at the n-th exchange. */
  function Seen(used: nat, turns: seq<Turn>, n: nat): nat
    requires n <= |turns|
  {
    if n == 0 then used else turns[n - 1].used
  }

  class Counter {
    var limit: nat
    var used: nat

    constructor (limit: nat)
      ensures this.limit == Max(limit, 1) && used == 0
    {
      this.limit, used := if limit >= 1 then limit else 1, 0;
    }

    /** The loop, with other tasks at work: before its n-th exchange they leave the counter at
        `turns[n].used`, and that exchange may also fail for no reason. It adds one to the value it last
        saw if that is below the cap and otherwise adds nothing; and it gives up only at the cap. */
    method TryAddUpTo(cap: nat, turns: seq<Turn>) returns (ok: bool, taken: nat)
      modifies `used
      ensures taken <= |turns|
      ensures var seen := Seen(old(used), turns, taken);
              (ok <==> seen < cap) && used == seen + if ok then 1 else 0
      ensures forall n | 0 <= n < taken :: Seen(old(used), turns, n) < cap
    {
      var current := used;
      taken := 0;
      while current < cap
        invariant taken <= |turns| && current == used == Seen(old(used), turns, taken)
        invariant forall n | 0 <= n < taken :: Seen(old(used), turns, n) < cap
        decreases |turns| - taken
      {
        if taken == |turns| {
          used := current + 1;
          return true, taken;
        }
        used := turns[taken].used;
        taken := taken + 1;
        if used == current && !turns[taken - 1].spurious {
          used := current + 1;
          return true, taken;
        }
        current := used;
      }
      ok := false;
    }

    method TryAcquire(turns: seq<Turn>) returns (ok: bool, taken: nat)
      modifies `used
      ensures taken <= |turns|
      ensures var seen := Seen(old(used), turns, taken);
              (ok <==> seen < limit) && used == seen + if ok then 1 else 0
    {
      ok, taken := TryAddUpTo(limit, turns);
    }
  }

  class Lease {
    const budget: Counter
    var held: nat

    constructor (budget: Counter)
      ensures this.budget == budget && held == 0
    {
      this.budget, held := budget, 0;
    }

    method TryReserve(turns: seq<Turn>) returns (ok: bool, taken: nat)
      modifies this, budget
      ensures budget.limit == old(budget.limit) && taken <= |turns|
      ensures var seen := Seen(old(budget.used), turns, taken);
              (ok <==> seen < TorrentCap(budget.limit)) && budget.used == seen + if ok then 1 else 0
      ensures held == old(held) + if ok then 1 else 0
    {
      ok, taken := budget.TryAddUpTo(TorrentCap(budget.limit), turns);
      if ok {
        held := held + 1;
      }
    }

    /** Resize the lease; sizing it to nothing is what dropping it does. */
    method SyncTo(current: nat)
      requires held <= budget.used
      modifies this, budget
      ensures budget.limit == old(budget.limit) && held == current
      ensures budget.used - held == old(budget.used) - old(held)
    {
      if current > held {
        budget.used := budget.used + (current - held);
      } else if current < held {
        budget.used := budget.used - (held - current);
      }
      held := current;
    }
  }
}
