/**
 Recency in the read cache over whole runs: what counts as a use of an extent, that eviction takes the
 extent used longest ago, and that idle trimming takes exactly the extents not used for thirty seconds.
 */
module CacheRecency {
  import opened Common
  import opened ReadCache

  /** A hit makes its extent the most recent one and notes the time; it changes no other extent. */
  lemma HitRenews<T>(s: Inner<T>, capacity: nat, start: nat, len: nat, who: nat, now: nat)
    requires Accounted(s, capacity)
    ensures var r := BeginStep(s, start, len, who, now);
            var hit := start in s.entries && |s.entries[start].data| == len;
            && r.0.entries.Keys == s.entries.Keys
            && (hit ==>
                  && r.1 == Hit(s.entries[start].data) && r.0.entries[start].data == s.entries[start].data
                  && r.0.entries[start].last == now
                  && forall k | k in s.entries && k != start ::
                       r.0.entries[k] == s.entries[k] && r.0.entries[k].used < r.0.entries[start].used)
            && (!hit ==> r.0.entries == s.entries)
  {
    hide SumLen;
  }

  /** A cache and the process total it finds, before an operation. */
  datatype Moment<T> = Moment(inner: Inner<T>, total: nat)

  /** A run of one cache; other caches may move the total between its operations. */
  ghost predicate Run<T>(ms: seq<Moment<T>>, ops: seq<Op<T>>, capacity: nat, cap: nat) {
    && |ms| == |ops| + 1 && ms[0].inner == Fresh<T>()
    && forall i | 0 <= i < |ops| :: Step(ms[i], ops[i], ms[i + 1], capacity, cap)
  }

  ghost predicate Step<T>(m: Moment<T>, op: Op<T>, n: Moment<T>, capacity: nat, cap: nat) {
    && Accounted(m.inner, capacity) && m.inner.bytes <= m.total
    && n.inner == Operate(m.inner, m.total, op, capacity, cap).0
  }

  /** An extent is used by a read that hits it and by a load that is stored. */
  predicate Uses<T>(s: Inner<T>, op: Op<T>, after: Inner<T>, capacity: nat, k: nat) {
    match op
    case Begins(start, len, _, _) => start == k && k in s.entries && |s.entries[k].data| == len
    case Finishes(start, id, generation, data, _) =>
      && start == k && Registered(s, start, id) && s.generation == generation && 0 < |data| <= capacity
      && k in after.entries
    case _ => false
  }

  function TimeOf<T>(op: Op<T>): nat {
    match op
    case Begins(_, _, _, now) => now
    case Finishes(_, _, _, _, now) => now
    case _ => 0
  }

  /** One operation: what it uses becomes the most recent, and everything else it leaves is unchanged. */
  lemma OperateUses<T>(m: Moment<T>, op: Op<T>, n: Moment<T>, capacity: nat, cap: nat, k: nat)
    requires Step(m, op, n, capacity, cap) && k in n.inner.entries
    ensures Uses(m.inner, op, n.inner, capacity, k) ==>
              && n.inner.entries[k].last == TimeOf(op)
              && forall j | j in n.inner.entries && j != k :: n.inner.entries[j].used < n.inner.entries[k].used
    ensures !Uses(m.inner, op, n.inner, capacity, k) ==> k in m.inner.entries && n.inner.entries[k] == m.inner.entries[k]
  {
    var s := m.inner;
    match op
    case Begins(start, len, who, now) => HitRenews(s, capacity, start, len, who, now);
    case Finishes(start, id, generation, data, now) =>
      FinishUses(s, m.total, start, id, generation, data, now, capacity, cap, k);
    case Invalidates(offset, len) =>
      DropKeeps(s, capacity, Touched(s, offset, RangeEnd(offset, len)));
    case Trims(now) => DropKeeps(s, capacity, Idle(s, now));
    case _ =>
  }

  lemma FinishUses<T>(s: Inner<T>, total: nat, start: nat, id: nat, generation: nat, data: seq<T>, now: nat,
                      capacity: nat, cap: nat, k: nat)
    requires Accounted(s, capacity) && s.bytes <= total
    requires k in CompleteStep(s, total, start, id, generation, data, now, capacity, cap).0.entries
    ensures var r := CompleteStep(s, total, start, id, generation, data, now, capacity, cap).0;
            var stored := k == start && Registered(s, start, id) && s.generation == generation && 0 < |data| <= capacity;
            && (stored ==>
                  && r.entries[k].last == now && r.entries[k].data == data
                  && forall j | j in r.entries && j != k :: r.entries[j].used < r.entries[k].used)
            && (!stored ==> k in s.entries && r.entries[k] == s.entries[k])
  {
    var s1 := Unregister(s, start, id);
    if Registered(s, start, id) && s.generation == generation && 0 < |data| <= capacity {
      StoreUses(s1, total, start, data, now, capacity, cap, k);
    }
  }

  lemma StoreUses<T>(s: Inner<T>, total: nat, start: nat, data: seq<T>, now: nat, capacity: nat, cap: nat, k: nat)
    requires Accounted(s, capacity) && s.bytes <= total
    requires k in Store(s, total, start, data, now, capacity, cap).0.entries
    ensures var r := Store(s, total, start, data, now, capacity, cap).0;
            && (k == start ==>
                  && r.entries[k].last == now && r.entries[k].data == data
                  && forall j | j in r.entries && j != k :: r.entries[j].used < r.entries[k].used)
            && (k != start ==> k in s.entries && r.entries[k] == s.entries[k])
  {
    DropKeeps(s, capacity, {start});
    var s1 := Drop(s, {start});
    var (s2, total2) := MakeRoom(s1, total - (s.bytes - s1.bytes), |data|, capacity, cap);
    TicksPast(s2, capacity);
    hide Accounted, MakeRoom, SumLen, Only;
  }

  lemma TicksPast<T>(s: Inner<T>, capacity: nat)
    requires Accounted(s, capacity)
    ensures forall k | k in s.entries :: s.entries[k].used <= s.tick
  {
  }

  // ----- over a run -----

  /** The operation that used the extent last, counted from one; zero if none has. */
  function LastUse<T>(ms: seq<Moment<T>>, ops: seq<Op<T>>, capacity: nat, k: nat, i: nat): (l: nat)
    requires |ms| == |ops| + 1 && i <= |ops|
    ensures l <= i
    ensures l > 0 ==> Uses(ms[l - 1].inner, ops[l - 1], ms[l].inner, capacity, k)
  {
    if i == 0 then 0
    else if Uses(ms[i - 1].inner, ops[i - 1], ms[i].inner, capacity, k) then i
    else LastUse(ms, ops, capacity, k, i - 1)
  }

  /** What is cached was used, and its time is that of its last use. */
  predicate Timed<T>(ms: seq<Moment<T>>, ops: seq<Op<T>>, capacity: nat, i: nat, k: nat)
    requires |ms| == |ops| + 1 && i <= |ops|
  {
    k in ms[i].inner.entries ==>
      var l := LastUse(ms, ops, capacity, k, i);
      l > 0 && ms[i].inner.entries[k].last == TimeOf(ops[l - 1])
  }

  /** Ticks follow the order of last uses. */
  predicate Follows<T>(ms: seq<Moment<T>>, ops: seq<Op<T>>, capacity: nat, i: nat, p: nat, q: nat)
    requires |ms| == |ops| + 1 && i <= |ops|
  {
    p in ms[i].inner.entries && q in ms[i].inner.entries
    && LastUse(ms, ops, capacity, p, i) < LastUse(ms, ops, capacity, q, i) ==>
      ms[i].inner.entries[p].used < ms[i].inner.entries[q].used
  }

  lemma LastUseTurn<T>(ms: seq<Moment<T>>, ops: seq<Op<T>>, capacity: nat, k: nat, i: nat)
    requires |ms| == |ops| + 1 && 0 < i <= |ops|
    ensures LastUse(ms, ops, capacity, k, i)
         == if Uses(ms[i - 1].inner, ops[i - 1], ms[i].inner, capacity, k) then i else LastUse(ms, ops, capacity, k, i - 1)
  {
  }

  lemma TimedTurn<T>(ms: seq<Moment<T>>, ops: seq<Op<T>>, capacity: nat, cap: nat, i: nat, k: nat)
    requires |ms| == |ops| + 1 && 0 < i <= |ops| && Step(ms[i - 1], ops[i - 1], ms[i], capacity, cap)
    requires Timed(ms, ops, capacity, i - 1, k)
    ensures Timed(ms, ops, capacity, i, k)
  {
    hide Step, Uses, TimeOf, LastUse;
    if k in ms[i].inner.entries {
      OperateUses(ms[i - 1], ops[i - 1], ms[i], capacity, cap, k);
      LastUseTurn(ms, ops, capacity, k, i);
    }
  }

  lemma FollowsTurn<T>(ms: seq<Moment<T>>, ops: seq<Op<T>>, capacity: nat, cap: nat, i: nat, p: nat, q: nat)
    requires |ms| == |ops| + 1 && 0 < i <= |ops| && Step(ms[i - 1], ops[i - 1], ms[i], capacity, cap)
    requires Follows(ms, ops, capacity, i - 1, p, q)
    ensures Follows(ms, ops, capacity, i, p, q)
  {
    hide Step, Uses, LastUse;
    if p in ms[i].inner.entries && q in ms[i].inner.entries {
      OperateUses(ms[i - 1], ops[i - 1], ms[i], capacity, cap, p);
      OperateUses(ms[i - 1], ops[i - 1], ms[i], capacity, cap, q);
      LastUseTurn(ms, ops, capacity, p, i);
      LastUseTurn(ms, ops, capacity, q, i);
    }
  }

  lemma StartsEmpty<T>(ms: seq<Moment<T>>, ops: seq<Op<T>>, capacity: nat, cap: nat, p: nat, q: nat)
    requires |ms| == |ops| + 1 && Run(ms, ops, capacity, cap)
    ensures Timed(ms, ops, capacity, 0, p) && Follows(ms, ops, capacity, 0, p, q)
  {
  }

  lemma {:induction false} AlwaysTimed<T>(ms: seq<Moment<T>>, ops: seq<Op<T>>, capacity: nat, cap: nat, i: nat, k: nat)
    requires |ms| == |ops| + 1 && Run(ms, ops, capacity, cap) && i <= |ops|
    ensures Timed(ms, ops, capacity, i, k)
  {
    hide *;
    if i == 0 {
      StartsEmpty(ms, ops, capacity, cap, k, k);
    } else {
      AlwaysTimed(ms, ops, capacity, cap, i - 1, k);
      StepAt(ms, ops, capacity, cap, i - 1);
      TimedTurn(ms, ops, capacity, cap, i, k);
    }
  }

  lemma {:induction false} AlwaysFollows<T>(ms: seq<Moment<T>>, ops: seq<Op<T>>, capacity: nat, cap: nat, i: nat,
                                            p: nat, q: nat)
    requires |ms| == |ops| + 1 && Run(ms, ops, capacity, cap) && i <= |ops|
    ensures Follows(ms, ops, capacity, i, p, q)
  {
    hide *;
    if i == 0 {
      StartsEmpty(ms, ops, capacity, cap, p, q);
    } else {
      AlwaysFollows(ms, ops, capacity, cap, i - 1, p, q);
      StepAt(ms, ops, capacity, cap, i - 1);
      FollowsTurn(ms, ops, capacity, cap, i, p, q);
    }
  }

  lemma StepAt<T>(ms: seq<Moment<T>>, ops: seq<Op<T>>, capacity: nat, cap: nat, i: nat)
    requires |ms| == |ops| + 1 && Run(ms, ops, capacity, cap) && i < |ops|
    ensures Step(ms[i], ops[i], ms[i + 1], capacity, cap)
  {
  }

  /** No operation uses two extents. */
  lemma UsesOne<T>(s: Inner<T>, op: Op<T>, after: Inner<T>, capacity: nat, p: nat, q: nat)
    requires Uses(s, op, after, capacity, p) && Uses(s, op, after, capacity, q)
    ensures p == q
  {
  }

  lemma EvictedBefore<T>(s: Inner<T>, total: nat, start: nat, data: seq<T>, now: nat,
                         capacity: nat, cap: nat, gone: nat, kept: nat)
    requires Accounted(s, capacity) && s.bytes <= total && gone != start && kept != start
    requires var r := Store(s, total, start, data, now, capacity, cap).0;
             gone in s.entries && gone !in r.entries && kept in r.entries
    ensures kept in s.entries && s.entries[gone].used < s.entries[kept].used
  {
    hide *;
    var s1, t1 := StoreParts(s, total, start, data, now, capacity, cap);
    var r := MakeRoom(s1, t1, |data|, capacity, cap);
    PlaceOnly(r.0, r.1, start, data, now, capacity, cap, gone);
    PlaceOnly(r.0, r.1, start, data, now, capacity, cap, kept);
    RoomEvicts(s1, t1, |data|, capacity, cap, gone, kept);
  }

  /** Storing starts from the cache without the extent it replaces. */
  lemma StoreParts<T>(s: Inner<T>, total: nat, start: nat, data: seq<T>, now: nat, capacity: nat, cap: nat)
    returns (s1: Inner<T>, t1: nat)
    requires Accounted(s, capacity) && s.bytes <= total
    ensures s1.entries == s.entries - {start} && Accounted(s1, capacity) && s1.bytes <= t1
    ensures var r := MakeRoom(s1, t1, |data|, capacity, cap);
            Store(s, total, start, data, now, capacity, cap) == Place(r.0, r.1, start, data, now, capacity, cap)
  {
    hide *;
    DropKeeps(s, capacity, {start});
    s1 := Drop(s, {start});
    DropIs(s, {start});
    t1 := total - (s.bytes - s1.bytes);
    StoreIs(s, total, start, data, now, capacity, cap);
  }

  lemma StoreIs<T>(s: Inner<T>, total: nat, start: nat, data: seq<T>, now: nat, capacity: nat, cap: nat)
    requires Accounted(s, capacity) && s.bytes <= total
    requires SumLen(Only(s.entries, {start})) <= s.bytes && Accounted(Drop(s, {start}), capacity)
    ensures var s1 := Drop(s, {start});
            s1.bytes <= s.bytes
            && var r := MakeRoom(s1, total - (s.bytes - s1.bytes), |data|, capacity, cap);
               Store(s, total, start, data, now, capacity, cap) == Place(r.0, r.1, start, data, now, capacity, cap)
  {
    hide Accounted, MakeRoom, Place, SumLen, Only, Without;
  }

  lemma RoomEvicts<T>(s: Inner<T>, total: nat, len: nat, capacity: nat, cap: nat, gone: nat, kept: nat)
    requires Accounted(s, capacity) && s.bytes <= total
    requires var r := MakeRoom(s, total, len, capacity, cap).0;
             gone in s.entries && gone !in r.entries && kept in r.entries
    ensures s.entries[gone].used < s.entries[kept].used
  {
    hide Accounted, Evict;
    if total - s.bytes + len <= cap {
      EvictsOldest(s, total, len, capacity, cap, gone, kept);
    }
  }

  lemma PlaceOnly<T>(s: Inner<T>, total: nat, start: nat, data: seq<T>, now: nat, capacity: nat, cap: nat, k: nat)
    requires k != start
    ensures k in Place(s, total, start, data, now, capacity, cap).0.entries <==> k in s.entries
  {
  }

  lemma FinishEvicts<T>(m: Moment<T>, op: Op<T>, n: Moment<T>, capacity: nat, cap: nat, gone: nat, kept: nat)
    requires Step(m, op, n, capacity, cap) && op.Finishes? && gone != op.start && kept != op.start
    requires gone in m.inner.entries && gone !in n.inner.entries && kept in n.inner.entries
    ensures kept in m.inner.entries && m.inner.entries[gone].used < m.inner.entries[kept].used
  {
    hide Accounted, Store;
    var s := Unregister(m.inner, op.start, op.id);
    AccountedSame(m.inner, s, capacity);
    EvictedBefore(s, m.total, op.start, op.data, op.now, capacity, cap, gone, kept);
  }

  /** In every run, whatever a stored load drives out was used before everything it leaves: an extent
      read or stored later never goes while an earlier one stays. */
  lemma EvictsLeastRecent<T>(ms: seq<Moment<T>>, ops: seq<Op<T>>, capacity: nat, cap: nat, i: nat, gone: nat, kept: nat)
    requires |ms| == |ops| + 1 && Run(ms, ops, capacity, cap) && i < |ops| && ops[i].Finishes?
    requires gone in ms[i].inner.entries && gone !in ms[i + 1].inner.entries && gone != ops[i].start
    requires kept in ms[i + 1].inner.entries && kept != ops[i].start
    ensures LastUse(ms, ops, capacity, gone, i) < LastUse(ms, ops, capacity, kept, i)
  {
    StepAt(ms, ops, capacity, cap, i);
    hide Run, Step, Uses;
    FinishEvicts(ms[i], ops[i], ms[i + 1], capacity, cap, gone, kept);
    AlwaysTimed(ms, ops, capacity, cap, i, gone);
    AlwaysFollows(ms, ops, capacity, cap, i, kept, gone);
    var g, l := LastUse(ms, ops, capacity, gone, i), LastUse(ms, ops, capacity, kept, i);
    hide LastUse, TimeOf;
    if g == l {
      UsesOne(ms[l - 1].inner, ops[l - 1], ms[l].inner, capacity, gone, kept);
    }
  }

  /** In every run, trimming takes exactly the extents last used thirty or more seconds ago. */
  lemma TrimTakesIdle<T>(ms: seq<Moment<T>>, ops: seq<Op<T>>, capacity: nat, cap: nat, i: nat, k: nat)
    requires |ms| == |ops| + 1 && Run(ms, ops, capacity, cap) && i < |ops| && ops[i].Trims?
    requires k in ms[i].inner.entries
    ensures var l := LastUse(ms, ops, capacity, k, i);
            l > 0 && (k in ms[i + 1].inner.entries <==> ops[i].now < TimeOf(ops[l - 1]) + 30)
  {
    hide *;
    StepAt(ms, ops, capacity, cap, i);
    AlwaysTimed(ms, ops, capacity, cap, i, k);
    TimedIs(ms, ops, capacity, i, k);
    TrimStep(ms[i], ops[i], ms[i + 1], capacity, cap, k);
  }

  lemma TimedIs<T>(ms: seq<Moment<T>>, ops: seq<Op<T>>, capacity: nat, i: nat, k: nat)
    requires |ms| == |ops| + 1 && i <= |ops| && k in ms[i].inner.entries && Timed(ms, ops, capacity, i, k)
    ensures var l := LastUse(ms, ops, capacity, k, i);
            l > 0 && ms[i].inner.entries[k].last == TimeOf(ops[l - 1])
  {
  }

  lemma TrimStep<T>(m: Moment<T>, op: Op<T>, n: Moment<T>, capacity: nat, cap: nat, k: nat)
    requires Step(m, op, n, capacity, cap) && op.Trims? && k in m.inner.entries
    ensures k in n.inner.entries <==> op.now < m.inner.entries[k].last + 30
  {
    DropKeeps(m.inner, capacity, Idle(m.inner, op.now));
    hide Accounted, SumLen, Only, Without;
  }
}
