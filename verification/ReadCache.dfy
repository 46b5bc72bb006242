/** The shared read cache. */
module ReadCache {
  /* Extents keyed by offset, single-flight loads, least-recently-used eviction and a byte total shared
   by every cache of the process. Each lock-protected section is one step. The cached elements are a
   type parameter, because the cache never looks inside them. */

  import opened Common

  const MAX_IDLE: nat := 30
  const MAX_OFFSET: nat := 0xffff_ffff_ffff_ffff

  datatype Entry<T> = Entry(data: seq<T>, used: nat, last: nat)

  /** A registered load and the readers waiting for it. */
  datatype Inflight = Inflight(id: nat, len: nat, waiters: seq<nat>)

  datatype Inner<T> = Inner(
    generation: nat,
    tick: nat,
    nextId: nat,
    bytes: nat,
    entries: map<nat, Entry<T>>,
    lru: map<nat, nat>,
    inflight: map<nat, Inflight>)

  datatype Role<T> = Hit(data: seq<T>) | Wait(id: nat) | Lead(id: nat, generation: nat)

  function Fresh<T>(): Inner<T> { Inner(0, 0, 0, 0, map[], map[], map[]) }

  // ----- sums over entries -----

  ghost function SumLen<T>(m: map<nat, Entry<T>>): nat
    decreases |m|
  {
    if m == map[] then 0
    else
      var k :| k in m;
      |m[k].data| + SumLen(m - {k})
  }

  lemma {:induction false} SumLenAt<T>(m: map<nat, Entry<T>>, k: nat)
    requires k in m
    ensures SumLen(m) == |m[k].data| + SumLen(m - {k})
    decreases |m|
  {
    var j :| j in m && SumLen(m) == |m[j].data| + SumLen(m - {j});
    if j != k {
      SumLenAt(m - {j}, k);
      SumLenAt(m - {k}, j);
      assert m - {j} - {k} == m - {k} - {j};
    }
  }

  lemma MinusParts<T>(m: map<nat, Entry<T>>, k: nat, gone: set<nat>)
    requires k in m
    ensures k in gone ==>
      && k in Only(m, gone) && Only(m, gone)[k] == m[k]
      && Only(m, gone) - {k} == Only(m - {k}, gone) && (m - {k}) - gone == m - gone
    ensures k !in gone ==>
      && k in m - gone && (m - gone)[k] == m[k]
      && (m - gone) - {k} == (m - {k}) - gone && Only(m, gone) == Only(m - {k}, gone)
  {
  }

  lemma {:induction false} SumLenSplit<T>(m: map<nat, Entry<T>>, gone: set<nat>)
    ensures SumLen(m) == SumLen(m - gone) + SumLen(Only(m, gone))
    decreases |m|
  {
    if m == map[] {
      assert m - gone == map[] && Only(m, gone) == map[];
    } else {
      var k :| k in m;
      hide SumLen, Only;
      MinusParts(m, k, gone);
      SumLenAt(m, k);
      SumLenSplit(m - {k}, gone);
      if k in gone {
        SumLenAt(Only(m, gone), k);
      } else {
        SumLenAt(m - gone, k);
      }
    }
  }

  function Only<T>(m: map<nat, Entry<T>>, keys: set<nat>): map<nat, Entry<T>> {
    map k | k in m && k in keys :: m[k]
  }

  lemma SumLenPut<T>(m: map<nat, Entry<T>>, k: nat, e: Entry<T>)
    ensures SumLen(m[k := e]) == SumLen(m - {k}) + |e.data|
  {
    SumLenAt(m[k := e], k);
    assert m[k := e] - {k} == m - {k};
  }

  // ----- accounting -----

  /** The byte count is the sum of the entries and within capacity; recency ticks and entries are
      in one-to-one correspondence, and no tick lies in the future. */
  ghost predicate Accounted<T>(s: Inner<T>, capacity: nat) {
    && s.bytes == SumLen(s.entries) <= capacity
    && (forall k | k in s.entries :: s.entries[k].used in s.lru && s.lru[s.entries[k].used] == k)
    && (forall t | t in s.lru :: t <= s.tick && s.lru[t] in s.entries && s.entries[s.lru[t]].used == t)
  }

  // ----- what each step does -----

  /** Removes a set of entries with their recency ticks and their bytes. */
  ghost function Drop<T>(s: Inner<T>, gone: set<nat>): Inner<T>
    requires SumLen(Only(s.entries, gone)) <= s.bytes
  {
    s.(entries := s.entries - gone,
       lru := Without(s.lru, gone),
       bytes := s.bytes - SumLen(Only(s.entries, gone)))
  }

  function Without(lru: map<nat, nat>, gone: set<nat>): map<nat, nat> {
    map t | t in lru && lru[t] !in gone :: lru[t]
  }

  lemma DropKeeps<T>(s: Inner<T>, capacity: nat, gone: set<nat>)
    requires Accounted(s, capacity)
    ensures SumLen(Only(s.entries, gone)) <= s.bytes
    ensures Accounted(Drop(s, gone), capacity)
  {
    SumLenSplit(s.entries, gone);
  }

  function BeginStep<T>(s: Inner<T>, start: nat, len: nat, who: nat, now: nat): (r: (Inner<T>, Role<T>)) {
    var tick := s.tick + 1;
    if start in s.entries && |s.entries[start].data| == len then
      var e := s.entries[start];
      (s.(tick := tick,
          lru := (s.lru - {e.used})[tick := start],
          entries := s.entries[start := e.(used := tick, last := now)]), Hit(e.data))
    else if start in s.inflight && s.inflight[start].len == len then
      var f := s.inflight[start];
      (s.(tick := tick, inflight := s.inflight[start := f.(waiters := f.waiters + [who])]), Wait(f.id))
    else
      var id := s.nextId + 1;
      (s.(tick := tick, nextId := id, inflight := s.inflight[start := Inflight(id, len, [])]),
       Lead(id, s.generation))
  }

  /** A load still registered under its own id. */
  predicate Registered<T>(s: Inner<T>, start: nat, id: nat) {
    start in s.inflight && s.inflight[start].id == id
  }

  function Unregister<T>(s: Inner<T>, start: nat, id: nat): Inner<T> {
    if Registered(s, start, id) then s.(inflight := s.inflight - {start}) else s
  }

  predicate Overlaps(start: nat, n: nat, offset: nat, end: nat) { start < end && offset < start + n }

  function RangeEnd(offset: nat, len: nat): nat { Min(offset + len, MAX_OFFSET) }

  /** The cached extents a range touches. */
  function Touched<T>(s: Inner<T>, offset: nat, end: nat): set<nat> {
    set k | k in s.entries && Overlaps(k, |s.entries[k].data|, offset, end)
  }

  function Untouched(m: map<nat, Inflight>, offset: nat, end: nat): map<nat, Inflight> {
    map k | k in m && !Overlaps(k, m[k].len, offset, end) :: m[k]
  }

  ghost function InvalidateStep<T>(s: Inner<T>, offset: nat, len: nat): Inner<T>
    requires SumLen(Only(s.entries, Touched(s, offset, RangeEnd(offset, len)))) <= s.bytes
  {
    var end := RangeEnd(offset, len);
    var r := Drop(s, Touched(s, offset, end)).(inflight := Untouched(s.inflight, offset, end));
    if |r.entries| + |r.inflight| != |s.entries| + |s.inflight|
    then r.(generation := s.generation + 1) else r
  }

  /** Forgets everything; a cache that holds and awaits nothing is left as it is. */
  function InvalidateAllStep<T>(s: Inner<T>): Inner<T> {
    if s.entries == map[] && s.inflight == map[] then s
    else s.(generation := s.generation + 1, entries := map[], lru := map[], bytes := 0, inflight := map[])
  }

  function Idle<T>(s: Inner<T>, now: nat): set<nat> {
    set k | k in s.entries && s.entries[k].last + MAX_IDLE <= now
  }

  ghost predicate LeastTick(lru: map<nat, nat>, t: nat) { t in lru && forall u | u in lru :: t <= u }

  lemma LeastTickExists(lru: map<nat, nat>)
    requires lru != map[]
    ensures exists t :: LeastTick(lru, t)
    decreases |lru|
  {
    var t :| t in lru;
    if lru - {t} == map[] {
      forall u | u in lru
        ensures u == t
      {
        assert u != t ==> u in lru - {t};
      }
      assert LeastTick(lru, t);
    } else {
      LeastTickExists(lru - {t});
      var u :| LeastTick(lru - {t}, u);
      assert forall v | v in lru :: v == t || v in lru - {t};
      assert LeastTick(lru, if t < u then t else u);
    }
  }

  ghost function LeastRecent(lru: map<nat, nat>): nat
    requires lru != map[]
  {
    LeastTickExists(lru);
    var t :| LeastTick(lru, t);
    t
  }

  predicate Tight(bytes: nat, total: nat, len: nat, capacity: nat, processCap: nat) {
    bytes + len > capacity || total + len > processCap
  }

  /** Evicts least recently used entries until the newcomer fits or nothing is left. */
  ghost function Evict<T>(s: Inner<T>, total: nat, len: nat, capacity: nat, processCap: nat): (r: (Inner<T>, nat))
    requires Accounted(s, capacity) && s.bytes <= total
    ensures Accounted(r.0, capacity) && r.0.bytes <= s.bytes && s.bytes - r.0.bytes == total - r.1
    ensures r.0 == s.(entries := r.0.entries, lru := r.0.lru, bytes := r.0.bytes)
    ensures forall k | k in r.0.entries :: k in s.entries && r.0.entries[k] == s.entries[k]
    ensures Tight(r.0.bytes, r.1, len, capacity, processCap) ==> r.0.lru == map[]
    decreases |s.lru|
  {
    if Tight(s.bytes, total, len, capacity, processCap) && s.lru != map[] then
      var k := s.lru[LeastRecent(s.lru)];
      DropOne(s, capacity, k);
      Evict(Drop(s, {k}), total - |s.entries[k].data|, len, capacity, processCap)
    else (s, total)
  }

  lemma DropOne<T>(s: Inner<T>, capacity: nat, k: nat)
    requires Accounted(s, capacity) && k in s.entries
    ensures SumLen(Only(s.entries, {k})) == |s.entries[k].data| <= s.bytes
    ensures Accounted(Drop(s, {k}), capacity)
    ensures Drop(s, {k}).lru == s.lru - {s.entries[k].used}
    ensures |Drop(s, {k}).lru| < |s.lru|
  {
    DropKeeps(s, capacity, {k});
    var one := Only(s.entries, {k});
    SumLenAt(one, k);
    assert one - {k} == map[];
    var t := s.entries[k].used;
    assert Drop(s, {k}).lru == s.lru - {t};
    assert (s.lru - {t}).Keys == s.lru.Keys - {t};
  }

  /** Removes what is cached at the load's start, makes room, and inserts if it then fits. */
  ghost function Store<T>(s: Inner<T>, total: nat, start: nat, data: seq<T>, now: nat,
                          capacity: nat, processCap: nat): (r: (Inner<T>, nat))
    requires Accounted(s, capacity) && s.bytes <= total
    ensures Accounted(r.0, capacity) && r.0.bytes - s.bytes == r.1 - total
    ensures total <= processCap ==> r.1 <= processCap
    ensures r.0.inflight == s.inflight && r.0.nextId == s.nextId && r.0.generation == s.generation
    ensures forall k | k in r.0.entries ::
      || (k in s.entries && r.0.entries[k] == s.entries[k])
      || (k == start && r.0.entries[k].data == data)
  {
    var len := |data|;
    DropKeeps(s, capacity, {start});
    var s1 := Drop(s, {start});
    var (s2, total2) := MakeRoom(s1, total - (s.bytes - s1.bytes), len, capacity, processCap);
    PlaceKeeps(s2, total2, start, data, now, capacity, processCap);
    Place(s2, total2, start, data, now, capacity, processCap)
  }

  lemma PlaceKeeps<T>(s: Inner<T>, total: nat, start: nat, data: seq<T>, now: nat, capacity: nat, processCap: nat)
    requires Accounted(s, capacity) && start !in s.entries
    ensures var r := Place(s, total, start, data, now, capacity, processCap);
      && Accounted(r.0, capacity) && r.0.bytes - s.bytes == r.1 - total
      && (total <= processCap ==> r.1 <= processCap)
      && r.0.inflight == s.inflight && r.0.nextId == s.nextId && r.0.generation == s.generation
      && forall k | k in r.0.entries ::
        || (k in s.entries && r.0.entries[k] == s.entries[k])
        || (k == start && r.0.entries[k].data == data)
  {
    if s.bytes + |data| <= capacity && total + |data| <= processCap {
      InsertKeeps(s, capacity, start, data, now);
    }
    hide Accounted;
  }

  ghost function MakeRoom<T>(s: Inner<T>, total: nat, len: nat, capacity: nat, processCap: nat): (r: (Inner<T>, nat))
    requires Accounted(s, capacity) && s.bytes <= total
    ensures Accounted(r.0, capacity) && r.0.bytes <= s.bytes && s.bytes - r.0.bytes == total - r.1
    ensures r.0 == s.(entries := r.0.entries, lru := r.0.lru, bytes := r.0.bytes)
    ensures forall k | k in r.0.entries :: k in s.entries && r.0.entries[k] == s.entries[k]
  {
    if total - s.bytes + len <= processCap then Evict(s, total, len, capacity, processCap) else (s, total)
  }

  function Place<T>(s: Inner<T>, total: nat, start: nat, data: seq<T>, now: nat,
                    capacity: nat, processCap: nat): (Inner<T>, nat)
  {
    if s.bytes + |data| <= capacity && total + |data| <= processCap
    then (Insert(s, start, data, now), total + |data|) else (s, total)
  }

  function Insert<T>(s: Inner<T>, start: nat, data: seq<T>, now: nat): Inner<T> {
    s.(tick := s.tick + 1,
       lru := s.lru[s.tick + 1 := start],
       entries := s.entries[start := Entry(data, s.tick + 1, now)],
       bytes := s.bytes + |data|)
  }

  lemma InsertKeeps<T>(s: Inner<T>, capacity: nat, start: nat, data: seq<T>, now: nat)
    requires Accounted(s, capacity) && start !in s.entries && s.bytes + |data| <= capacity
    ensures Accounted(Insert(s, start, data, now), capacity)
  {
    SumLenPut(s.entries, start, Entry(data, s.tick + 1, now));
    assert s.entries - {start} == s.entries;
  }

  /** A finished load: it is delivered and cached only while still registered, and cached only if
      nothing was invalidated since it began. */
  ghost function CompleteStep<T>(s: Inner<T>, total: nat, start: nat, id: nat, generation: nat, data: seq<T>,
                                 now: nat, capacity: nat, processCap: nat): (r: (Inner<T>, nat))
    requires Accounted(s, capacity) && s.bytes <= total
    ensures Accounted(r.0, capacity) && r.0.bytes - s.bytes == r.1 - total
    ensures total <= processCap ==> r.1 <= processCap
    ensures r.0.inflight == Unregister(s, start, id).inflight && r.0.nextId == s.nextId
    ensures forall k | k in r.0.entries ::
      || (k in s.entries && r.0.entries[k] == s.entries[k])
      || (k == start && r.0.entries[k].data == data && Registered(s, start, id))
  {
    var s1 := Unregister(s, start, id);
    if Registered(s, start, id) && s.generation == generation && 0 < |data| <= capacity
    then Store(s1, total, start, data, now, capacity, processCap)
    else (s1, total)
  }

  lemma BeginKeeps<T>(s: Inner<T>, capacity: nat, start: nat, len: nat, who: nat, now: nat)
    requires Accounted(s, capacity)
    ensures Accounted(BeginStep(s, start, len, who, now).0, capacity)
    ensures BeginStep(s, start, len, who, now).0.bytes == s.bytes
  {
    if start in s.entries && |s.entries[start].data| == len {
      var e := s.entries[start];
      SumLenPut(s.entries, start, e.(used := s.tick + 1, last := now));
      SumLenAt(s.entries, start);
    }
  }

  /** Eviction is least recently used first: whatever is evicted is older than whatever stays. */
  lemma {:induction false} EvictsOldest<T>(s: Inner<T>, total: nat, len: nat, capacity: nat, processCap: nat, gone: nat, kept: nat)
    requires Accounted(s, capacity) && s.bytes <= total
    requires var r := Evict(s, total, len, capacity, processCap).0;
             gone in s.entries && gone !in r.entries && kept in r.entries
    ensures s.entries[gone].used < s.entries[kept].used
    decreases |s.lru|
  {
    hide Accounted, SumLen, Only, Evict, Tight, LeastTick, Without;
    var t := Evicting(s, total, len, capacity, processCap, gone);
    EvictTurn(s, total, len, capacity, processCap, t);
    Ticks(s, capacity, kept);
    Ticks(s, capacity, gone);
    LeastTickIs(s.lru, t);
    var k := s.lru[t];
    if gone != k {
      EvictsOldest(Drop(s, {k}), total - |s.entries[k].data|, len, capacity, processCap, gone, kept);
    }
  }

  lemma Evicting<T>(s: Inner<T>, total: nat, len: nat, capacity: nat, processCap: nat, gone: nat) returns (t: nat)
    requires Accounted(s, capacity) && s.bytes <= total
    requires gone in s.entries && gone !in Evict(s, total, len, capacity, processCap).0.entries
    ensures LeastTick(s.lru, t) && Tight(s.bytes, total, len, capacity, processCap)
  {
    hide SumLen, Only, Drop, Tight;
    LeastTickExists(s.lru);
    t :| LeastTick(s.lru, t);
  }

  lemma LeastTickIs(lru: map<nat, nat>, t: nat)
    requires LeastTick(lru, t)
    ensures t in lru && forall u | u in lru :: t <= u
  {
  }

  /** While an entry would fit without any eviction, nothing is evicted; and room made by evicting
      everything is enough whenever other caches leave it. */
  lemma {:induction false} EvictMakesRoom<T>(s: Inner<T>, total: nat, len: nat, capacity: nat, processCap: nat)
    requires Accounted(s, capacity) && s.bytes <= total
    ensures !Tight(s.bytes, total, len, capacity, processCap) ==>
              Evict(s, total, len, capacity, processCap) == (s, total)
    ensures len <= capacity && total - s.bytes + len <= processCap ==>
              var r := Evict(s, total, len, capacity, processCap);
              !Tight(r.0.bytes, r.1, len, capacity, processCap)
  {
    var r := Evict(s, total, len, capacity, processCap);
    if r.0.lru == map[] {
      EmptyLru(r.0, capacity);
    }
  }

  lemma EmptyLru<T>(s: Inner<T>, capacity: nat)
    requires Accounted(s, capacity) && s.lru == map[]
    ensures s.entries == map[] && s.bytes == 0
  {
    AllTicked(s, capacity);
    hide Accounted;
    assert s.entries == map[];
    AccountedBytes(s, capacity);
  }

  lemma AccountedBytes<T>(s: Inner<T>, capacity: nat)
    requires Accounted(s, capacity)
    ensures s.bytes == SumLen(s.entries)
  {
  }

  /** A finished load that is still registered, with nothing invalidated since it began, is cached
      whenever other caches leave room for it, and the next read of it is a hit. */
  lemma LoadIsCached<T>(s: Inner<T>, total: nat, start: nat, id: nat, data: seq<T>, now: nat,
                        capacity: nat, processCap: nat, who: nat, later: nat)
    requires Accounted(s, capacity) && s.bytes <= total && Registered(s, start, id)
    requires 0 < |data| <= capacity && total - s.bytes + |data| <= processCap
    ensures var r := CompleteStep(s, total, start, id, s.generation, data, now, capacity, processCap).0;
            && start in r.entries && r.entries[start].data == data
            && BeginStep(r, start, |data|, who, later).1 == Hit(data)
  {
    var s1 := Unregister(s, start, id);
    DropKeeps(s1, capacity, {start});
    var s2 := Drop(s1, {start});
    EvictMakesRoom(s2, total - (s1.bytes - s2.bytes), |data|, capacity, processCap);
    hide Accounted, Evict, Drop, SumLen, Only;
  }

  /** One load at a time: in any state where a load of the extent is registered and the extent is not
      cached, a read waits for that load and leaves it registered; and a read that leads registers one. */
  lemma OneFlight<T>(s: Inner<T>, start: nat, len: nat, who: nat, now: nat)
    ensures var r := BeginStep(s, start, len, who, now);
            var cached := start in s.entries && |s.entries[start].data| == len;
            && (!cached && start in s.inflight && s.inflight[start].len == len ==>
                  r.1 == Wait(s.inflight[start].id) && Registered(r.0, start, s.inflight[start].id))
            && (r.1.Lead? ==> Registered(r.0, start, r.1.id) && r.0.inflight[start].len == len)
            && (r.1.Lead? <==> !cached && !(start in s.inflight && s.inflight[start].len == len))
            && (r.1.Wait? ==> r.0.inflight[start].waiters == s.inflight[start].waiters + [who])
            && (r.1.Lead? ==> r.0.inflight[start].waiters == [])
            && (forall k | k != start :: (k in r.0.inflight <==> k in s.inflight))
            && (forall k | k in s.inflight && k != start :: r.0.inflight[k] == s.inflight[k])
  {
  }

  /** Forgetting everything empties the cache and withdraws every load, so that no load under way is
      stored later; the generation moves exactly if there was something to forget. */
  lemma ForgetsExactly<T>(s: Inner<T>, capacity: nat)
    requires Accounted(s, capacity)
    ensures var r := InvalidateAllStep(s);
            && r.entries == map[] && r.inflight == map[] && r.bytes == 0 && r.nextId == s.nextId && r.tick == s.tick
            && r.generation == (if s.entries == map[] && s.inflight == map[] then s.generation else s.generation + 1)
  {
    assert SumLen<T>(map[]) == 0;
  }

  /** An extent overlaps a range exactly if they share a byte; an empty one does if it lies strictly inside
      the other. */
  lemma OverlapsExactly(start: nat, n: nat, offset: nat, end: nat)
    ensures n > 0 && offset < end ==>
      (Overlaps(start, n, offset, end) <==> exists o :: Between(start, o, start + n) && Between(offset, o, end))
    ensures n == 0 ==> (Overlaps(start, n, offset, end) <==> offset < start < end)
    ensures offset >= end ==> (Overlaps(start, n, offset, end) <==> start < end && offset < start + n)
  {
    if n > 0 && offset < end && Overlaps(start, n, offset, end) {
      var o := Max(start, offset);
      assert Between(start, o, start + n) && Between(offset, o, end);
    }
  }

  predicate Between(from: int, o: int, to: int) { from <= o < to }

  // ----- admission -----

  predicate Admitted<T>(s: Inner<T>, total: nat, start: nat, len: nat, capacity: nat, processCap: nat) {
    && len <= capacity
    && (|| (start in s.entries && |s.entries[start].data| == len)
        || (start in s.inflight && s.inflight[start].len == len)
        || total - s.bytes + len <= processCap)
  }

  /** A read that would have to load the extent for itself, and whose load, though nothing came between,
      would not be there for the next read. */
  ghost predicate Futile<T>(s: Inner<T>, total: nat, start: nat, data: seq<T>, who: nat, now: nat, later: nat,
                            capacity: nat, processCap: nat)
    requires Accounted(s, capacity) && s.bytes <= total
  {
    BeginKeeps(s, capacity, start, |data|, who, now);
    var b := BeginStep(s, start, |data|, who, now);
    b.1.Lead?
    && var r := CompleteStep(b.0, total, start, b.1.id, b.1.generation, data, now, capacity, processCap).0;
       BeginStep(r, start, |data|, who, later).1 != Hit(data)
  }

  /** A load for which the other caches leave no room is not kept. */
  lemma NoRoomNotCached<T>(s: Inner<T>, total: nat, start: nat, id: nat, data: seq<T>, now: nat,
                           capacity: nat, processCap: nat)
    requires Accounted(s, capacity) && s.bytes <= total && Registered(s, start, id)
    requires total - s.bytes + |data| > processCap
    requires !(start in s.entries && |s.entries[start].data| == |data|)
    ensures var r := CompleteStep(s, total, start, id, s.generation, data, now, capacity, processCap).0;
            !(start in r.entries && |r.entries[start].data| == |data|)
  {
    var s1 := Unregister(s, start, id);
    DropKeeps(s1, capacity, {start});
    hide Accounted, Evict, SumLen, Only;
  }

  lemma EntryFits<T>(s: Inner<T>, capacity: nat, start: nat)
    requires Accounted(s, capacity) && start in s.entries
    ensures |s.entries[start].data| <= capacity
  {
    SumLenAt(s.entries, start);
  }

  /** A read of a non-empty extent is admitted exactly when the cache could ever hold the extent and the
      read is not futile: it hits, or shares a load under way, or leads one that will be kept. */
  lemma AdmitsExactly<T>(s: Inner<T>, total: nat, start: nat, data: seq<T>, who: nat, now: nat, later: nat,
                         capacity: nat, processCap: nat)
    requires Accounted(s, capacity) && s.bytes <= total
    ensures data != [] ==>
              (Admitted(s, total, start, |data|, capacity, processCap) <==>
                 |data| <= capacity && !Futile(s, total, start, data, who, now, later, capacity, processCap))
  {
    var b := BeginStep(s, start, |data|, who, now);
    BeginKeeps(s, capacity, start, |data|, who, now);
    OneFlight(s, start, |data|, who, now);
    if start in s.entries {
      EntryFits(s, capacity, start);
    }
    if b.1.Lead? && 0 < |data| <= capacity {
      hide Accounted;
      if total - s.bytes + |data| <= processCap {
        LoadIsCached(b.0, total, start, b.1.id, data, now, capacity, processCap, who, later);
      } else {
        NoRoomNotCached(b.0, total, start, b.1.id, data, now, capacity, processCap);
      }
      hide CompleteStep;
    }
  }

  /** Invalidating a range removes exactly the entries and the loads that overlap it. */
  lemma InvalidatesExactly<T>(s: Inner<T>, capacity: nat, offset: nat, len: nat)
    requires Accounted(s, capacity)
    ensures SumLen(Only(s.entries, Touched(s, offset, RangeEnd(offset, len)))) <= s.bytes
    ensures var r, end := InvalidateStep(s, offset, len), Min(offset + len, 0xffff_ffff_ffff_ffff);
            && (forall k :: k in r.entries <==> k in s.entries && !Overlaps(k, |s.entries[k].data|, offset, end))
            && (forall k | k in r.entries :: r.entries[k] == s.entries[k])
            && (forall k :: k in r.inflight <==> k in s.inflight && !Overlaps(k, s.inflight[k].len, offset, end))
            && (r.generation != s.generation <==> r.entries != s.entries || r.inflight != s.inflight)
  {
    var end := RangeEnd(offset, len);
    var gone := Touched(s, offset, end);
    DropKeeps(s, capacity, gone);
    InvalidateIs(s, offset, len);
    var kept := Drop(s, gone).entries;
    assert kept == s.entries - gone;
    hide InvalidateStep, Accounted, SumLen, Only, Drop, RangeEnd;
    var loads := Untouched(s.inflight, offset, end);
    SubMapSize(kept, s.entries);
    SubMapSize(loads, s.inflight);
  }

  lemma SubMapSize<K, V>(a: map<K, V>, b: map<K, V>)
    requires a.Keys <= b.Keys && forall k | k in a :: a[k] == b[k]
    ensures |a| <= |b|
    ensures |a| == |b| ==> a == b
  {
    assert b.Keys == a.Keys + (b.Keys - a.Keys);
    if |a| == |b| {
      assert b.Keys - a.Keys == {};
    }
  }

  lemma Ticks<T>(s: Inner<T>, capacity: nat, k: nat)
    requires Accounted(s, capacity) && k in s.entries
    ensures s.entries[k].used in s.lru && s.lru[s.entries[k].used] == k
    ensures s.lru != map[]
  {
  }

  // ----- the cache -----

  /** The byte total all caches of the process share. */
  class ProcessTotal {
    var value: nat

    constructor ()
      ensures value == 0
    {
      value := 0;
    }
  }

  /** The bytes a set of entries frees, and the recency map without them. */
  method Tally<T>(s: Inner<T>, ghost capacity: nat, gone: set<nat>) returns (freed: nat, lru: map<nat, nat>)
    requires Accounted(s, capacity) && gone <= s.entries.Keys
    ensures freed == SumLen(Only(s.entries, gone)) && lru == Without(s.lru, gone)
  {
    hide SumLen, Only, Without, Accounted;
    var left := gone;
    freed := 0;
    lru := s.lru;
    NothingFreed(s);
    assert gone - left == {};
    while left != {}
      invariant left <= gone
      invariant freed == SumLen(Only(s.entries, gone - left))
      invariant lru == Without(s.lru, gone - left)
      decreases |left|
    {
      var k :| k in left;
      FreedMore(s, capacity, gone - left, k);
      assert gone - (left - {k}) == gone - left + {k};
      freed := freed + |s.entries[k].data|;
      lru := lru - {s.entries[k].used};
      left := left - {k};
    }
    assert gone - {} == gone;
  }

  class Cache<T(!new)> {
    const capacity: nat
    const processCap: nat
    const total: ProcessTotal
    var inner: Inner<T>
    var active: bool

    /** What the cache holds is accounted, counted in the total, and announced by `active`. */
    ghost predicate Valid()
      reads this, total
    {
      && Accounted(inner, capacity)
      && inner.bytes <= total.value
      && (active <==> inner.entries != map[] || inner.inflight != map[])
    }

    /** The total moved by exactly what this cache gained or lost, and never past the cap. */
    twostate predicate Settled()
      reads this, total
    {
      && total.value - old(total.value) == inner.bytes - old(inner.bytes)
      && (old(total.value) <= processCap ==> total.value <= processCap)
    }

    constructor (capacity: nat, total: ProcessTotal, processCap: nat)
      ensures Valid() && inner == Fresh<T>()
      ensures this.capacity == capacity && this.total == total && this.processCap == processCap
    {
      this.capacity, this.total, this.processCap := capacity, total, processCap;
      inner, active := Fresh<T>(), false;
    }

    method RefreshActive()
      modifies `active
      ensures active <==> inner.entries != map[] || inner.inflight != map[]
    {
      active := inner.entries != map[] || inner.inflight != map[];
    }

    method Admits(start: nat, len: nat) returns (ok: bool)
      requires Valid()
      ensures ok <==> Admitted(inner, total.value, start, len, capacity, processCap)
    {
      if len > capacity {
        return false;
      }
      ok := || (start in inner.entries && |inner.entries[start].data| == len)
            || (start in inner.inflight && inner.inflight[start].len == len)
            || total.value - inner.bytes + len <= processCap;
    }

    /** The first locked section of a read. */
    method Begin(start: nat, len: nat, who: nat, now: nat) returns (role: Role<T>)
      requires Valid()
      modifies this
      ensures Valid() && (inner, role) == BeginStep(old(inner), start, len, who, now)
    {
      BeginKeeps(inner, capacity, start, len, who, now);
      inner := inner.(tick := inner.tick + 1);
      if start in inner.entries && |inner.entries[start].data| == len {
        var e := inner.entries[start];
        inner := inner.(lru := inner.lru - {e.used});
        inner := inner.(entries := inner.entries[start := e.(used := inner.tick, last := now)],
                        lru := inner.lru[inner.tick := start]);
        role := Hit(e.data);
      } else if start in inner.inflight && inner.inflight[start].len == len {
        var f := inner.inflight[start];
        inner := inner.(inflight := inner.inflight[start := f.(waiters := f.waiters + [who])]);
        role := Wait(f.id);
      } else {
        inner := inner.(nextId := inner.nextId + 1);
        inner := inner.(inflight := inner.inflight[start := Inflight(inner.nextId, len, [])]);
        role := Lead(inner.nextId, inner.generation);
      }
      RefreshActive();
    }

    /** Leaving a read that led a load: a load still registered is withdrawn. */
    method DropGuard(start: nat, id: nat)
      requires Valid()
      modifies this
      ensures Valid() && inner == Unregister(old(inner), start, id)
    {
      if start in inner.inflight && inner.inflight[start].id == id {
        inner := inner.(inflight := inner.inflight - {start});
      }
      RefreshActive();
    }

    /** Removes a set of entries one by one and returns their bytes to the process. */
    method Remove(gone: set<nat>)
      requires Accounted(inner, capacity) && inner.bytes <= total.value && gone <= inner.entries.Keys
      modifies `inner, total
      ensures SumLen(Only(old(inner).entries, gone)) <= old(inner).bytes
      ensures inner == Drop(old(inner), gone) && Accounted(inner, capacity)
      ensures inner.bytes <= total.value && Settled()
    {
      DropKeeps(inner, capacity, gone);
      DropIs(inner, gone);
      hide Drop, SumLen, Only, Without, Accounted;
      var freed, lru := Tally(inner, capacity, gone);
      inner := inner.(entries := inner.entries - gone, lru := lru, bytes := inner.bytes - freed);
      total.value := total.value - freed;
    }

    method InvalidateAll()
      requires Valid()
      modifies this, total
      ensures Valid() && Settled()
      ensures inner == InvalidateAllStep(old(inner))
    {
      if !active {
        return;
      }
      inner := inner.(generation := inner.generation + 1, entries := map[], lru := map[]);
      total.value := total.value - inner.bytes;
      inner := inner.(bytes := 0, inflight := map[]);
      RefreshActive();
    }

    method InvalidateRange(offset: nat, len: nat)
      requires Valid()
      modifies this, total
      ensures Valid() && Settled()
      ensures SumLen(Only(old(inner).entries, Touched(old(inner), offset, RangeEnd(offset, len)))) <= old(inner).bytes
      ensures inner == InvalidateStep(old(inner), offset, len)
    {
      hide *;
      ghost var s := inner;
      var end := RangeEnd(offset, len);
      Parts();
      DropKeeps(inner, capacity, Touched(inner, offset, end));
      if !active {
        AllTicked(s, capacity);
        InactiveSkips(s, offset, len);
        SettledIs();
        return;
      }
      InvalidateIs(s, offset, len);
      var before := |inner.entries| + |inner.inflight|;
      Remove(Touched(inner, offset, end));
      SettledIs();
      inner := inner.(inflight := Untouched(inner.inflight, offset, end));
      if |inner.entries| + |inner.inflight| != before {
        inner := inner.(generation := inner.generation + 1);
      }
      AccountedSame(Drop(s, Touched(s, offset, end)), inner, capacity);
      RefreshActive();
      Parts();
      SettledIs();
    }

    twostate lemma SettledIs()
      ensures Settled() <==>
        && total.value - old(total.value) == inner.bytes - old(inner.bytes)
        && (old(total.value) <= processCap ==> total.value <= processCap)
    {
    }

    lemma Parts()
      ensures Valid() <==>
        && Accounted(inner, capacity)
        && inner.bytes <= total.value
        && (active <==> inner.entries != map[] || inner.inflight != map[])
    {
    }

    method TrimIdle(now: nat)
      requires Valid()
      modifies this, total
      ensures Valid() && Settled()
      ensures SumLen(Only(old(inner).entries, Idle(old(inner), now))) <= old(inner).bytes
      ensures inner == Drop(old(inner), Idle(old(inner), now))
    {
      DropKeeps(inner, capacity, Idle(inner, now));
      if !active {
        DropsNothing(inner, Idle(inner, now));
        return;
      }
      Remove(Idle(inner, now));
      RefreshActive();
    }

    /** The second locked section of a read that led a load. */
    method Complete(start: nat, id: nat, generation: nat, data: seq<T>, now: nat)
      requires Valid()
      modifies this, total
      ensures Valid() && Settled()
      ensures (inner, total.value)
           == CompleteStep(old(inner), old(total.value), start, id, generation, data, now, capacity, processCap)
    {
      var len := |data|;
      var ours := start in inner.inflight && inner.inflight[start].id == id;
      if ours {
        inner := inner.(inflight := inner.inflight - {start});
        if inner.generation == generation && len > 0 && len <= capacity {
          StoreLoaded(start, data, now);
        }
      }
      RefreshActive();
    }

    method StoreLoaded(start: nat, data: seq<T>, now: nat)
      requires Accounted(inner, capacity) && inner.bytes <= total.value
      modifies `inner, total
      ensures (inner, total.value)
           == Store(old(inner), old(total.value), start, data, now, capacity, processCap)
    {
      hide Evict, Accounted, SumLen, Drop, Only, Insert;
      var len := |data|;
      DropKeeps(inner, capacity, {start});
      AllTicked(inner, capacity);
      if start in inner.entries {
        Remove({start});
      } else {
        DropsNothing(inner, {start});
      }
      if total.value - inner.bytes + len <= processCap {
        EvictFor(len);
      }
      if inner.bytes + len <= capacity && total.value + len <= processCap {
        total.value := total.value + len;
        inner := Insert(inner, start, data, now);
      }
    }

    method EvictFor(len: nat)
      requires Accounted(inner, capacity) && inner.bytes <= total.value
      modifies `inner, total
      ensures (inner, total.value) == Evict(old(inner), old(total.value), len, capacity, processCap)
    {
      hide Evict, Accounted, SumLen, Drop;
      while inner.bytes + len > capacity || total.value + len > processCap
        invariant Accounted(inner, capacity) && inner.bytes <= total.value
        invariant Evict(old(inner), old(total.value), len, capacity, processCap)
               == Evict(inner, total.value, len, capacity, processCap)
        decreases |inner.lru|
      {
        if inner.lru == map[] {
          break;
        }
        LeastTickExists(inner.lru);
        var t :| t in inner.lru && forall u | u in inner.lru :: t <= u;
        var k := inner.lru[t];
        EvictTurn(inner, total.value, len, capacity, processCap, t);
        var n := |inner.entries[k].data|;
        inner := inner.(lru := inner.lru - {t}, entries := inner.entries - {k}, bytes := inner.bytes - n);
        total.value := total.value - n;
      }
      EvictDone(inner, total.value, len, capacity, processCap);
    }
  }

  lemma InvalidateIs<T>(s: Inner<T>, offset: nat, len: nat)
    requires SumLen(Only(s.entries, Touched(s, offset, RangeEnd(offset, len)))) <= s.bytes
    ensures Touched(s, offset, RangeEnd(offset, len)) <= s.entries.Keys
    ensures InvalidateStep(s, offset, len)
         == var end := RangeEnd(offset, len);
            var r := Drop(s, Touched(s, offset, end)).(inflight := Untouched(s.inflight, offset, end));
            if |r.entries| + |r.inflight| != |s.entries| + |s.inflight|
            then r.(generation := s.generation + 1) else r
    ensures Drop(s, Touched(s, offset, RangeEnd(offset, len))).inflight == s.inflight
    ensures Drop(s, Touched(s, offset, RangeEnd(offset, len))).generation == s.generation
  {
  }

  lemma AccountedSame<T>(s: Inner<T>, s': Inner<T>, capacity: nat)
    requires Accounted(s, capacity) && s' == s.(inflight := s'.inflight, generation := s'.generation)
    ensures Accounted(s', capacity)
  {
  }

  lemma AllTicked<T>(s: Inner<T>, capacity: nat)
    requires Accounted(s, capacity)
    ensures forall t | t in s.lru :: s.lru[t] in s.entries
  {
  }

  lemma NothingFreed<T>(s: Inner<T>)
    ensures SumLen(Only(s.entries, {})) == 0 && Without(s.lru, {}) == s.lru
  {
    assert Only(s.entries, {}) == map[];
  }

  lemma FreedMore<T>(s: Inner<T>, capacity: nat, gone: set<nat>, k: nat)
    requires Accounted(s, capacity) && k in s.entries && k !in gone
    ensures SumLen(Only(s.entries, gone + {k})) == SumLen(Only(s.entries, gone)) + |s.entries[k].data|
    ensures Without(s.lru, gone + {k}) == Without(s.lru, gone) - {s.entries[k].used}
  {
    SumLenAt(Only(s.entries, gone + {k}), k);
    assert Only(s.entries, gone + {k}) - {k} == Only(s.entries, gone);
    hide SumLen;
    assert s.lru[s.entries[k].used] == k;
  }

  lemma DropIs<T>(s: Inner<T>, gone: set<nat>)
    requires SumLen(Only(s.entries, gone)) <= s.bytes
    ensures Drop(s, gone)
         == s.(entries := s.entries - gone, lru := Without(s.lru, gone),
               bytes := s.bytes - SumLen(Only(s.entries, gone)))
  {
  }

  lemma EvictTurn<T>(s: Inner<T>, total: nat, len: nat, capacity: nat, processCap: nat, t: nat)
    requires Accounted(s, capacity) && s.bytes <= total && LeastTick(s.lru, t)
    requires Tight(s.bytes, total, len, capacity, processCap)
    ensures var k := s.lru[t];
            && k in s.entries && s.entries[k].used == t && |s.entries[k].data| <= s.bytes
            && SumLen(Only(s.entries, {k})) <= s.bytes
            && var s' := s.(entries := s.entries - {k}, lru := s.lru - {t}, bytes := s.bytes - |s.entries[k].data|);
               && s' == Drop(s, {k}) && Accounted(s', capacity) && |s'.lru| < |s.lru|
               && Evict(s, total, len, capacity, processCap)
               == Evict(s', total - |s.entries[k].data|, len, capacity, processCap)
  {
    var k := s.lru[t];
    assert LeastRecent(s.lru) == t;
    DropOne(s, capacity, k);
  }

  lemma EvictDone<T>(s: Inner<T>, total: nat, len: nat, capacity: nat, processCap: nat)
    requires Accounted(s, capacity) && s.bytes <= total
    requires !Tight(s.bytes, total, len, capacity, processCap) || s.lru == map[]
    ensures Evict(s, total, len, capacity, processCap) == (s, total)
  {
  }

  lemma DropsNothing<T>(s: Inner<T>, gone: set<nat>)
    requires forall k | k in gone :: k !in s.entries
    requires forall t | t in s.lru :: s.lru[t] in s.entries
    ensures SumLen(Only(s.entries, gone)) == 0 && Drop(s, gone) == s
  {
    assert Only(s.entries, gone) == map[];
    assert s.entries - gone == s.entries;
    assert Without(s.lru, gone) == s.lru;
  }

  lemma InactiveSkips<T>(s: Inner<T>, offset: nat, len: nat)
    requires s.entries == map[] && s.inflight == map[]
    requires forall t | t in s.lru :: s.lru[t] in s.entries
    ensures SumLen(Only(s.entries, Touched(s, offset, RangeEnd(offset, len)))) <= s.bytes
    ensures InvalidateStep(s, offset, len) == s
  {
    DropsNothing(s, Touched(s, offset, RangeEnd(offset, len)));
    assert Untouched(s.inflight, offset, RangeEnd(offset, len)) == s.inflight;
  }

  // ----- many caches, one total -----

  ghost function SumBytes<T>(cs: seq<Inner<T>>): nat {
    if cs == [] then 0 else cs[0].bytes + SumBytes(cs[1..])
  }

  /** The process total is what all caches hold together, and it respects the cap. */
  ghost predicate Process<T>(cs: seq<Inner<T>>, total: nat, cap: nat) {
    total == SumBytes(cs) <= cap
  }

  lemma {:induction false} SumBytesUpdate<T>(cs: seq<Inner<T>>, i: nat, c: Inner<T>)
    requires i < |cs|
    ensures cs[i].bytes <= SumBytes(cs)
    ensures SumBytes(cs[i := c]) == SumBytes(cs) - cs[i].bytes + c.bytes
  {
    if i == 0 {
      assert cs[0 := c][1..] == cs[1..];
    } else {
      assert cs[i := c][1..] == cs[1..][i - 1 := c];
      SumBytesUpdate(cs[1..], i - 1, c);
    }
  }

  /** What a cache can do: the locked sections of a read, the withdrawal of a load, and the ways of
      forgetting. A cache that closes returns everything. */
  datatype Op<T> =
    | Begins(start: nat, len: nat, who: nat, now: nat)
    | Finishes(start: nat, id: nat, generation: nat, data: seq<T>, now: nat)
    | Withdraws(start: nat, id: nat)
    | Invalidates(offset: nat, len: nat)
    | Forgets
    | Trims(now: nat)
    | Closes

  /** The cache after an operation, and the process total after it. */
  ghost function Operate<T>(s: Inner<T>, total: nat, op: Op<T>, capacity: nat, cap: nat): (r: (Inner<T>, nat))
    requires Accounted(s, capacity) && s.bytes <= total
  {
    match op
    case Begins(start, len, who, now) => (BeginStep(s, start, len, who, now).0, total)
    case Finishes(start, id, generation, data, now) =>
      CompleteStep(s, total, start, id, generation, data, now, capacity, cap)
    case Withdraws(start, id) => (Unregister(s, start, id), total)
    case Invalidates(offset, len) =>
      DropKeeps(s, capacity, Touched(s, offset, RangeEnd(offset, len)));
      var r := InvalidateStep(s, offset, len);
      (r, total - (s.bytes - r.bytes))
    case Forgets => (InvalidateAllStep(s), total - (s.bytes - InvalidateAllStep(s).bytes))
    case Trims(now) =>
      DropKeeps(s, capacity, Idle(s, now));
      var r := Drop(s, Idle(s, now));
      (r, total - (s.bytes - r.bytes))
    case Closes => (Fresh<T>(), total - s.bytes)
  }

  lemma OperateSettles<T>(s: Inner<T>, total: nat, op: Op<T>, capacity: nat, cap: nat)
    requires Accounted(s, capacity) && s.bytes <= total
    ensures var r := Operate(s, total, op, capacity, cap);
            && Accounted(r.0, capacity) && r.0.bytes - s.bytes == r.1 - total
            && (total <= cap ==> r.1 <= cap)
  {
    match op
    case Begins(start, len, who, now) => BeginKeeps(s, capacity, start, len, who, now);
    case Finishes(_, _, _, _, _) =>
    case Withdraws(start, id) => AccountedSame(s, Unregister(s, start, id), capacity);
    case Invalidates(offset, len) =>
      var gone := Touched(s, offset, RangeEnd(offset, len));
      DropKeeps(s, capacity, gone);
      InvalidateIs(s, offset, len);
      AccountedSame(Drop(s, gone), InvalidateStep(s, offset, len), capacity);
    case Forgets =>
      assert SumLen<T>(map[]) == 0;
      ForgetIs(s, capacity);
    case Trims(now) => DropKeeps(s, capacity, Idle(s, now));
    case Closes => assert SumLen<T>(map[]) == 0;
  }

  lemma ForgetIs<T>(s: Inner<T>, capacity: nat)
    requires Accounted(s, capacity)
    ensures Accounted(InvalidateAllStep(s), capacity) && InvalidateAllStep(s).bytes <= s.bytes
  {
    assert SumLen<T>(map[]) == 0;
  }

  /** A cache of the process, with its own capacity. */
  datatype Member<T> = Member(inner: Inner<T>, capacity: nat)

  ghost predicate AllAccounted<T>(ms: seq<Member<T>>) {
    forall i | 0 <= i < |ms| :: Accounted(ms[i].inner, ms[i].capacity)
  }

  function InnersOf<T>(ms: seq<Member<T>>): (cs: seq<Inner<T>>)
    ensures |cs| == |ms| && forall i | 0 <= i < |ms| :: cs[i] == ms[i].inner
  {
    seq(|ms|, i requires 0 <= i < |ms| => ms[i].inner)
  }

  /** Every cache accounted, and the total exactly what they hold together, within the cap. */
  ghost predicate PoolOk<T>(ms: seq<Member<T>>, total: nat, cap: nat) {
    AllAccounted(ms) && Process(InnersOf(ms), total, cap)
  }

  /** Whatever any one cache does keeps every cache accounted and the total exact and within the cap;
      no subtraction goes below zero, since each cache finds at least its own bytes in the total. */
  lemma ProcessKeeps<T>(ms: seq<Member<T>>, total: nat, cap: nat, i: nat, op: Op<T>)
    requires PoolOk(ms, total, cap) && i < |ms|
    ensures ms[i].inner.bytes <= total
    ensures var r := Operate(ms[i].inner, total, op, ms[i].capacity, cap);
            PoolOk(ms[i := ms[i].(inner := r.0)], r.1, cap)
  {
    var m := ms[i];
    SumBytesUpdate(InnersOf(ms), i, m.inner);
    OperateSettles(m.inner, total, op, m.capacity, cap);
    hide Operate, Accounted;
    var r := Operate(m.inner, total, op, m.capacity, cap);
    SumBytesUpdate(InnersOf(ms), i, r.0);
    assert InnersOf(ms[i := m.(inner := r.0)]) == InnersOf(ms)[i := r.0];
  }

  datatype Pooled<T> = Pooled(members: seq<Member<T>>, total: nat)

  datatype Turn<T> = Opens(capacity: nat) | Acts(i: nat, op: Op<T>)

  ghost predicate Moves<T>(p: Pooled<T>, t: Turn<T>, q: Pooled<T>, cap: nat) {
    match t
    case Opens(capacity) => q == p.(members := p.members + [Member(Fresh<T>(), capacity)])
    case Acts(i, op) =>
      && i < |p.members| && Accounted(p.members[i].inner, p.members[i].capacity) && p.members[i].inner.bytes <= p.total
      && var r := Operate(p.members[i].inner, p.total, op, p.members[i].capacity, cap);
         q == Pooled(p.members[i := p.members[i].(inner := r.0)], r.1)
  }

  ghost predicate PoolRun<T>(ps: seq<Pooled<T>>, ts: seq<Turn<T>>, cap: nat) {
    && |ps| == |ts| + 1 && ps[0] == Pooled([], 0)
    && forall k | 0 <= k < |ts| :: Moves(ps[k], ts[k], ps[k + 1], cap)
  }

  /** Over every run of any number of caches: bytes are the sum of entry lengths and within capacity in
      each, recency is one-to-one, and the total is their sum and within the process cap. */
  lemma {:induction false} AlwaysAccounted<T>(ps: seq<Pooled<T>>, ts: seq<Turn<T>>, cap: nat, k: nat)
    requires PoolRun(ps, ts, cap) && k < |ps|
    ensures PoolOk(ps[k].members, ps[k].total, cap)
  {
    if k == 0 {
    } else {
      AlwaysAccounted(ps, ts, cap, k - 1);
      var p := ps[k - 1];
      assert Moves(p, ts[k - 1], ps[k], cap);
      match ts[k - 1]
      case Opens(capacity) => OpeningKeeps(p.members, p.total, cap, capacity);
      case Acts(i, op) => ProcessKeeps(p.members, p.total, cap, i, op);
    }
  }

  lemma OpeningKeeps<T>(ms: seq<Member<T>>, total: nat, cap: nat, capacity: nat)
    requires PoolOk(ms, total, cap)
    ensures PoolOk(ms + [Member(Fresh<T>(), capacity)], total, cap)
  {
    var more := ms + [Member(Fresh<T>(), capacity)];
    assert SumLen<T>(map[]) == 0;
    assert Accounted(Fresh<T>(), capacity);
    SumBytesSnoc(InnersOf(ms), Fresh<T>());
    assert InnersOf(more) == InnersOf(ms) + [Fresh<T>()];
  }

  lemma {:induction false} SumBytesSnoc<T>(cs: seq<Inner<T>>, c: Inner<T>)
    ensures SumBytes(cs + [c]) == SumBytes(cs) + c.bytes
  {
    if cs == [] {
      assert [c][1..] == [] && cs + [c] == [c];
    } else {
      assert (cs + [c])[1..] == cs[1..] + [c];
      SumBytesSnoc(cs[1..], c);
    }
  }
}
