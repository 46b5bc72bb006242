/**
 Reads through the cache, their loads and block writes, interleaved step by step and byte by byte.
 The cache sections are the steps of `ReadCache`, run on bytes that carry the number of the disk
 write that made them, so that "not older" can be said. Every step keeps each cached extent and each
 registered load equal to the disk wherever no unfinished write covers it.
 */
module CacheCoherence {
  import opened Common
  import opened ReadCache

  datatype Cell = Cell(value: Byte, stamp: nat)

  datatype Extent = Extent(offset: nat, len: nat)

  /** `floor` is, per byte, the newest stamp some finished write had left when the read began. */
  datatype Reader =
    | Leading(start: nat, len: nat, id: nat, generation: nat, got: map<nat, Cell>, floor: seq<nat>)
    | Waiting(start: nat, len: nat, id: nat, floor: seq<nat>)
    | Done(start: nat, len: nat, data: seq<Cell>, floor: seq<nat>)
    | Aborted(floor: seq<nat>)

  datatype World = World(
    inner: Inner<Cell>,
    capacity: nat,
    disk: seq<Cell>,
    floor: seq<nat>,
    clock: nat,
    pending: map<nat, Extent>,
    readers: map<nat, Reader>)

  datatype Step =
    | BeginRead(r: nat, start: nat, len: nat, now: nat)
    | ReadByte(r: nat, o: nat)
    | FinishRead(r: nat, total: nat, processCap: nat, now: nat)
    | AbortRead(r: nat)
    | BeginWrite(w: nat, offset: nat, len: nat)
    | WriteByte(w: nat, o: nat, value: Byte)
    | EndWrite(w: nat)
    | ForgetAll
    | Trim(now: nat)

  predicate Within(e: Extent, o: nat) { e.offset <= o < e.offset + e.len }

  /** Some write that has started and not yet invalidated its range covers the byte. */
  predicate Covered(pending: map<nat, Extent>, o: nat) {
    exists w :: w in pending && Within(pending[w], o)
  }

  // ----- the steps -----

  ghost function Invalidated(s: Inner<Cell>, capacity: nat, offset: nat, len: nat): Inner<Cell>
    requires Accounted(s, capacity)
  {
    DropKeeps(s, capacity, Touched(s, offset, RangeEnd(offset, len)));
    InvalidateStep(s, offset, len)
  }

  ghost function Trimmed(s: Inner<Cell>, capacity: nat, now: nat): Inner<Cell>
    requires Accounted(s, capacity)
  {
    DropKeeps(s, capacity, Idle(s, now));
    Drop(s, Idle(s, now))
  }

  predicate Complete(r: Reader) {
    r.Leading? && forall o | r.start <= o < r.start + r.len :: o in r.got
  }

  function Loaded(r: Reader): seq<Cell>
    requires Complete(r)
  {
    seq(r.len, i requires 0 <= i < r.len => r.got[r.start + i])
  }

  /** A finished load goes to its leader, and to its waiters if it is still registered. */
  function Deliver(w: World, r: nat, data: seq<Cell>): map<nat, Reader>
    requires r in w.readers && w.readers[r].Leading?
  {
    var l := w.readers[r];
    map x | x in w.readers ::
      if x == r || (Registered(w.inner, l.start, l.id) && x in w.inner.inflight[l.start].waiters)
      then Done(l.start, l.len, data, w.readers[x].floor) else w.readers[x]
  }

  predicate Enabled(w: World, s: Step) {
    match s
    case BeginRead(r, start, len, _) => r !in w.readers && start + len <= |w.disk|
    case ReadByte(r, o) =>
      r in w.readers && w.readers[r].Leading? && o < |w.disk|
      && w.readers[r].start <= o < w.readers[r].start + w.readers[r].len && o !in w.readers[r].got
    case FinishRead(r, total, _, _) => r in w.readers && Complete(w.readers[r]) && w.inner.bytes <= total
    case AbortRead(r) => r in w.readers && (w.readers[r].Leading? || w.readers[r].Waiting?)
    case BeginWrite(x, offset, len) => x !in w.pending && offset + len <= |w.disk|
    case WriteByte(x, o, _) => x in w.pending && o < |w.disk| && Within(w.pending[x], o)
    case EndWrite(x) => x in w.pending
    case ForgetAll => true
    case Trim(_) => true
  }

  function ReaderFor(role: Role<Cell>, start: nat, len: nat, floor: seq<nat>): Reader {
    match role
    case Hit(data) => Done(start, len, data, floor)
    case Wait(id) => Waiting(start, len, id, floor)
    case Lead(id, generation) => Leading(start, len, id, generation, map[], floor)
  }

  ghost function Apply(w: World, s: Step): World
    requires Enabled(w, s) && Accounted(w.inner, w.capacity) && |w.floor| == |w.disk|
  {
    match s
    case BeginRead(r, start, len, now) =>
      var (inner, role) := BeginStep(w.inner, start, len, r, now);
      w.(inner := inner, readers := w.readers[r := ReaderFor(role, start, len, w.floor)])
    case ReadByte(r, o) =>
      var l := w.readers[r];
      w.(readers := w.readers[r := l.(got := l.got[o := w.disk[o]])])
    case FinishRead(r, total, processCap, now) =>
      var l := w.readers[r];
      var data := Loaded(l);
      w.(inner := CompleteStep(w.inner, total, l.start, l.id, l.generation, data, now, w.capacity, processCap).0,
         readers := Deliver(w, r, data))
    case AbortRead(r) =>
      var l := w.readers[r];
      w.(inner := if l.Leading? then Unregister(w.inner, l.start, l.id) else Dismiss(w.inner, l.start, r),
         readers := w.readers[r := Aborted(l.floor)])
    case BeginWrite(x, offset, len) => w.(pending := w.pending[x := Extent(offset, len)])
    case WriteByte(x, o, value) =>
      w.(disk := w.disk[o := Cell(value, w.clock + 1)], clock := w.clock + 1)
    case EndWrite(x) =>
      var e := w.pending[x];
      w.(inner := Invalidated(w.inner, w.capacity, e.offset, e.len),
         pending := w.pending - {x},
         floor := seq(|w.disk|, o requires 0 <= o < |w.disk| =>
           if Within(e, o) then w.disk[o].stamp else w.floor[o]))
    case ForgetAll => w.(inner := InvalidateAllStep(w.inner))
    case Trim(now) => w.(inner := Trimmed(w.inner, w.capacity, now))
  }

  /** A reader that gives up waiting no longer listens. */
  function Dismiss(s: Inner<Cell>, start: nat, r: nat): Inner<Cell> {
    if start in s.inflight then
      s.(inflight := s.inflight[start := s.inflight[start].(waiters := WithoutReader(s.inflight[start].waiters, r))])
    else s
  }

  function WithoutReader(xs: seq<nat>, r: nat): (ys: seq<nat>)
    ensures forall y | y in ys :: y in xs && y != r
  {
    if xs == [] then [] else (if xs[0] == r then [] else [xs[0]]) + WithoutReader(xs[1..], r)
  }

  // ----- the invariant -----

  /** No older than the floor at a byte. */
  predicate Above(floor: seq<nat>, o: nat, c: Cell) { o < |floor| && floor[o] <= c.stamp }

  /** A copy of a byte that may be served: no older than the last finished write, and equal to the
      disk unless a write covering it is under way. */
  predicate Current(w: World, o: nat, c: Cell) {
    && o < |w.disk| && Above(w.floor, o, c)
    && (c == w.disk[o] || Covered(w.pending, o))
  }

  predicate EntryCurrent(w: World, k: nat, data: seq<Cell>) {
    forall i | 0 <= i < |data| :: Current(w, k + i, data[i])
  }

  predicate FloorBelow(f: seq<nat>, g: seq<nat>) { |f| == |g| && forall o | 0 <= o < |f| :: f[o] <= g[o] }

  predicate LoadCurrent(w: World, r: Reader)
    requires r.Leading?
  {
    forall o | o in r.got :: Current(w, o, r.got[o])
  }

  /** A read has the length it asked for, and nothing in it is older than what a write had finished
      leaving when the read began. */
  predicate NotOlder(r: Reader)
    requires r.Done?
  {
    |r.data| == r.len
    && forall i | 0 <= i < |r.data| :: Above(r.floor, r.start + i, r.data[i])
  }

  predicate InExtent(r: Reader)
    requires r.Leading?
  {
    forall o | o in r.got :: r.start <= o < r.start + r.len
  }

  predicate ReaderOk(w: World, r: Reader) {
    && FloorBelow(r.floor, w.floor)
    && (r.Leading? ==>
         && r.id <= w.inner.nextId
         && InExtent(r)
         && (forall o | o in r.got :: Above(r.floor, o, r.got[o]))
         && (Registered(w.inner, r.start, r.id) ==> w.inner.inflight[r.start].len == r.len && LoadCurrent(w, r)))
    && (r.Done? ==> NotOlder(r))
  }

  /** Waiters wait for the load they are listed under. */
  predicate WaitersOk(w: World, start: nat, f: Inflight) {
    && f.id <= w.inner.nextId
    && forall x | x in f.waiters ::
         x in w.readers && w.readers[x].Waiting? && w.readers[x].start == start && w.readers[x].len == f.len
  }

  predicate DiskOk(w: World) {
    && |w.floor| == |w.disk| <= MAX_OFFSET
    && (forall o | 0 <= o < |w.disk| :: w.floor[o] <= w.disk[o].stamp <= w.clock)
    && (forall x | x in w.pending :: w.pending[x].offset + w.pending[x].len <= |w.disk|)
  }

  ghost predicate Inv(w: World) {
    && Accounted(w.inner, w.capacity)
    && DiskOk(w)
    && EntriesOk(w)
    && ReadersOk(w)
    && IdsDistinct(w)
    && InflightOk(w)
  }

  predicate EntriesOk(w: World) {
    forall k | k in w.inner.entries :: EntryCurrent(w, k, w.inner.entries[k].data)
  }

  predicate ReadersOk(w: World) { forall r | r in w.readers :: ReaderOk(w, w.readers[r]) }

  predicate IdsDistinct(w: World) {
    forall q, r | q in w.readers && r in w.readers && q != r && w.readers[q].Leading? && w.readers[r].Leading? ::
      w.readers[q].id != w.readers[r].id
  }

  predicate InflightOk(w: World) {
    forall k | k in w.inner.inflight :: WaitersOk(w, k, w.inner.inflight[k])
  }

  /** Steps of the cache and its readers leave the disk and the writes alone. */
  predicate SameDisk(w: World, w': World) {
    w'.disk == w.disk && w'.floor == w.floor && w'.pending == w.pending && w'.clock == w.clock
  }

  lemma EntryMoves(w: World, w': World, k: nat, data: seq<Cell>)
    requires SameDisk(w, w') && EntryCurrent(w, k, data)
    ensures EntryCurrent(w', k, data)
  {
    hide Covered;
  }

  /** A reader that is unchanged stays in order when its load's registration is not touched. */
  lemma ReaderMoves(w: World, w': World, r: Reader)
    requires SameDisk(w, w') && ReaderOk(w, r) && w.inner.nextId <= w'.inner.nextId
    requires r.Leading? && Registered(w'.inner, r.start, r.id) ==>
      Registered(w.inner, r.start, r.id) && w'.inner.inflight[r.start].len == w.inner.inflight[r.start].len
    ensures ReaderOk(w', r)
  {
    hide Covered;
  }

  // ----- every step keeps it -----

  /** Every copy that was current in `w` is current in `w'`, outside the bytes of `except`. */
  ghost predicate StaysCurrent(w: World, w': World, except: Extent) {
    forall o, c :: Current(w, o, c) && !Within(except, o) ==> Current(w', o, c)
  }

  const NOWHERE := Extent(0, 0)

  lemma DoBeginRead(w: World, s: Step)
    requires Inv(w) && Enabled(w, s) && s.BeginRead?
    ensures Inv(Apply(w, s))
  {
    var w' := Apply(w, s);
    BeginKeeps(w.inner, w.capacity, s.start, s.len, s.r, s.now);
    hide Accounted, Current, DiskOk, ReaderOk, EntryCurrent;
    forall k | k in w'.inner.entries
      ensures EntryCurrent(w', k, w'.inner.entries[k].data)
    {
      EntryMoves(w, w', k, w.inner.entries[k].data);
    }
    forall x | x in w.readers
      ensures ReaderOk(w', w.readers[x])
    {
      ReaderMovesBegin(w, s, w.readers[x]);
    }
    NewReaderOk(w, s);
    BeginIds(w, s);
    BeginWaiters(w, s);
    hide WaitersOk;
  }

  lemma BeginWaiters(w: World, s: Step)
    requires Inv(w) && Enabled(w, s) && s.BeginRead?
    ensures InflightOk(Apply(w, s))
  {
    var w' := Apply(w, s);
    hide Accounted, EntriesOk, ReadersOk, IdsDistinct, DiskOk;
    forall k | k in w'.inner.inflight
      ensures WaitersOk(w', k, w'.inner.inflight[k])
    {
      assert k in w.inner.inflight ==> WaitersOk(w, k, w.inner.inflight[k]);
    }
  }

  lemma ReaderMovesBegin(w: World, s: Step, r: Reader)
    requires Inv(w) && Enabled(w, s) && s.BeginRead? && ReaderOk(w, r)
    ensures ReaderOk(Apply(w, s), r)
  {
    IdBound(w, r);
    hide ReaderOk, Accounted, EntriesOk, ReadersOk, IdsDistinct, InflightOk, DiskOk;
    ReaderMoves(w, Apply(w, s), r);
  }

  lemma IdBound(w: World, r: Reader)
    requires ReaderOk(w, r)
    ensures r.Leading? ==> r.id <= w.inner.nextId
    ensures FloorBelow(r.floor, w.floor)
  {
  }

  lemma NewReaderOk(w: World, s: Step)
    requires Inv(w) && Enabled(w, s) && s.BeginRead?
    ensures ReaderOk(Apply(w, s), Apply(w, s).readers[s.r])
  {
    var r := Apply(w, s).readers[s.r];
    assert FloorBelow(w.floor, w.floor);
    hide Accounted, ReadersOk, IdsDistinct, InflightOk, Covered, DiskOk;
    if r.Done? {
      assert EntryCurrent(w, s.start, r.data);
    }
  }

  lemma BeginIds(w: World, s: Step)
    requires Inv(w) && Enabled(w, s) && s.BeginRead?
    ensures IdsDistinct(Apply(w, s))
  {
    forall x | x in w.readers
      ensures w.readers[x].Leading? ==> w.readers[x].id <= w.inner.nextId
    {
      IdBound(w, w.readers[x]);
    }
    hide Accounted, ReadersOk, EntriesOk, InflightOk, DiskOk;
  }

  lemma DoReadByte(w: World, s: Step)
    requires Inv(w) && Enabled(w, s) && s.ReadByte?
    ensures Inv(Apply(w, s))
  {
    var w' := Apply(w, s);
    ReaderReads(w, s);
    hide Accounted, Current, DiskOk, ReaderOk, EntryCurrent;
    forall x | x in w'.readers
      ensures ReaderOk(w', w'.readers[x])
    {
      if x != s.r {
        ReaderMoves(w, w', w.readers[x]);
      }
    }
    forall k | k in w'.inner.entries
      ensures EntryCurrent(w', k, w'.inner.entries[k].data)
    {
      EntryMoves(w, w', k, w.inner.entries[k].data);
    }
    forall k | k in w'.inner.inflight
      ensures WaitersOk(w', k, w'.inner.inflight[k])
    {
      assert WaitersOk(w, k, w.inner.inflight[k]);
    }
  }

  lemma ReaderReads(w: World, s: Step)
    requires Inv(w) && Enabled(w, s) && s.ReadByte?
    ensures ReaderOk(Apply(w, s), Apply(w, s).readers[s.r])
  {
    assert ReaderOk(w, w.readers[s.r]);
    hide Accounted, EntriesOk, ReadersOk, IdsDistinct, InflightOk, Covered;
  }

  lemma LoadedCurrent(w: World, r: Reader)
    requires ReaderOk(w, r) && Complete(r)
    ensures NotOlder(Done(r.start, r.len, Loaded(r), r.floor))
    ensures Registered(w.inner, r.start, r.id) ==> EntryCurrent(w, r.start, Loaded(r))
    ensures |Loaded(r)| == r.len
  {
    hide Current;
    var data := Loaded(r);
    forall i | 0 <= i < |data|
      ensures Above(r.floor, r.start + i, data[i])
      ensures Registered(w.inner, r.start, r.id) ==> Current(w, r.start + i, data[i])
    {
      assert r.start + i in r.got;
    }
  }

  lemma DoFinishRead(w: World, s: Step)
    requires Inv(w) && Enabled(w, s) && s.FinishRead?
    ensures Inv(Apply(w, s))
  {
    var w' := Apply(w, s);
    var l := w.readers[s.r];
    var data := Loaded(l);
    LoadedCurrent(w, l);
    hide Accounted, Current, DiskOk, ReaderOk, EntryCurrent, CompleteStep, Loaded, Complete, Deliver;
    forall k | k in w'.inner.entries
      ensures EntryCurrent(w', k, w'.inner.entries[k].data)
    {
      if k in w.inner.entries && w'.inner.entries[k] == w.inner.entries[k] {
        EntryMoves(w, w', k, w.inner.entries[k].data);
      } else {
        EntryMoves(w, w', k, data);
      }
    }
    forall x | x in w'.readers
      ensures ReaderOk(w', w'.readers[x])
    {
      DeliveredOk(w, w', s.r, data, x);
    }
    DeliverIds(w, w', s.r, data);
    forall k | k in w'.inner.inflight
      ensures WaitersOk(w', k, w'.inner.inflight[k])
    {
      StillWaiting(w, w', s.r, data, k);
    }
  }

  lemma DeliveredOk(w: World, w': World, r: nat, data: seq<Cell>, x: nat)
    requires ReadersOk(w) && r in w.readers && w.readers[r].Leading? && SameDisk(w, w')
    requires var l := w.readers[r];
      && w'.inner.inflight == Unregister(w.inner, l.start, l.id).inflight && w'.inner.nextId == w.inner.nextId
      && NotOlder(Done(l.start, l.len, data, l.floor)) && |data| == l.len
      && (Registered(w.inner, l.start, l.id) ==> EntryCurrent(w, l.start, data))
    requires w'.readers == Deliver(w, r, data) && x in w'.readers
    ensures ReaderOk(w', w'.readers[x])
  {
    IdBound(w, w.readers[x]);
    if w'.readers[x] == w.readers[x] {
      hide ReaderOk;
      ReaderMoves(w, w', w.readers[x]);
    } else if x != r {
      WaiterServed(w, w.readers[r], x, data);
      hide NotOlder;
    } else {
      hide NotOlder;
    }
  }

  lemma DeliverIds(w: World, w': World, r: nat, data: seq<Cell>)
    requires IdsDistinct(w) && r in w.readers && w.readers[r].Leading? && w'.readers == Deliver(w, r, data)
    ensures IdsDistinct(w')
  {
  }

  /** The waiters of other loads are not served by this one. */
  lemma StillWaiting(w: World, w': World, r: nat, data: seq<Cell>, k: nat)
    requires InflightOk(w) && r in w.readers && w.readers[r].Leading? && w'.readers == Deliver(w, r, data)
    requires var l := w.readers[r];
      w'.inner.inflight == Unregister(w.inner, l.start, l.id).inflight && w'.inner.nextId == w.inner.nextId
    requires k in w'.inner.inflight
    ensures WaitersOk(w', k, w'.inner.inflight[k])
  {
    var l := w.readers[r];
    assert WaitersOk(w, k, w.inner.inflight[k]);
    if Registered(w.inner, l.start, l.id) {
      assert WaitersOk(w, l.start, w.inner.inflight[l.start]);
    }
  }

  /** Current bytes are not older for anyone who began before. */
  lemma WaiterServed(w: World, l: Reader, x: nat, data: seq<Cell>)
    requires l.Leading? && x in w.readers && FloorBelow(w.readers[x].floor, w.floor)
    requires EntryCurrent(w, l.start, data) && |data| == l.len
    ensures NotOlder(Done(l.start, l.len, data, w.readers[x].floor))
  {
    hide Covered;
    forall i | 0 <= i < |data|
      ensures Above(w.readers[x].floor, l.start + i, data[i])
    {
      assert Current(w, l.start + i, data[i]);
    }
  }

  lemma DoAbortRead(w: World, s: Step)
    requires Inv(w) && Enabled(w, s) && s.AbortRead?
    ensures Inv(Apply(w, s))
  {
    var w' := Apply(w, s);
    assert ReaderOk(w, w.readers[s.r]) && ReaderOk(w', w'.readers[s.r]);
    AccountedSame(w.inner, w'.inner, w.capacity);
    hide Accounted, Current, DiskOk, ReaderOk, EntryCurrent;
    forall x | x in w'.readers
      ensures ReaderOk(w', w'.readers[x])
    {
      if x != s.r {
        ReaderMoves(w, w', w.readers[x]);
      }
    }
    forall k | k in w'.inner.entries
      ensures EntryCurrent(w', k, w'.inner.entries[k].data)
    {
      EntryMoves(w, w', k, w.inner.entries[k].data);
    }
    AbortWaiters(w, s);
    hide WaitersOk;
  }

  lemma AbortWaiters(w: World, s: Step)
    requires Inv(w) && Enabled(w, s) && s.AbortRead?
    ensures InflightOk(Apply(w, s))
  {
    var w' := Apply(w, s);
    hide Accounted, EntriesOk, ReadersOk, IdsDistinct, DiskOk;
    forall k | k in w'.inner.inflight
      ensures WaitersOk(w', k, w'.inner.inflight[k])
    {
      assert WaitersOk(w, k, w.inner.inflight[k]);
    }
  }

  /** A step that touches neither the cache nor the readers, and leaves every current copy current. */
  lemma QuietStep(w: World, w': World)
    requires Inv(w) && StaysCurrent(w, w', NOWHERE) && DiskOk(w')
    requires w'.inner == w.inner && w'.readers == w.readers && w'.floor == w.floor && w'.capacity == w.capacity
    ensures Inv(w')
  {
    hide Accounted, Current, DiskOk;
    forall k | k in w'.inner.entries
      ensures EntryCurrent(w', k, w'.inner.entries[k].data)
    {
      assert EntryCurrent(w, k, w.inner.entries[k].data);
    }
    forall x | x in w'.readers
      ensures ReaderOk(w', w'.readers[x])
    {
      assert ReaderOk(w, w.readers[x]);
    }
    forall k | k in w'.inner.inflight
      ensures WaitersOk(w', k, w'.inner.inflight[k])
    {
      assert WaitersOk(w, k, w.inner.inflight[k]);
    }
  }

  lemma DoBeginWrite(w: World, s: Step)
    requires Inv(w) && Enabled(w, s) && s.BeginWrite?
    ensures Inv(Apply(w, s))
  {
    var w' := Apply(w, s);
    forall o | Covered(w.pending, o)
      ensures Covered(w'.pending, o)
    {
      var x :| x in w.pending && Within(w.pending[x], o);
      assert x in w'.pending && w'.pending[x] == w.pending[x];
    }
    hide Inv, Covered;
    assert StaysCurrent(w, w', NOWHERE);
    hide StaysCurrent;
    InvDisk(w);
    QuietStep(w, w');
  }

  lemma InvDisk(w: World)
    requires Inv(w)
    ensures DiskOk(w)
  {
  }

  lemma DoWriteByte(w: World, s: Step)
    requires Inv(w) && Enabled(w, s) && s.WriteByte?
    ensures Inv(Apply(w, s))
  {
    var w' := Apply(w, s);
    assert Covered(w.pending, s.o);
    InvDisk(w);
    hide Inv, Covered;
    assert StaysCurrent(w, w', NOWHERE);
    hide StaysCurrent;
    QuietStep(w, w');
  }

  /** A step that only loses cached extents and registered loads: what remains was there before. */
  predicate OnlyLoses(s: Inner<Cell>, s': Inner<Cell>) {
    && s'.nextId == s.nextId
    && (forall k | k in s'.entries :: k in s.entries && s'.entries[k] == s.entries[k])
    && (forall k | k in s'.inflight :: k in s.inflight && s'.inflight[k] == s.inflight[k])
  }

  predicate Disjoint(e: Extent, k: nat, n: nat) { forall o | k <= o < k + n :: !Within(e, o) }

  /** What remains avoids the bytes of `e`. */
  predicate Avoids(s: Inner<Cell>, e: Extent) {
    && (forall k | k in s.entries :: Disjoint(e, k, |s.entries[k].data|))
    && (forall k | k in s.inflight :: Disjoint(e, k, s.inflight[k].len))
  }

  lemma LosingStep(w: World, w': World, e: Extent)
    requires Inv(w) && OnlyLoses(w.inner, w'.inner) && Avoids(w'.inner, e) && StaysCurrent(w, w', e)
    requires DiskOk(w') && Accounted(w'.inner, w.capacity) && FloorBelow(w.floor, w'.floor)
    requires w'.readers == w.readers && w'.capacity == w.capacity
    ensures Inv(w')
  {
    hide Accounted, Current, DiskOk;
    forall k | k in w'.inner.entries
      ensures EntryCurrent(w', k, w'.inner.entries[k].data)
    {
      EntryAvoids(w, w', e, k, w.inner.entries[k].data);
    }
    forall x | x in w'.readers
      ensures ReaderOk(w', w'.readers[x])
    {
      assert ReaderOk(w, w.readers[x]);
      if w.readers[x].Leading? && Registered(w'.inner, w.readers[x].start, w.readers[x].id) {
        LoadAvoids(w, w', e, w.readers[x]);
      }
    }
    forall k | k in w'.inner.inflight
      ensures WaitersOk(w', k, w'.inner.inflight[k])
    {
      assert WaitersOk(w, k, w.inner.inflight[k]);
    }
  }

  lemma EntryAvoids(w: World, w': World, e: Extent, k: nat, data: seq<Cell>)
    requires EntryCurrent(w, k, data) && Disjoint(e, k, |data|) && StaysCurrent(w, w', e)
    ensures EntryCurrent(w', k, data)
  {
    hide Current;
    forall i | 0 <= i < |data|
      ensures Current(w', k + i, data[i])
    {
      assert !Within(e, k + i);
    }
  }

  lemma LoadAvoids(w: World, w': World, e: Extent, r: Reader)
    requires r.Leading? && ReaderOk(w, r)
    requires OnlyLoses(w.inner, w'.inner) && Avoids(w'.inner, e) && StaysCurrent(w, w', e)
    requires Registered(w'.inner, r.start, r.id)
    ensures w'.inner.inflight[r.start].len == r.len && LoadCurrent(w', r)
  {
    hide Current;
    forall o | o in r.got
      ensures Current(w', o, r.got[o])
    {
      assert !Within(e, o);
    }
  }

  lemma AccountedInvalidate(s: Inner<Cell>, capacity: nat, offset: nat, len: nat)
    requires Accounted(s, capacity)
    ensures Accounted(Invalidated(s, capacity, offset, len), capacity)
  {
    var gone := Touched(s, offset, RangeEnd(offset, len));
    DropKeeps(s, capacity, gone);
    InvalidateIs(s, offset, len);
    hide Accounted, Drop, Touched;
    AccountedSame(Drop(s, gone), InvalidateStep(s, offset, len), capacity);
  }

  /** Invalidating a range leaves nothing that overlaps it, cached or in flight. */
  lemma InvalidateAvoids(s: Inner<Cell>, capacity: nat, e: Extent)
    requires Accounted(s, capacity) && e.offset + e.len <= MAX_OFFSET
    ensures var s' := Invalidated(s, capacity, e.offset, e.len);
            OnlyLoses(s, s') && Avoids(s', e)
  {
    var s' := Invalidated(s, capacity, e.offset, e.len);
    hide Accounted;
    forall k | k in s'.entries
      ensures Disjoint(e, k, |s'.entries[k].data|)
    {
      assert k !in Touched(s, e.offset, RangeEnd(e.offset, e.len));
    }
    forall k | k in s'.inflight
      ensures Disjoint(e, k, s'.inflight[k].len)
    {
      assert k in Untouched(s.inflight, e.offset, RangeEnd(e.offset, e.len));
    }
  }

  lemma Uncovered(w: World, x: nat)
    requires x in w.pending
    ensures forall o | Covered(w.pending, o) && !Within(w.pending[x], o) :: Covered(w.pending - {x}, o)
  {
    forall o | Covered(w.pending, o) && !Within(w.pending[x], o)
      ensures Covered(w.pending - {x}, o)
    {
      var y :| y in w.pending && Within(w.pending[y], o);
      assert y in w.pending - {x};
    }
  }

  lemma DoEndWrite(w: World, s: Step)
    requires Inv(w) && Enabled(w, s) && s.EndWrite?
    ensures Inv(Apply(w, s))
  {
    var w' := Apply(w, s);
    var e := w.pending[s.w];
    InvDisk(w);
    InvalidateAvoids(w.inner, w.capacity, e);
    AccountedInvalidate(w.inner, w.capacity, e.offset, e.len);
    Uncovered(w, s.w);
    hide Inv, Invalidated, Covered, OnlyLoses, Avoids;
    assert StaysCurrent(w, w', e);
    hide StaysCurrent;
    LosingStep(w, w', e);
  }

  lemma SameAll(w: World, w': World)
    requires w'.disk == w.disk && w'.floor == w.floor && w'.pending == w.pending
    ensures StaysCurrent(w, w', NOWHERE)
  {
  }

  lemma DoForgetAll(w: World, s: Step)
    requires Inv(w) && Enabled(w, s) && s.ForgetAll?
    ensures Inv(Apply(w, s))
  {
    var w' := Apply(w, s);
    InvDisk(w);
    SameAll(w, w');
    hide Inv, StaysCurrent;
    LosingStep(w, w', NOWHERE);
  }

  lemma DoTrim(w: World, s: Step)
    requires Inv(w) && Enabled(w, s) && s.Trim?
    ensures Inv(Apply(w, s))
  {
    var w' := Apply(w, s);
    InvDisk(w);
    DropKeeps(w.inner, w.capacity, Idle(w.inner, s.now));
    SameAll(w, w');
    hide Inv, StaysCurrent;
    LosingStep(w, w', NOWHERE);
  }

  lemma StepKeeps(w: World, s: Step)
    requires Inv(w) && Enabled(w, s)
    ensures Inv(Apply(w, s))
  {
    match s
    case BeginRead(_, _, _, _) => DoBeginRead(w, s);
    case ReadByte(_, _) => DoReadByte(w, s);
    case FinishRead(_, _, _, _) => DoFinishRead(w, s);
    case AbortRead(_) => DoAbortRead(w, s);
    case BeginWrite(_, _, _) => DoBeginWrite(w, s);
    case WriteByte(_, _, _) => DoWriteByte(w, s);
    case EndWrite(_) => DoEndWrite(w, s);
    case ForgetAll => DoForgetAll(w, s);
    case Trim(_) => DoTrim(w, s);
  }
}
