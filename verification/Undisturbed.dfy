/** Reads and writes that nothing else comes between. */
module Undisturbed {
  import opened Common
  import opened ReadCache
  import opened CacheCoherence

  /** Where a list of steps leads, if each of them can be taken in turn. */
  ghost function After(w: World, ss: seq<Step>): (r: Option<World>)
    requires Inv(w)
    ensures r.Some? ==> Inv(r.value)
  {
    if ss == [] then Some(w)
    else
      var n := |ss| - 1;
      match After(w, ss[..n])
      case None => None
      case Some(v) => if Enabled(v, ss[n]) then (StepKeeps(v, ss[n]); Some(Apply(v, ss[n]))) else None
  }

  lemma AfterNext(w: World, ss: seq<Step>, s: Step)
    requires Inv(w) && After(w, ss).Some? && Enabled(After(w, ss).value, s)
    ensures After(w, ss + [s]) == Some(Apply(After(w, ss).value, s))
  {
    hide Inv, Enabled, Apply;
    assert (ss + [s])[..|ss|] == ss;
  }

  lemma {:induction false} AfterAppend(w: World, a: seq<Step>, b: seq<Step>)
    requires Inv(w) && After(w, a).Some?
    ensures After(w, a + b) == After(After(w, a).value, b)
  {
    hide Inv, Enabled, Apply;
    if b == [] {
      assert a + b == a;
    } else {
      var n := |b| - 1;
      assert (a + b)[..|a| + n] == a + b[..n] && (a + b)[|a| + n] == b[n];
      AfterAppend(w, a, b[..n]);
    }
  }

  // ----- a read -----

  function Fetches(r: nat, start: nat, len: nat): seq<Step> {
    seq(len, i requires 0 <= i < len => ReadByte(r, start + i))
  }

  /** The steps of one read that loads. */
  function Reading(r: nat, start: nat, len: nat, now: nat, total: nat, processCap: nat): seq<Step> {
    [BeginRead(r, start, len, now)] + Fetches(r, start, len) + [FinishRead(r, total, processCap, now)]
  }

  predicate NotCached(w: World, start: nat, len: nat) { start in w.inner.entries ==> |w.inner.entries[start].data| != len }

  predicate NotLoading(w: World, start: nat, len: nat) { start in w.inner.inflight ==> w.inner.inflight[start].len != len }

  /** Its leader once `k` bytes have come in. */
  function Fetched(l: Reader, disk: seq<Cell>, k: nat): Reader
    requires l.Leading? && l.start + k <= |disk|
  {
    l.(got := map o | l.start <= o < l.start + k :: disk[o])
  }

  function With(w: World, r: nat, l: Reader): World { w.(readers := w.readers[r := l]) }

  lemma WithIs(w: World, r: nat, l: Reader)
    ensures With(w, r, l).disk == w.disk && With(w, r, l).inner == w.inner
    ensures r in With(w, r, l).readers && With(w, r, l).readers[r] == l
  {
  }

  lemma WithTwice(w: World, r: nat, l: Reader, l': Reader)
    ensures With(With(w, r, l), r, l') == With(w, r, l')
  {
    assert w.readers[r := l][r := l'] == w.readers[r := l'];
  }

  lemma ByteComes(w: World, r: nat, l: Reader, k: nat)
    requires r in w.readers && l.Leading? && k < l.len && l.start + l.len <= |w.disk|
    requires w.readers[r] == Fetched(l, w.disk, k) && Accounted(w.inner, w.capacity) && |w.floor| == |w.disk|
    ensures Enabled(w, ReadByte(r, l.start + k))
    ensures Apply(w, ReadByte(r, l.start + k)) == With(w, r, Fetched(l, w.disk, k + 1))
  {
    hide Accounted;
    assert Fetched(l, w.disk, k + 1).got == Fetched(l, w.disk, k).got[l.start + k := w.disk[l.start + k]];
  }

  lemma FetchesNext(r: nat, start: nat, k: nat)
    ensures Fetches(r, start, k + 1) == Fetches(r, start, k) + [ReadByte(r, start + k)]
  {
  }

  lemma FetchMore(w: World, r: nat, l: Reader, k: nat)
    requires Inv(w) && r in w.readers && l.Leading? && k < l.len && l.start + l.len <= |w.disk|
    requires After(w, Fetches(r, l.start, k)) == Some(With(w, r, Fetched(l, w.disk, k)))
    ensures After(w, Fetches(r, l.start, k + 1)) == Some(With(w, r, Fetched(l, w.disk, k + 1)))
  {
    hide *;
    var ss := Fetches(r, l.start, k);
    FetchesNext(r, l.start, k);
    var v := After(w, ss).value;
    WithIs(w, r, Fetched(l, w.disk, k));
    WithTwice(w, r, Fetched(l, w.disk, k), Fetched(l, w.disk, k + 1));
    Usable(v);
    ByteComes(v, r, l, k);
    AfterNext(w, ss, ReadByte(r, l.start + k));
  }

  lemma {:induction false} FetchesDisk(w: World, r: nat, k: nat)
    requires Inv(w) && r in w.readers && w.readers[r].Leading? && w.readers[r].got == map[]
    requires k <= w.readers[r].len && w.readers[r].start + w.readers[r].len <= |w.disk|
    ensures After(w, Fetches(r, w.readers[r].start, k))
         == Some(With(w, r, Fetched(w.readers[r], w.disk, k)))
  {
    var l := w.readers[r];
    if k == 0 {
      assert Fetched(l, w.disk, 0) == l && w.readers[r := l] == w.readers;
    } else {
      hide *;
      FetchesDisk(w, r, k - 1);
      FetchMore(w, r, l, k - 1);
    }
  }

  lemma Usable(w: World)
    requires Inv(w)
    ensures Accounted(w.inner, w.capacity) && |w.floor| == |w.disk|
  {
  }

  lemma One(w: World, s: Step)
    requires Inv(w) && Enabled(w, s)
    ensures After(w, [s]) == Some(Apply(w, s))
  {
    assert After(w, []) == Some(w) && [] + [s] == [s];
    AfterNext(w, [], s);
  }

  lemma BeginLeads(w: World, r: nat, start: nat, len: nat, now: nat)
    requires Inv(w) && r !in w.readers && start + len <= |w.disk|
    requires NotCached(w, start, len) && NotLoading(w, start, len)
    ensures Enabled(w, BeginRead(r, start, len, now))
    ensures var u := Apply(w, BeginRead(r, start, len, now));
            && u.disk == w.disk && u.inner.bytes == w.inner.bytes && r in u.readers
            && u.readers[r] == Leading(start, len, u.inner.nextId, w.inner.generation, map[], w.floor)
  {
    hide EntriesOk, ReadersOk, InflightOk, IdsDistinct;
  }

  lemma FinishReads(w: World, r: nat, l: Reader, total: nat, processCap: nat, now: nat)
    requires r in w.readers && l.Leading? && l.start + l.len <= |w.disk| && w.readers[r] == Fetched(l, w.disk, l.len)
    requires w.inner.bytes <= total && Accounted(w.inner, w.capacity) && |w.floor| == |w.disk|
    ensures Enabled(w, FinishRead(r, total, processCap, now))
    ensures var v := Apply(w, FinishRead(r, total, processCap, now));
            && v.disk == w.disk && r in v.readers
            && v.readers[r] == Done(l.start, l.len, w.disk[l.start..l.start + l.len], l.floor)
  {
    hide Accounted, CompleteStep;
    assert Loaded(w.readers[r]) == w.disk[l.start..l.start + l.len];
  }

  /** A read of what is neither cached nor being loaded can always be carried through, and yields the
      disk's bytes. */
  lemma MissReads(w: World, r: nat, start: nat, len: nat, now: nat, total: nat, processCap: nat)
    requires Inv(w) && r !in w.readers && start + len <= |w.disk| && w.inner.bytes <= total
    requires NotCached(w, start, len) && NotLoading(w, start, len)
    ensures var v := After(w, Reading(r, start, len, now, total, processCap));
            && v.Some? && v.value.disk == w.disk
            && r in v.value.readers && v.value.readers[r] == Done(start, len, w.disk[start..start + len], w.floor)
  {
    hide *;
    var begin, fetches, finish := BeginRead(r, start, len, now), Fetches(r, start, len), FinishRead(r, total, processCap, now);
    ReadingIs(r, start, len, now, total, processCap);
    BeginLeads(w, r, start, len, now);
    One(w, begin);
    var u := After(w, [begin]).value;
    FetchesDisk(u, r, len);
    AfterAppend(w, [begin], fetches);
    var v := After(w, [begin] + fetches).value;
    Usable(v);
    WithIs(u, r, Fetched(u.readers[r], u.disk, len));
    FinishReads(v, r, u.readers[r], total, processCap, now);
    AfterNext(w, [begin] + fetches, finish);
  }

  lemma ReadingIs(r: nat, start: nat, len: nat, now: nat, total: nat, processCap: nat)
    ensures Reading(r, start, len, now, total, processCap)
         == [BeginRead(r, start, len, now)] + Fetches(r, start, len) + [FinishRead(r, total, processCap, now)]
  {
  }

  /** A hit is served at once, and wherever no write is under way it is what the disk holds. */
  lemma HitReads(w: World, r: nat, start: nat, len: nat, now: nat)
    requires Inv(w) && r !in w.readers && start + len <= |w.disk| && !NotCached(w, start, len)
    ensures var v := After(w, [BeginRead(r, start, len, now)]);
            && v.Some? && v.value.disk == w.disk
            && r in v.value.readers && v.value.readers[r].Done? && |v.value.readers[r].data| == len
            && forall i | 0 <= i < len ::
                 v.value.readers[r].data[i] == w.disk[start + i] || Covered(w.pending, start + i)
  {
    assert After(w, []) == Some(w);
    AfterNext(w, [], BeginRead(r, start, len, now));
    assert [] + [BeginRead(r, start, len, now)] == [BeginRead(r, start, len, now)];
    hide After, Covered, Accounted, ReadersOk;
    var data := w.inner.entries[start].data;
    assert EntryCurrent(w, start, data);
    assert forall i | 0 <= i < len :: Current(w, start + i, data[i]);
  }

  // ----- a write -----

  function Puts(x: nat, offset: nat, values: seq<Byte>): seq<Step> {
    seq(|values|, i requires 0 <= i < |values| => WriteByte(x, offset + i, values[i]))
  }

  /** The steps of one write. */
  function Writing(x: nat, offset: nat, values: seq<Byte>): seq<Step> {
    [BeginWrite(x, offset, |values|)] + Puts(x, offset, values) + [EndWrite(x)]
  }

  /** The bytes from `offset` on are `values`, and every other cell is as it was. */
  predicate Wrote(before: seq<Cell>, after: seq<Cell>, offset: nat, values: seq<Byte>) {
    |after| == |before| && offset + |values| <= |before|
    && forall o | 0 <= o < |before| ::
         if offset <= o < offset + |values| then after[o].value == values[o - offset] else after[o] == before[o]
  }

  lemma {:induction false} PutsValues(w: World, x: nat, values: seq<Byte>)
    requires Inv(w) && x in w.pending && |values| <= w.pending[x].len
    ensures w.pending[x].offset + w.pending[x].len <= |w.disk|
    ensures var v := After(w, Puts(x, w.pending[x].offset, values));
            && v.Some? && Wrote(w.disk, v.value.disk, w.pending[x].offset, values)
            && v.value == w.(disk := v.value.disk, clock := v.value.clock)
  {
    var offset := w.pending[x].offset;
    assert DiskOk(w);
    if values == [] {
      assert After(w, Puts(x, offset, [])) == Some(w);
    } else {
      var n := |values| - 1;
      PutsValues(w, x, values[..n]);
      PutMore(w, After(w, Puts(x, offset, values[..n])).value, x, offset, values);
    }
  }

  lemma PutMore(w: World, v: World, x: nat, offset: nat, values: seq<Byte>)
    requires Inv(w) && x in w.pending && values != [] && Within(w.pending[x], offset + |values| - 1)
    requires offset + |values| <= |w.disk|
    requires After(w, Puts(x, offset, values[..|values| - 1])) == Some(v)
    requires Wrote(w.disk, v.disk, offset, values[..|values| - 1]) && v == w.(disk := v.disk, clock := v.clock)
    ensures var u := After(w, Puts(x, offset, values));
            && u.Some? && Wrote(w.disk, u.value.disk, offset, values)
            && u.value == w.(disk := u.value.disk, clock := u.value.clock)
  {
    var n := |values| - 1;
    hide *;
    PutsNext(x, offset, values);
    Usable(v);
    WroteMore(w.disk, v.disk, offset, values, v.clock + 1);
    BytePut(v, x, offset + n, values[n]);
    AfterNext(w, Puts(x, offset, values[..n]), WriteByte(x, offset + n, values[n]));
  }

  lemma PutsNext(x: nat, offset: nat, values: seq<Byte>)
    requires values != []
    ensures var n := |values| - 1;
            Puts(x, offset, values) == Puts(x, offset, values[..n]) + [WriteByte(x, offset + n, values[n])]
  {
  }

  lemma BytePut(w: World, x: nat, o: nat, value: Byte)
    requires x in w.pending && o < |w.disk| && Within(w.pending[x], o)
    requires Accounted(w.inner, w.capacity) && |w.floor| == |w.disk|
    ensures Enabled(w, WriteByte(x, o, value))
    ensures Apply(w, WriteByte(x, o, value)) == w.(disk := w.disk[o := Cell(value, w.clock + 1)], clock := w.clock + 1)
  {
  }

  lemma WroteMore(before: seq<Cell>, after: seq<Cell>, offset: nat, values: seq<Byte>, stamp: nat)
    requires values != [] && offset + |values| <= |before| && Wrote(before, after, offset, values[..|values| - 1])
    ensures |after| == |before|
    ensures Wrote(before, after[offset + |values| - 1 := Cell(values[|values| - 1], stamp)], offset, values)
  {
  }

  /** Nothing cached and no load touches the range. */
  ghost predicate Untouching(w: World, offset: nat, end: nat) {
    forall start: nat, len: nat | Overlaps(start, len, offset, end) ::
      NotCached(w, start, len) && NotLoading(w, start, len)
  }

  lemma EndClears(w: World, x: nat)
    requires Inv(w) && x in w.pending
    ensures Enabled(w, EndWrite(x))
    ensures var v, e := Apply(w, EndWrite(x)), w.pending[x];
            && v.disk == w.disk && v.pending == w.pending - {x} && v.readers == w.readers
            && Untouching(v, e.offset, e.offset + e.len) && v.inner.bytes <= w.inner.bytes
  {
    assert w.pending[x].offset + w.pending[x].len <= MAX_OFFSET;
    hide EntriesOk, ReadersOk, InflightOk, IdsDistinct, Accounted;
  }

  lemma BeginOpens(w: World, x: nat, offset: nat, len: nat)
    requires Inv(w) && x !in w.pending && offset + len <= |w.disk|
    ensures Enabled(w, BeginWrite(x, offset, len))
    ensures Apply(w, BeginWrite(x, offset, len)) == w.(pending := w.pending[x := Extent(offset, len)])
  {
    hide EntriesOk, ReadersOk, InflightOk, IdsDistinct;
  }

  /** A write can always be carried through; it leaves its bytes on the disk and neither cached nor
      loading anything that touches them. */
  lemma Writes(w: World, x: nat, offset: nat, values: seq<Byte>)
    requires Inv(w) && x !in w.pending && offset + |values| <= |w.disk|
    ensures var v := After(w, Writing(x, offset, values));
            && v.Some? && Wrote(w.disk, v.value.disk, offset, values)
            && v.value.pending == w.pending && v.value.readers == w.readers
            && Untouching(v.value, offset, offset + |values|) && v.value.inner.bytes <= w.inner.bytes
  {
    hide *;
    var begin, puts := BeginWrite(x, offset, |values|), Puts(x, offset, values);
    WritingIs(x, offset, values);
    BeginOpens(w, x, offset, |values|);
    One(w, begin);
    PutsValues(After(w, [begin]).value, x, values);
    AfterAppend(w, [begin], puts);
    EndClears(After(w, [begin] + puts).value, x);
    AfterNext(w, [begin] + puts, EndWrite(x));
    assert w.pending[x := Extent(offset, |values|)] - {x} == w.pending;
  }

  lemma WritingIs(x: nat, offset: nat, values: seq<Byte>)
    ensures Writing(x, offset, values) == [BeginWrite(x, offset, |values|)] + Puts(x, offset, values) + [EndWrite(x)]
  {
  }

  /** The cells from `start` on, as they were but for the values written at `offset`. */
  predicate Shows(data: seq<Cell>, start: nat, before: seq<Cell>, offset: nat, values: seq<Byte>) {
    start + |data| <= |before|
    && forall i | 0 <= i < |data| ::
         if offset <= start + i < offset + |values| then data[i].value == values[start + i - offset]
         else data[i] == before[start + i]
  }

  /** What a write left is what the next read of any extent touching it yields, whatever was cached
      before. */
  lemma WriteThenRead(w: World, x: nat, offset: nat, values: seq<Byte>,
                      r: nat, start: nat, len: nat, now: nat, total: nat, processCap: nat)
    requires Inv(w) && x !in w.pending && offset + |values| <= |w.disk|
    requires r !in w.readers && start + len <= |w.disk| && Overlaps(start, len, offset, offset + |values|)
    requires w.inner.bytes <= total
    ensures var v := After(w, Writing(x, offset, values) + Reading(r, start, len, now, total, processCap));
            && v.Some? && r in v.value.readers && v.value.readers[r].Done? && |v.value.readers[r].data| == len
            && Shows(v.value.readers[r].data, start, w.disk, offset, values)
  {
    hide *;
    Writes(w, x, offset, values);
    var u := After(w, Writing(x, offset, values)).value;
    AfterAppend(w, Writing(x, offset, values), Reading(r, start, len, now, total, processCap));
    WroteAt(w.disk, u, offset, values, start, len);
    MissReads(u, r, start, len, now, total, processCap);
  }

  lemma WroteAt(before: seq<Cell>, u: World, offset: nat, values: seq<Byte>, start: nat, len: nat)
    requires Wrote(before, u.disk, offset, values) && Untouching(u, offset, offset + |values|)
    requires Overlaps(start, len, offset, offset + |values|) && start + len <= |before|
    ensures NotCached(u, start, len) && NotLoading(u, start, len) && |u.disk| == |before|
    ensures Shows(u.disk[start..start + len], start, before, offset, values)
  {
  }

  /** Forgetting leaves nothing cached and nothing loading; trimming leaves just what was used in the last thirty seconds. */
  lemma Clears(w: World, now: nat)
    requires Inv(w)
    ensures Enabled(w, ForgetAll) && Enabled(w, Trim(now))
    ensures var v := Apply(w, ForgetAll).inner; v.entries == map[] && v.inflight == map[] && v.bytes == 0
    ensures var v := Apply(w, Trim(now)).inner;
            v.inflight == w.inner.inflight
            && forall k | k in w.inner.entries :: k in v.entries <==> now < w.inner.entries[k].last + 30
  {
    hide EntriesOk, ReadersOk, InflightOk, IdsDistinct, DiskOk;
    assert w.inner.entries == map[] ==> SumLen(w.inner.entries) == 0;
  }
}
