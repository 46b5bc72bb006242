/** Whole runs of cached reads. */
module CoherentRuns {
  import opened Common
  import opened ReadCache
  import opened CacheCoherence

  /** An empty cache over any disk. */
  predicate Initial(w: World) {
    && w.inner == Fresh<Cell>() && w.pending == map[] && w.readers == map[]
    && w.floor == seq(|w.disk|, _ => 0) && w.clock == 0 && |w.disk| <= MAX_OFFSET
    && forall o | 0 <= o < |w.disk| :: w.disk[o].stamp == 0
  }

  ghost predicate Next(w: World, s: Step, w': World) {
    && Accounted(w.inner, w.capacity) && |w.floor| == |w.disk|
    && Enabled(w, s) && w' == Apply(w, s)
  }

  ghost predicate Run(ws: seq<World>, ss: seq<Step>) {
    && |ws| == |ss| + 1 && Initial(ws[0])
    && forall i | 0 <= i < |ss| :: Next(ws[i], ss[i], ws[i + 1])
  }

  /** In every interleaving: each cached extent, and each load still registered, equals the disk at
      every byte that no unfinished write covers. */
  lemma {:induction false} AlwaysCoherent(ws: seq<World>, ss: seq<Step>, i: nat)
    requires Run(ws, ss) && i < |ws|
    ensures Inv(ws[i])
    ensures forall k, j | k in ws[i].inner.entries && 0 <= j < |ws[i].inner.entries[k].data| ::
      Current(ws[i], k + j, ws[i].inner.entries[k].data[j])
    ensures forall r | r in ws[i].readers && ws[i].readers[r].Leading? ::
      Registered(ws[i].inner, ws[i].readers[r].start, ws[i].readers[r].id) ==> LoadCurrent(ws[i], ws[i].readers[r])
  {
    if i == 0 {
      assert SumLen(ws[0].inner.entries) == 0;
    } else {
      AlwaysCoherent(ws, ss, i - 1);
      assert Next(ws[i - 1], ss[i - 1], ws[i]);
      StepKeeps(ws[i - 1], ss[i - 1]);
    }
    Unfold(ws[i]);
  }

  /** Single flight: in every interleaving, at most one reader leads the registered load of an extent. */
  lemma OneLeader(ws: seq<World>, ss: seq<Step>, i: nat, q: nat, r: nat)
    requires Run(ws, ss) && i < |ws| && q in ws[i].readers && r in ws[i].readers
    requires ws[i].readers[q].Leading? && ws[i].readers[r].Leading? && ws[i].readers[q].start == ws[i].readers[r].start
    requires Registered(ws[i].inner, ws[i].readers[q].start, ws[i].readers[q].id)
    requires Registered(ws[i].inner, ws[i].readers[r].start, ws[i].readers[r].id)
    ensures q == r
  {
    AlwaysCoherent(ws, ss, i);
    hide Run, ReadersOk, EntriesOk, InflightOk, DiskOk, Accounted;
  }

  lemma Unfold(w: World)
    requires Inv(w)
    ensures forall k, j | k in w.inner.entries && 0 <= j < |w.inner.entries[k].data| ::
      Current(w, k + j, w.inner.entries[k].data[j])
    ensures forall r | r in w.readers && w.readers[r].Leading? ::
      Registered(w.inner, w.readers[r].start, w.readers[r].id) ==> LoadCurrent(w, w.readers[r])
  {
    forall k, j | k in w.inner.entries && 0 <= j < |w.inner.entries[k].data|
      ensures Current(w, k + j, w.inner.entries[k].data[j])
    {
      assert EntryCurrent(w, k, w.inner.entries[k].data);
    }
    forall r | r in w.readers && w.readers[r].Leading?
      ensures Registered(w.inner, w.readers[r].start, w.readers[r].id) ==> LoadCurrent(w, w.readers[r])
    {
      assert ReaderOk(w, w.readers[r]);
    }
  }

  /** From one step to the next floors only rise, readers keep the floor they began with, and the
      disk keeps its size. */
  lemma StepMonotone(w: World, s: Step)
    requires Inv(w) && Enabled(w, s)
    ensures Later(w, Apply(w, s))
  {
    InvDisk(w);
    hide Inv, Current, EntryCurrent, Accounted, CompleteStep, Invalidated, Trimmed;
  }

  /** Floors never fall and readers keep theirs. */
  predicate Later(w: World, w': World) {
    && FloorBelow(w.floor, w'.floor)
    && forall r | r in w.readers :: r in w'.readers && w'.readers[r].floor == w.readers[r].floor
  }

  lemma LaterSelf(w: World)
    ensures Later(w, w)
  {
  }

  lemma LaterTransitive(u: World, v: World, w: World)
    requires Later(u, v) && Later(v, w)
    ensures Later(u, w)
  {
  }

  lemma {:induction false} RunMonotone(ws: seq<World>, ss: seq<Step>, i: nat, j: nat)
    requires Run(ws, ss) && i <= j < |ws|
    ensures Later(ws[i], ws[j])
    decreases j
  {
    hide Later, Apply, Inv;
    if i < j {
      RunMonotone(ws, ss, i, j - 1);
      AlwaysCoherent(ws, ss, j - 1);
      assert Next(ws[j - 1], ss[j - 1], ws[j]);
      StepMonotone(ws[j - 1], ss[j - 1]);
      LaterTransitive(ws[i], ws[j - 1], ws[j]);
    } else {
      LaterSelf(ws[i]);
    }
  }

  /** A read begun after a write has returned never yields bytes older than that write, whether it
      hits, waits for another reader's load, or loads for itself. */
  lemma ReadAfterWrite(ws: seq<World>, ss: seq<Step>, i: nat, j: nat, k: nat, o: nat)
    requires Run(ws, ss) && i < j < k < |ws|
    requires ss[i].EndWrite? && ss[i].w in ws[i].pending && Within(ws[i].pending[ss[i].w], o) && o < |ws[i].disk|
    requires ss[j].BeginRead? && ss[j].r in ws[k].readers && ws[k].readers[ss[j].r].Done?
    requires ws[k].readers[ss[j].r].start <= o < ws[k].readers[ss[j].r].start + |ws[k].readers[ss[j].r].data|
    ensures ws[k].readers[ss[j].r].data[o - ws[k].readers[ss[j].r].start].stamp >= ws[i].disk[o].stamp
  {
    hide *;
    StepAt(ws, ss, i);
    StepAt(ws, ss, j);
    var r := ss[j].r;
    FloorRaised(ws[i], ss[i], ws[i + 1], o);
    FloorNoted(ws[j], ss[j], ws[j + 1]);
    RunMonotone(ws, ss, i + 1, j);
    RunMonotone(ws, ss, j + 1, k);
    FloorCarried(ws[i + 1], ws[j], ws[j + 1], ws[k], r, o);
    InvAt(ws, ss, k);
    DoneAbove(ws[k], r, o);
  }

  lemma InvAt(ws: seq<World>, ss: seq<Step>, i: nat)
    requires Run(ws, ss) && i < |ws|
    ensures Inv(ws[i])
  {
    AlwaysCoherent(ws, ss, i);
  }

  /** What a byte's floor was before a read began bounds the floor the reader keeps. */
  lemma FloorCarried(a: World, b: World, c: World, d: World, r: nat, o: nat)
    requires Later(a, b) && Later(c, d) && r in c.readers && c.readers[r].floor == b.floor && o < |a.floor|
    ensures r in d.readers && o < |d.readers[r].floor| && a.floor[o] <= d.readers[r].floor[o]
  {
  }

  lemma StepAt(ws: seq<World>, ss: seq<Step>, i: nat)
    requires Run(ws, ss) && i + 1 < |ws|
    ensures i < |ss| && Next(ws[i], ss[i], ws[i + 1])
  {
  }

  lemma FloorRaised(w: World, s: Step, w': World, o: nat)
    requires Next(w, s, w') && s.EndWrite? && s.w in w.pending && Within(w.pending[s.w], o) && o < |w.disk|
    ensures o < |w'.floor| && w'.floor[o] == w.disk[o].stamp
  {
    hide Invalidated, Accounted;
  }

  lemma FloorNoted(w: World, s: Step, w': World)
    requires Next(w, s, w') && s.BeginRead?
    ensures s.r in w'.readers && w'.readers[s.r].floor == w.floor
  {
    hide Accounted;
  }

  lemma DoneAbove(w: World, r: nat, o: nat)
    requires Inv(w) && r in w.readers && w.readers[r].Done?
    requires w.readers[r].start <= o < w.readers[r].start + |w.readers[r].data|
    ensures o < |w.readers[r].floor|
    ensures w.readers[r].floor[o] <= w.readers[r].data[o - w.readers[r].start].stamp
  {
    var d := w.readers[r];
    assert ReaderOk(w, d);
    assert Above(d.floor, d.start + (o - d.start), d.data[o - d.start]);
  }
}
