/** Whoever waits for a load is served by it: the other half of single flight, over whole runs. */
module WaitersServed {
  import opened Common
  import opened ReadCache
  import opened CacheCoherence
  import opened CoherentRuns

  /** A reader that waits for a load still registered is among those the load will serve. */
  predicate Heard(s: Inner<Cell>, x: nat, r: Reader) {
    r.Waiting? ==>
      r.id <= s.nextId && (Registered(s, r.start, r.id) ==> x in s.inflight[r.start].waiters)
  }

  predicate AllHeard(w: World) { forall x | x in w.readers :: Heard(w.inner, x, w.readers[x]) }

  lemma BeginHears(w: World, s: Step, x: nat)
    requires Inv(w) && Enabled(w, s) && s.BeginRead? && AllHeard(w) && x in Apply(w, s).readers
    ensures Heard(Apply(w, s).inner, x, Apply(w, s).readers[x])
  {
    OneFlight(w.inner, s.start, s.len, s.r, s.now);
    hide Accounted, EntriesOk, ReadersOk, IdsDistinct, DiskOk;
    if x != s.r {
      assert Heard(w.inner, x, w.readers[x]);
    } else if s.start in w.inner.inflight {
      assert WaitersOk(w, s.start, w.inner.inflight[s.start]);
    }
  }

  lemma FinishHears(w: World, s: Step, x: nat)
    requires Inv(w) && Enabled(w, s) && s.FinishRead? && AllHeard(w) && x in Apply(w, s).readers
    ensures Heard(Apply(w, s).inner, x, Apply(w, s).readers[x])
  {
    hide Accounted, EntriesOk, ReadersOk, IdsDistinct, DiskOk, InflightOk, CompleteStep, Loaded;
    assert Heard(w.inner, x, w.readers[x]);
  }

  lemma AbortHears(w: World, s: Step, x: nat)
    requires Inv(w) && Enabled(w, s) && s.AbortRead? && AllHeard(w) && x in Apply(w, s).readers
    ensures Heard(Apply(w, s).inner, x, Apply(w, s).readers[x])
  {
    hide Accounted, EntriesOk, ReadersOk, IdsDistinct, DiskOk, InflightOk;
    if x != s.r {
      assert Heard(w.inner, x, w.readers[x]);
      var r := w.readers[s.r];
      if !r.Leading? && r.start in w.inner.inflight {
        OthersStay(w.inner.inflight[r.start].waiters, s.r, x);
      }
    }
  }

  lemma {:induction false} OthersStay(xs: seq<nat>, r: nat, x: nat)
    requires x != r
    ensures x in xs ==> x in WithoutReader(xs, r)
  {
    if xs == [] || xs[0] == x {
    } else {
      OthersStay(xs[1..], r, x);
    }
  }

  /** Steps that only take loads away, or leave cache and readers alone. */
  lemma LessHears(s: Inner<Cell>, s': Inner<Cell>, x: nat, r: Reader)
    requires Heard(s, x, r) && s'.nextId == s.nextId
    requires forall k | k in s'.inflight :: k in s.inflight && s'.inflight[k] == s.inflight[k]
    ensures Heard(s', x, r)
  {
  }

  lemma StepHears(w: World, s: Step)
    requires Inv(w) && Enabled(w, s) && AllHeard(w)
    ensures AllHeard(Apply(w, s))
  {
    var w' := Apply(w, s);
    forall x | x in w'.readers
      ensures Heard(w'.inner, x, w'.readers[x])
    {
      match s
      case BeginRead(_, _, _, _) => BeginHears(w, s, x);
      case FinishRead(_, _, _, _) => FinishHears(w, s, x);
      case AbortRead(_) => AbortHears(w, s, x);
      case ReadByte(_, _) => assert Heard(w.inner, x, w.readers[x]);
      case _ => OtherHears(w, s, x);
    }
  }

  lemma OtherHears(w: World, s: Step, x: nat)
    requires Inv(w) && Enabled(w, s) && AllHeard(w) && x in w.readers
    requires s.BeginWrite? || s.WriteByte? || s.EndWrite? || s.ForgetAll? || s.Trim?
    ensures Apply(w, s).readers == w.readers && Heard(Apply(w, s).inner, x, w.readers[x])
  {
    assert Heard(w.inner, x, w.readers[x]);
    hide Accounted, EntriesOk, ReadersOk, IdsDistinct, DiskOk, InflightOk, Heard;
    LessHears(w.inner, Apply(w, s).inner, x, w.readers[x]);
  }

  lemma {:induction false} AlwaysHeard(ws: seq<World>, ss: seq<Step>, i: nat)
    requires Run(ws, ss) && i < |ws|
    ensures AllHeard(ws[i])
  {
    if i == 0 {
    } else {
      AlwaysHeard(ws, ss, i - 1);
      StepAt(ws, ss, i - 1);
      InvAt(ws, ss, i - 1);
      hide AllHeard, Inv;
      StepHears(ws[i - 1], ss[i - 1]);
    }
  }

  /** In every interleaving: when a load that is still registered is finished, every reader waiting for it is
      served, with the bytes its leader read. */
  lemma AllServed(ws: seq<World>, ss: seq<Step>, i: nat, x: nat)
    requires Run(ws, ss) && i + 1 < |ws| && ss[i].FinishRead? && ss[i].r in ws[i].readers && ws[i].readers[ss[i].r].Leading?
    requires var l := ws[i].readers[ss[i].r];
             && Registered(ws[i].inner, l.start, l.id)
             && x in ws[i].readers && ws[i].readers[x].Waiting?
             && ws[i].readers[x].start == l.start && ws[i].readers[x].id == l.id
    ensures x in ws[i + 1].readers && ss[i].r in ws[i + 1].readers
    ensures var a, b := ws[i + 1].readers[x], ws[i + 1].readers[ss[i].r];
            a.Done? && b.Done? && a.data == b.data && a.start == b.start && |a.data| == a.len
  {
    AlwaysHeard(ws, ss, i);
    StepAt(ws, ss, i);
    InvAt(ws, ss, i);
    InvAt(ws, ss, i + 1);
    hide Run;
    Served(ws[i], ss[i], ws[i + 1], x);
  }

  lemma Served(w: World, s: Step, w': World, x: nat)
    requires Next(w, s, w') && Inv(w') && AllHeard(w) && s.FinishRead? && w.readers[s.r].Leading?
    requires var l := w.readers[s.r];
             && Registered(w.inner, l.start, l.id)
             && x in w.readers && w.readers[x].Waiting? && w.readers[x].start == l.start && w.readers[x].id == l.id
    ensures x in w'.readers && s.r in w'.readers
    ensures var a, b := w'.readers[x], w'.readers[s.r];
            a.Done? && b.Done? && a.data == b.data && a.start == b.start && |a.data| == a.len
  {
    assert Heard(w.inner, x, w.readers[x]);
    hide Accounted, CompleteStep, Loaded, EntriesOk, IdsDistinct, InflightOk, DiskOk;
    assert ReaderOk(w', w'.readers[x]);
  }
}
