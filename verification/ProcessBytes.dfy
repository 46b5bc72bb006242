/** The process byte total. */
module ProcessBytes {
  /* The total shared by every cache of the process, in its finest interleaving: each cache works under
   its own lock, so between any two atomic operations on the total other caches may act. */

  import opened Common

  /** A cache is counted for `bytes`. While it reserves, it has added `len` to a total that stood at
      `prev`, and has not yet kept or taken back the addition. */
  datatype Phase = Quiet | Added(len: nat, prev: nat)

  datatype Share = Share(bytes: nat, phase: Phase)

  datatype Pool = Pool(total: nat, cap: nat, shares: seq<Share>)

  datatype Step =
    | Open
    | Add(c: nat, len: nat)
    | Decide(c: nat)
    | Release(c: nat, len: nat)

  predicate Enabled(p: Pool, s: Step) {
    match s
    case Open => true
    case Add(c, _) => c < |p.shares| && p.shares[c].phase.Quiet?
    case Decide(c) => c < |p.shares| && p.shares[c].phase.Added?
    case Release(c, len) => c < |p.shares| && p.shares[c].phase.Quiet? && len <= p.shares[c].bytes
  }

  /** `reserve_total` adds first and looks afterwards; what does not fit is taken back. */
  function Apply(p: Pool, s: Step): Pool
    requires Enabled(p, s)
  {
    match s
    case Open => p.(shares := p.shares + [Share(0, Quiet)])
    case Add(c, len) => p.(total := p.total + len, shares := p.shares[c := p.shares[c].(phase := Added(len, p.total))])
    case Decide(c) =>
      var x := p.shares[c];
      if x.phase.prev + x.phase.len > p.cap then
        p.(total := Max(0, p.total - x.phase.len), shares := p.shares[c := x.(phase := Quiet)])
      else p.(shares := p.shares[c := Share(x.bytes + x.phase.len, Quiet)])
    case Release(c, len) =>
      p.(total := Max(0, p.total - len), shares := p.shares[c := p.shares[c].(bytes := p.shares[c].bytes - len)])
  }

  /** Everything a cache has put into the total. */
  function Counted(x: Share): nat { x.bytes + if x.phase.Added? then x.phase.len else 0 }

  /** What it holds, or is going to hold: the bytes of entries and of additions that fitted. */
  function Committed(x: Share, cap: nat): nat {
    x.bytes + if x.phase.Added? && x.phase.prev + x.phase.len <= cap then x.phase.len else 0
  }

  function CountedAll(xs: seq<Share>): nat {
    if xs == [] then 0 else CountedAll(xs[..|xs| - 1]) + Counted(xs[|xs| - 1])
  }

  function CommittedAll(xs: seq<Share>, cap: nat): nat {
    if xs == [] then 0 else CommittedAll(xs[..|xs| - 1], cap) + Committed(xs[|xs| - 1], cap)
  }

  function BytesAll(xs: seq<Share>): nat {
    if xs == [] then 0 else BytesAll(xs[..|xs| - 1]) + xs[|xs| - 1].bytes
  }

  lemma {:induction false} OneChanged(xs: seq<Share>, c: nat, x: Share, cap: nat)
    requires c < |xs|
    ensures CountedAll(xs[c := x]) == CountedAll(xs) - Counted(xs[c]) + Counted(x)
    ensures CommittedAll(xs[c := x], cap) == CommittedAll(xs, cap) - Committed(xs[c], cap) + Committed(x, cap)
    ensures Counted(xs[c]) <= CountedAll(xs)
  {
    var n := |xs| - 1;
    if c < n {
      OneChanged(xs[..n], c, x, cap);
      assert xs[c := x][..n] == xs[..n][c := x];
    } else {
      assert xs[c := x][..n] == xs[..n];
    }
  }

  lemma {:induction false} SumsInOrder(xs: seq<Share>, cap: nat)
    ensures BytesAll(xs) <= CommittedAll(xs, cap) <= CountedAll(xs)
    ensures (forall i | 0 <= i < |xs| :: xs[i].phase.Quiet?) ==> BytesAll(xs) == CountedAll(xs)
  {
    if xs == [] {
    } else {
      SumsInOrder(xs[..|xs| - 1], cap);
    }
  }

  predicate Inv(p: Pool) { p.total == CountedAll(p.shares) && CommittedAll(p.shares, p.cap) <= p.cap }

  lemma StepKeeps(p: Pool, s: Step)
    requires Inv(p) && Enabled(p, s)
    ensures Inv(Apply(p, s)) && Apply(p, s).cap == p.cap
    ensures s.Release? ==> Apply(p, s).total == p.total - s.len
  {
    SumsInOrder(p.shares, p.cap);
    hide CountedAll, CommittedAll;
    if s.Open? {
      OneMore(p.shares, p.cap);
    } else {
      OneChanged(p.shares, s.c, Apply(p, s).shares[s.c], p.cap);
    }
  }

  lemma OneMore(xs: seq<Share>, cap: nat)
    ensures CountedAll(xs + [Share(0, Quiet)]) == CountedAll(xs)
    ensures CommittedAll(xs + [Share(0, Quiet)], cap) == CommittedAll(xs, cap)
  {
    assert (xs + [Share(0, Quiet)])[..|xs|] == xs;
  }

  ghost predicate Next(p: Pool, s: Step, q: Pool) { Enabled(p, s) && q == Apply(p, s) }

  ghost predicate Run(ps: seq<Pool>, ss: seq<Step>, cap: nat) {
    && |ps| == |ss| + 1 && ps[0] == Pool(0, cap, [])
    && forall i | 0 <= i < |ss| :: Next(ps[i], ss[i], ps[i + 1])
  }

  /** In every interleaving of every number of caches: the bytes cached never exceed the cap together,
      and whenever no reservation is under way the total is exactly those bytes. */
  lemma {:induction false} AlwaysWithinCap(ps: seq<Pool>, ss: seq<Step>, cap: nat, i: nat)
    requires Run(ps, ss, cap) && i < |ps|
    ensures Inv(ps[i]) && ps[i].cap == cap
    ensures BytesAll(ps[i].shares) <= cap && BytesAll(ps[i].shares) <= ps[i].total
    ensures (forall c | 0 <= c < |ps[i].shares| :: ps[i].shares[c].phase.Quiet?) ==>
              ps[i].total == BytesAll(ps[i].shares) <= cap
  {
    if i == 0 {
    } else {
      AlwaysWithinCap(ps, ss, cap, i - 1);
      assert Next(ps[i - 1], ss[i - 1], ps[i]);
      StepKeeps(ps[i - 1], ss[i - 1]);
    }
    SumsInOrder(ps[i].shares, cap);
  }

  /** A reservation that nothing comes between succeeds exactly if it fits, and otherwise leaves no trace. */
  lemma ReservesExactly(p: Pool, c: nat, len: nat)
    requires Inv(p) && c < |p.shares| && p.shares[c].phase.Quiet?
    ensures Enabled(p, Add(c, len)) && Enabled(Apply(p, Add(c, len)), Decide(c))
    ensures var q := Apply(Apply(p, Add(c, len)), Decide(c));
            if p.total + len <= p.cap
            then q.shares == p.shares[c := Share(p.shares[c].bytes + len, Quiet)] && q.total == p.total + len
            else q == p
  {
    var q := Apply(Apply(p, Add(c, len)), Decide(c));
    assert p.shares[c := p.shares[c]] == p.shares;
  }

  /** What a cache holds it can give back, and then holds nothing; a cache can be opened at any time. */
  lemma ReleasesExactly(p: Pool, c: nat)
    requires Inv(p) && c < |p.shares| && p.shares[c].phase.Quiet?
    ensures Enabled(p, Release(c, p.shares[c].bytes))
    ensures var q := Apply(p, Release(c, p.shares[c].bytes));
            q.shares == p.shares[c := Share(0, Quiet)] && q.total + p.shares[c].bytes == p.total
    ensures Enabled(p, Open) && Apply(p, Open).shares == p.shares + [Share(0, Quiet)]
  {
    OneChanged(p.shares, c, Share(0, Quiet), p.cap);
    hide CountedAll, CommittedAll;
  }
}
