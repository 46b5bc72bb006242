/** What holds of every election: bounded, one network one vote, earned, maximal, and sticky. */
module ExternalElection {
  import opened Common
  import opened ExternalAddress

  // ----- candidate lists -----

  lemma {:induction false} RemoveDistinct(s: seq<Network>, n: Network)
    requires Distinct(s)
    ensures Distinct(Remove(s, n))
  {
    if s == [] {
    } else {
      var front, last := s[..|s| - 1], s[|s| - 1];
      RemoveDistinct(front, n);
      assert forall i | 0 <= i < |front| :: s[i] != last;
      var r := Remove(front, n);
      assert forall i | 0 <= i < |r| :: r[i] in front;
    }
  }

  /** `d` is `c` with some votes gone. */
  predicate Reduced(d: Candidate, c: Candidate) {
    d.addr == c.addr && forall n | n in d.networks :: n in c.networks
  }

  lemma SeparateReduced(c: Candidate, d: Candidate, c': Candidate, d': Candidate)
    requires Separate(c, d) && Reduced(c', c) && Reduced(d', d)
    ensures Separate(c', d')
  {
  }

  /** Every candidate of `r` is a reduced candidate of `cs`, in the same order. */
  ghost predicate Thinned(r: seq<Candidate>, cs: seq<Candidate>) {
    exists at: seq<nat> :: ThinnedBy(r, cs, at)
  }

  predicate ThinnedBy(r: seq<Candidate>, cs: seq<Candidate>, at: seq<nat>) {
    && |at| == |r|
    && (forall i | 0 <= i < |at| :: at[i] < |cs| && CandidateOk(r[i]) && Reduced(r[i], cs[at[i]]))
    && (forall i, j | 0 <= i < j < |at| :: at[i] < at[j])
  }

  lemma ThinnedOk(r: seq<Candidate>, cs: seq<Candidate>)
    requires CandidatesOk(cs) && Thinned(r, cs)
    ensures CandidatesOk(r)
  {
    var at: seq<nat> :| ThinnedBy(r, cs, at);
    forall i, j | 0 <= i < j < |r|
      ensures Separate(r[i], r[j])
    {
      SeparateReduced(cs[at[i]], cs[at[j]], r[i], r[j]);
    }
  }

  lemma ThinnedSnoc(r: seq<Candidate>, cs: seq<Candidate>, c: Candidate, keep: Option<Candidate>)
    requires Thinned(r, cs)
    requires keep.Some? ==> CandidateOk(keep.value) && Reduced(keep.value, c)
    ensures Thinned(if keep.Some? then r + [keep.value] else r, cs + [c])
  {
    var at: seq<nat> :| ThinnedBy(r, cs, at);
    if keep.Some? {
      assert ThinnedBy(r + [keep.value], cs + [c], at + [|cs|]);
    } else {
      assert ThinnedBy(r, cs + [c], at);
    }
  }

  lemma {:induction false} WithdrawThins(cs: seq<Candidate>, addr: IpAddr, network: Network)
    requires CandidatesOk(cs)
    ensures Thinned(Withdraw(cs, addr, network), cs)
    ensures forall c | c in Withdraw(cs, addr, network) && c.addr != addr :: network !in c.networks
  {
    if cs == [] {
      assert ThinnedBy([], cs, []);
    } else {
      var front, c := cs[..|cs| - 1], cs[|cs| - 1];
      assert cs == front + [c];
      WithdrawThins(front, addr, network);
      RemoveDistinct(c.networks, network);
      var c' := if c.addr == addr then c else c.(networks := Remove(c.networks, network));
      hide Thinned, Withdraw;
      ThinnedSnoc(Withdraw(front, addr, network), front, c, if c'.networks == [] then None else Some(c'));
      WithdrawTurn(cs, addr, network);
    }
  }

  lemma WithdrawTurn(cs: seq<Candidate>, addr: IpAddr, network: Network)
    requires cs != [] && CandidateOk(cs[|cs| - 1])
    ensures Withdraw(cs, addr, network)
         == var c := cs[|cs| - 1];
            var c' := if c.addr == addr then c else c.(networks := Remove(c.networks, network));
            Withdraw(cs[..|cs| - 1], addr, network) + if c'.networks == [] then [] else [c']
  {
  }

  lemma {:induction false} DropAddressThins(cs: seq<Candidate>, addr: IpAddr)
    requires CandidatesOk(cs)
    ensures Thinned(DropAddress(cs, addr), cs)
  {
    if cs == [] {
      assert ThinnedBy([], cs, []);
    } else {
      var front, c := cs[..|cs| - 1], cs[|cs| - 1];
      assert cs == front + [c];
      DropAddressThins(front, addr);
      hide Thinned;
      ThinnedSnoc(DropAddress(front, addr), front, c, if c.addr == addr then None else Some(c));
    }
  }

  lemma {:induction false} HalveThins(cs: seq<Candidate>)
    requires CandidatesOk(cs)
    ensures Thinned(HalveAll(cs), cs)
  {
    if cs == [] {
      assert ThinnedBy([], cs, []);
    } else {
      var front, c := cs[..|cs| - 1], cs[|cs| - 1];
      assert cs == front + [c];
      HalveThins(front);
      var kept := c.networks[|c.networks| - |c.networks| / 2..];
      assert forall i | 0 <= i < |kept| :: kept[i] == c.networks[|c.networks| - |c.networks| / 2 + i];
      hide Thinned;
      ThinnedSnoc(HalveAll(front), front, c, if kept == [] then None else Some(c.(networks := kept)));
    }
  }

  lemma IndexOfUnique(cs: seq<Candidate>, i: nat)
    requires CandidatesOk(cs) && i < |cs|
    ensures IndexOf(cs, cs[i].addr) == i
  {
    var j := IndexOf(cs, cs[i].addr);
    assert j <= i;
    assert j < i ==> Separate(cs[j], cs[i]);
  }

  // ----- casting -----

  lemma SwapRemoveOk(cs: seq<Candidate>, i: nat)
    requires CandidatesOk(cs) && i < |cs|
    ensures CandidatesOk(SwapRemove(cs, i))
    ensures forall c | c in SwapRemove(cs, i) :: c in cs
    ensures forall c | c in cs :: c == cs[i] || c in SwapRemove(cs, i)
  {
    var n := |cs| - 1;
    var r := SwapRemove(cs, i);
    hide CandidateOk;
    forall a, b | 0 <= a < b < |r|
      ensures Separate(r[a], r[b])
    {
      assert Separate(cs[a], cs[b]);
      assert Separate(cs[a], cs[n]) && Separate(cs[b], cs[n]);
    }
    forall c | c in cs && c != cs[i]
      ensures c in r
    {
      var k :| 0 <= k < |cs| && cs[k] == c;
      assert r[if k == n then i else k] == c;
    }
  }

  /** Making room costs at most one candidate, and never the elected or a gateway-backed one; whoever
      goes has at most one vote, and no unprotected candidate is weaker. */
  lemma EvictionSpares(f: Family)
    requires CandidatesOk(f.candidates) && EvictForNewcomer(f).Some?
    ensures var g := EvictForNewcomer(f).value;
      && CandidatesOk(g.candidates) && |g.candidates| == |f.candidates| - 1
      && g == f.(candidates := g.candidates)
      && (forall c | c in g.candidates :: c in f.candidates)
      && exists v :: v in f.candidates && v !in g.candidates && IsVictim(f, g, v)
  {
    var g := EvictForNewcomer(f).value;
    var i := Weakest(f, f.candidates);
    SwapRemoveOk(f.candidates, i);
    SwapRemoveGone(f.candidates, i);
    hide CandidatesOk, SwapRemove;
    assert IsVictim(f, g, f.candidates[i]);
  }

  predicate IsVictim(f: Family, g: Family, v: Candidate) {
    && f.elected != Some(v.addr) && |v.networks| <= 1
    && (forall w | w in f.gateways && w.addr == v.addr :: w.backed.None?)
    && (forall c | c in f.candidates :: c == v || c in g.candidates)
    && (forall c | c in f.candidates :: !Weaker(f, c, v))
  }

  lemma SwapRemoveGone(cs: seq<Candidate>, i: nat)
    requires CandidatesOk(cs) && i < |cs|
    ensures cs[i] !in SwapRemove(cs, i)
  {
    var r := SwapRemove(cs, i);
    forall a | 0 <= a < |r|
      ensures r[a] != cs[i]
    {
      var k := if a == i then |cs| - 1 else a;
      assert k < i ==> Separate(cs[k], cs[i]);
      assert i < k ==> Separate(cs[i], cs[k]);
    }
  }

  lemma EndorseOk(c: Candidate, network: Network, clock: nat)
    requires |c.networks| <= MAX_VOTER_NETWORKS && Distinct(c.networks) && network !in c.networks
    ensures CandidateOk(Endorse(c, network, clock))
    ensures forall n | n in Endorse(c, network, clock).networks :: n in c.networks || n == network
    ensures network in Endorse(c, network, clock).networks
  {
  }

  lemma ReplaceOk(cs: seq<Candidate>, i: nat, c: Candidate)
    requires CandidatesOk(cs) && i < |cs| && CandidateOk(c) && c.addr == cs[i].addr
    requires forall k | 0 <= k < |cs| && k != i :: forall n | n in c.networks :: n !in cs[k].networks
    ensures CandidatesOk(cs[i := c])
  {
    var r := cs[i := c];
    forall a, b | 0 <= a < b < |r|
      ensures Separate(r[a], r[b])
    {
      assert Separate(cs[a], cs[b]);
    }
  }

  lemma AppendOk(cs: seq<Candidate>, c: Candidate)
    requires CandidatesOk(cs) && CandidateOk(c)
    requires forall k | 0 <= k < |cs| :: cs[k].addr != c.addr && forall n | n in c.networks :: n !in cs[k].networks
    ensures CandidatesOk(cs + [c])
  {
  }

  /** All 32 places are taken, each by a candidate that may not be evicted. */
  predicate NoneMayGo(f: Family, cs: seq<Candidate>) {
    |cs| == 32 && forall c | c in cs :: Protected(f, c.addr) || |c.networks| >= 2
  }

  /** A vote keeps the bounds; afterwards no other candidate has the network, and the address has it
      unless all 32 places are held by candidates too strong or too protected to make room. */
  lemma CastKeeps(f: Family, addr: IpAddr, network: Network)
    requires Inv(f)
    ensures var g := Cast(f, addr, network).0;
      && Inv(g) && g.elected == f.elected && g.gateways == f.gateways
      && (forall c | c in g.candidates && c.addr != addr :: network !in c.networks)
      && (HasVote(g.candidates, addr, network) || NoneMayGo(g, g.candidates))
      && (forall c, n | c in g.candidates && n in c.networks :: Voted(f.candidates, c.addr, n) || (c.addr == addr && n == network))
  {
    var i := IndexOf(f.candidates, addr);
    if i < |f.candidates| && network in f.candidates[i].networks {
      CastAgain(f, addr, network, i);
    } else {
      CastAnew(f, addr, network);
    }
  }

  /** A list of candidates after a vote for `addr`. */
  predicate Tallied(cs: seq<Candidate>, f: Family, addr: IpAddr, network: Network) {
    && CandidatesOk(cs)
    && (forall c | c in cs && c.addr != addr :: network !in c.networks)
    && (HasVote(cs, addr, network) || NoneMayGo(f, cs))
    && (forall c, n | c in cs && n in c.networks :: Voted(f.candidates, c.addr, n) || (c.addr == addr && n == network))
  }

  predicate HasVote(cs: seq<Candidate>, addr: IpAddr, network: Network) {
    exists c :: c in cs && c.addr == addr && network in c.networks
  }

  predicate Voted(cs: seq<Candidate>, addr: IpAddr, n: Network) {
    exists c :: c in cs && c.addr == addr && n in c.networks
  }

  lemma CastAgain(f: Family, addr: IpAddr, network: Network, i: nat)
    requires Inv(f) && i == IndexOf(f.candidates, addr) < |f.candidates| && network in f.candidates[i].networks
    ensures var cs := f.candidates[i := f.candidates[i].(touched := f.clock + 1)];
      && CandidatesOk(cs)
      && (forall c | c in cs && c.addr != addr :: network !in c.networks)
      && HasVote(cs, addr, network)
      && (forall c, n | c in cs && n in c.networks :: Voted(f.candidates, c.addr, n))
  {
    var c' := f.candidates[i].(touched := f.clock + 1);
    var cs := f.candidates[i := c'];
    OthersLack(f.candidates, i, network);
    forall k | 0 <= k < |f.candidates| && k != i
      ensures forall n | n in c'.networks :: n !in f.candidates[k].networks
    {
      assert k < i ==> Separate(f.candidates[k], f.candidates[i]);
      assert i < k ==> Separate(f.candidates[i], f.candidates[k]);
    }
    ReplaceOk(f.candidates, i, c');
    assert cs[i] == c';
    hide CandidatesOk;
    forall c, n | c in cs && n in c.networks
      ensures Voted(f.candidates, c.addr, n)
    {
      var k :| 0 <= k < |cs| && cs[k] == c;
      assert f.candidates[k] in f.candidates;
    }
  }

  lemma OthersLack(cs: seq<Candidate>, i: nat, network: Network)
    requires CandidatesOk(cs) && i < |cs| && network in cs[i].networks
    ensures forall k | 0 <= k < |cs| && k != i :: network !in cs[k].networks
  {
    forall k | 0 <= k < |cs| && k != i
      ensures network !in cs[k].networks
    {
      assert k < i ==> Separate(cs[k], cs[i]);
      assert i < k ==> Separate(cs[i], cs[k]);
    }
  }

  /** The list a new vote is entered into: bounded, and clear of the network. */
  predicate Cleared(cs: seq<Candidate>, was: seq<Candidate>, network: Network) {
    && CandidatesOk(cs)
    && (forall c | c in cs :: network !in c.networks)
    && (forall c, n | c in cs && n in c.networks :: Voted(was, c.addr, n))
  }

  lemma WithdrawClears(cs: seq<Candidate>, addr: IpAddr, network: Network)
    requires CandidatesOk(cs)
    requires IndexOf(cs, addr) == |cs| || network !in cs[IndexOf(cs, addr)].networks
    ensures Cleared(Withdraw(cs, addr, network), cs, network)
  {
    var r := Withdraw(cs, addr, network);
    WithdrawThins(cs, addr, network);
    ThinnedOk(r, cs);
    var at: seq<nat> :| ThinnedBy(r, cs, at);
    hide CandidateOk, Withdraw;
    forall c | c in r
      ensures network !in c.networks
      ensures forall n | n in c.networks :: Voted(cs, c.addr, n)
    {
      var k :| 0 <= k < |r| && r[k] == c;
      assert Reduced(c, cs[at[k]]);
      assert cs[at[k]] in cs;
      if c.addr == addr {
        IndexOfUnique(cs, at[k]);
      }
    }
  }

  lemma CastAnew(f: Family, addr: IpAddr, network: Network)
    requires Inv(f)
    requires IndexOf(f.candidates, addr) == |f.candidates| || network !in f.candidates[IndexOf(f.candidates, addr)].networks
    ensures var g := Cast(f, addr, network).0;
      && g == f.(clock := f.clock + 1, candidates := g.candidates)
      && |g.candidates| <= MAX_CANDIDATES
      && Tallied(g.candidates, f, addr, network)
  {
    var clock := f.clock + 1;
    var cs := Withdraw(f.candidates, addr, network);
    InvParts(f);
    WithdrawClears(f.candidates, addr, network);
    CastMoves(f, addr, network);
    var g := f.(clock := clock, candidates := cs);
    var j := IndexOf(cs, addr);
    hide Cast, Withdraw, Endorse, CandidatesOk, Cleared, Tallied, EvictForNewcomer, IndexOf, Inv;
    if j < |cs| {
      EndorsedOk(cs, f, j, network, clock);
    } else if |cs| < MAX_CANDIDATES {
      EnteredOk(cs, f, addr, network, clock);
    } else if EvictForNewcomer(g).Some? {
      EvictedClears(g, f.candidates, addr, network);
      EnteredOk(EvictForNewcomer(g).value.candidates, f, addr, network, clock);
    } else {
      NoVictim(g);
      FullTallied(cs, f, addr, network);
    }
  }

  /** A family whose other candidates have lost the network, with the vote entered. */
  function Entrant(g: Family, addr: IpAddr, network: Network): Family {
    var j := IndexOf(g.candidates, addr);
    var room := if |g.candidates| >= MAX_CANDIDATES then EvictForNewcomer(g) else Some(g);
    if j < |g.candidates| then
      g.(candidates := g.candidates[j := Endorse(g.candidates[j], network, g.clock)])
    else if room.None? then g
    else room.value.(candidates := room.value.candidates + [Endorse(Candidate(addr, [], g.clock), network, g.clock)])
  }

  lemma CastMoves(f: Family, addr: IpAddr, network: Network)
    requires IndexOf(f.candidates, addr) == |f.candidates| || network !in f.candidates[IndexOf(f.candidates, addr)].networks
    ensures Cast(f, addr, network).0
         == Entrant(f.(clock := f.clock + 1, candidates := Withdraw(f.candidates, addr, network)), addr, network)
  {
    hide Withdraw, Endorse, EvictForNewcomer, IndexOf;
  }

  lemma InvParts(f: Family)
    requires Inv(f)
    ensures CandidatesOk(f.candidates) && |f.candidates| <= MAX_CANDIDATES
  {
  }

  lemma FullTallied(cs: seq<Candidate>, f: Family, addr: IpAddr, network: Network)
    requires Cleared(cs, f.candidates, network) && NoneMayGo(f, cs)
    ensures Tallied(cs, f, addr, network)
  {
  }

  /** Nobody is evicted only if the weakest, and so everybody, is protected or has two votes. */
  lemma NoVictim(g: Family)
    requires |g.candidates| == MAX_CANDIDATES && EvictForNewcomer(g).None?
    ensures NoneMayGo(g, g.candidates)
    ensures forall f: Family | f.elected == g.elected && f.gateways == g.gateways :: NoneMayGo(f, g.candidates)
  {
    var i := Weakest(g, g.candidates);
    forall c | c in g.candidates
      ensures Protected(g, c.addr) || |c.networks| >= 2
    {
      assert !Weaker(g, c, g.candidates[i]);
    }
  }

  lemma EvictedClears(g: Family, was: seq<Candidate>, addr: IpAddr, network: Network)
    requires Cleared(g.candidates, was, network) && EvictForNewcomer(g).Some?
    requires forall k | 0 <= k < |g.candidates| :: g.candidates[k].addr != addr
    ensures var h := EvictForNewcomer(g).value;
      && Cleared(h.candidates, was, network) && h == g.(candidates := h.candidates)
      && |h.candidates| == |g.candidates| - 1
      && forall k | 0 <= k < |h.candidates| :: h.candidates[k].addr != addr
  {
    EvictionSpares(g);
    var h := EvictForNewcomer(g).value;
    hide CandidatesOk, EvictForNewcomer, Voted;
    forall k | 0 <= k < |h.candidates|
      ensures h.candidates[k].addr != addr
    {
      assert h.candidates[k] in g.candidates;
    }
  }

  lemma EndorsedOk(cs: seq<Candidate>, f: Family, j: nat, network: Network, clock: nat)
    requires Cleared(cs, f.candidates, network) && j < |cs|
    ensures Tallied(cs[j := Endorse(cs[j], network, clock)], f, cs[j].addr, network)
  {
    var e := Endorse(cs[j], network, clock);
    EndorseOk(cs[j], network, clock);
    hide Endorse;
    forall k | 0 <= k < |cs| && k != j
      ensures forall n | n in e.networks :: n !in cs[k].networks
    {
      assert k < j ==> Separate(cs[k], cs[j]);
      assert j < k ==> Separate(cs[j], cs[k]);
      assert cs[k] in cs;
    }
    ReplaceOk(cs, j, e);
    var r := cs[j := e];
    assert r[j] == e;
    hide CandidatesOk, CandidateOk;
    forall c | c in r
      ensures c == e || c in cs
    {
      var k :| 0 <= k < |r| && r[k] == c;
    }
    assert cs[j] in cs;
  }

  lemma EnteredOk(cs: seq<Candidate>, f: Family, addr: IpAddr, network: Network, clock: nat)
    requires Cleared(cs, f.candidates, network) && forall k | 0 <= k < |cs| :: cs[k].addr != addr
    ensures Tallied(cs + [Endorse(Candidate(addr, [], clock), network, clock)], f, addr, network)
  {
    var e := Endorse(Candidate(addr, [], clock), network, clock);
    EndorseOk(Candidate(addr, [], clock), network, clock);
    hide Endorse;
    forall k | 0 <= k < |cs|
      ensures forall n | n in e.networks :: n !in cs[k].networks
    {
      assert cs[k] in cs;
    }
    AppendOk(cs, e);
    hide CandidatesOk, CandidateOk;
    assert e in cs + [e];
  }

  // ----- gateways and ageing -----

  lemma ReportKeeps(f: Family, addr: IpAddr, id: Voter, now: nat)
    requires Inv(f)
    ensures var g := ReportGateway(f, addr, id, now);
      && Inv(g)
      && (forall c, n | c in g.candidates && n in c.networks :: Voted(f.candidates, c.addr, n))
      && (forall w | w in g.gateways :: w.addr == addr || w in f.gateways)
      && (g.elected == f.elected || g.elected == Some(addr))
      && (f.elected.Some? ==> g.elected.Some?)
  {
    var i := GatewayIndex(f.gateways, id);
    VotedSelf(f.candidates);
    if i < |f.gateways| {
      var previous := f.gateways[i].addr;
      DropAddressThins(f.candidates, previous);
      ThinnedOk(DropAddress(f.candidates, previous), f.candidates);
      ThinnedVoted(DropAddress(f.candidates, previous), f.candidates);
    }
    hide CandidatesOk, Thinned, DropAddress, Voted, Strength;
  }

  lemma VotedSelf(cs: seq<Candidate>)
    ensures forall c, n | c in cs && n in c.networks :: Voted(cs, c.addr, n)
  {
  }

  lemma ThinnedVoted(r: seq<Candidate>, cs: seq<Candidate>)
    requires Thinned(r, cs)
    ensures |r| <= |cs|
    ensures forall c, n | c in r && n in c.networks :: Voted(cs, c.addr, n)
  {
    var at: seq<nat> :| ThinnedBy(r, cs, at);
    AscendingFits(at, |cs|, |r|);
    forall c, n | c in r && n in c.networks
      ensures Voted(cs, c.addr, n)
    {
      var k :| 0 <= k < |r| && r[k] == c;
      assert Reduced(r[k], cs[at[k]]) && cs[at[k]] in cs;
    }
  }

  lemma {:induction false} AscendingFits(at: seq<nat>, bound: nat, n: nat)
    requires n <= |at| && (forall i | 0 <= i < n :: at[i] < bound)
    requires forall i, j | 0 <= i < j < n :: at[i] < at[j]
    ensures n <= bound
    decreases n
  {
    if n == 0 {
    } else {
      AscendingFits(at, at[n - 1], n - 1);
    }
  }

  lemma HalveKeeps(f: Family, now: nat)
    requires Inv(f)
    ensures var g := Halve(f, now);
      && Inv(g) && g.elected == f.elected
      && (forall c, n | c in g.candidates && n in c.networks :: Voted(f.candidates, c.addr, n))
      && (forall w | w in g.gateways :: exists v :: v in f.gateways && v.addr == w.addr)
  {
    HalveThins(f.candidates);
    ThinnedOk(HalveAll(f.candidates), f.candidates);
    ThinnedVoted(HalveAll(f.candidates), f.candidates);
    hide CandidatesOk, Thinned, HalveAll, Voted;
    var g := Halve(f, now);
    forall w | w in g.gateways
      ensures exists v :: v in f.gateways && v.addr == w.addr
    {
      var k :| 0 <= k < |g.gateways| && g.gateways[k] == w;
      assert f.gateways[k] in f.gateways && f.gateways[k].addr == w.addr;
    }
  }

  /** Halving leaves exactly the newer half of each candidate's votes, and no candidate without one. */
  lemma {:induction false} HalveExactly(cs: seq<Candidate>, c: Candidate)
    ensures c in HalveAll(cs) <==> exists i :: 0 <= i < |cs| && HalfOf(cs[i], c)
  {
    if cs == [] {
    } else {
      var front, last := cs[..|cs| - 1], cs[|cs| - 1];
      HalveExactly(front, c);
      assert cs == front + [last];
      if i :| 0 <= i < |cs| && HalfOf(cs[i], c) {
        assert i < |front| ==> HalfOf(front[i], c);
      }
      if i :| 0 <= i < |front| && HalfOf(front[i], c) {
        assert HalfOf(cs[i], c);
      }
      if HalfOf(last, c) {
        assert HalfOf(cs[|cs| - 1], c);
      }
    }
  }

  predicate HalfOf(was: Candidate, c: Candidate) {
    && |was.networks| >= 2
    && c == was.(networks := was.networks[|was.networks| - |was.networks| / 2..])
  }

  /** A vote takes its network away from every other candidate, and nothing else from anyone. */
  lemma {:induction false} WithdrawExactly(cs: seq<Candidate>, addr: IpAddr, network: Network, c: Candidate)
    ensures c in Withdraw(cs, addr, network) <==> exists i :: 0 <= i < |cs| && LessVote(cs[i], c, addr, network)
  {
    if cs == [] {
    } else {
      var front, last := cs[..|cs| - 1], cs[|cs| - 1];
      WithdrawExactly(front, addr, network, c);
      assert cs == front + [last];
      hide Remove;
      if i :| 0 <= i < |cs| && LessVote(cs[i], c, addr, network) {
        assert i < |front| ==> LessVote(front[i], c, addr, network);
      }
      if i :| 0 <= i < |front| && LessVote(front[i], c, addr, network) {
        assert LessVote(cs[i], c, addr, network);
      }
      if LessVote(last, c, addr, network) {
        assert LessVote(cs[|cs| - 1], c, addr, network);
      }
    }
  }

  predicate LessVote(was: Candidate, c: Candidate, addr: IpAddr, network: Network) {
    if was.addr == addr then c == was
    else c == was.(networks := Remove(was.networks, network)) && c.networks != []
  }

  /** A gateway's word: a renewal of the same address changes neither office nor tallies; a new or
      changed address backs it, drops the old one's votes, and takes office unless the incumbent is
      strictly stronger. */
  lemma GatewaySays(f: Family, addr: IpAddr, id: Voter, now: nat)
    ensures var g := ReportGateway(f, addr, id, now);
      var i := GatewayIndex(f.gateways, id);
      && Backed(g.gateways, addr)
      && (i < |f.gateways| && f.gateways[i].addr == addr ==> g.elected == f.elected && g.candidates == f.candidates)
      && (i < |f.gateways| && f.gateways[i].addr != addr ==>
            forall c :: c in g.candidates <==> c in f.candidates && c.addr != f.gateways[i].addr)
      && (i == |f.gateways| ==> g.candidates == f.candidates)
      && (i == |f.gateways| || f.gateways[i].addr != addr ==>
            || g.elected == Some(addr)
            || (g.elected == f.elected && f.elected.Some? && Strength(g, f.elected.value) > Strength(g, addr)))
  {
    var i := GatewayIndex(f.gateways, id);
    var g := ReportGateway(f, addr, id, now);
    if i < |f.gateways| {
      assert g.gateways[i] == Gateway(id, addr, Some(now));
      DropsOnly(f.candidates, f.gateways[i].addr);
    } else {
      assert g.gateways[|g.gateways| - 1] == Gateway(id, addr, Some(now));
    }
    hide Votes, DropAddress, Backed;
  }

  lemma {:induction false} DropsOnly(cs: seq<Candidate>, addr: IpAddr)
    ensures forall c :: c in DropAddress(cs, addr) <==> c in cs && c.addr != addr
  {
    if cs == [] {
    } else {
      DropsOnly(cs[..|cs| - 1], addr);
      assert cs == cs[..|cs| - 1] + [cs[|cs| - 1]];
    }
  }

  // ----- re-election -----

  lemma StrongContends(f: Family, a: IpAddr)
    requires Strength(f, a) >= MIN_VOTER_NETWORKS
    ensures a in Contenders(f)
  {
    var cs := Contenders(f);
    var i := IndexOf(f.candidates, a);
    if i < |f.candidates| {
      assert cs[i] == a;
    } else {
      var k :| 0 <= k < |f.gateways| && f.gateways[k].addr == a && f.gateways[k].backed.Some?;
      assert cs[|f.candidates| + k] == a;
    }
  }

  /** Re-election leaves the strongest address in office once any reaches the quorum, keeps an
      incumbent nobody strictly beats, and never leaves the office empty. */
  lemma ReelectBest(f: Family)
    ensures var g := Reelect(f);
      && g == f.(elected := g.elected)
      && (forall a | Strength(f, a) >= MIN_VOTER_NETWORKS ::
            g.elected.Some? && Strength(f, a) <= Strength(f, g.elected.value))
      && (f.elected.Some? ==> g.elected.Some?)
      && (g.elected != f.elected ==>
            && g.elected.Some? && Strength(f, g.elected.value) >= MIN_VOTER_NETWORKS
            && (f.elected.Some? ==> Strength(f, g.elected.value) > Strength(f, f.elected.value)))
  {
    hide Strength;
    forall a | Strength(f, a) >= MIN_VOTER_NETWORKS
      ensures a in Contenders(f)
    {
      StrongContends(f, a);
    }
    hide Contenders;
  }

  /** Nobody at the quorum is stronger than whoever is in office. */
  ghost predicate Maximal(f: Family) {
    forall a :: Strength(f, a) >= MIN_VOTER_NETWORKS ==>
      f.elected.Some? && Strength(f, a) <= Strength(f, f.elected.value)
  }

  /** The office changes hands only to a strictly stronger address that has the quorum. */
  predicate Sticky(f: Family, g: Family) {
    g.elected != f.elected ==>
      && g.elected.Some? && Strength(g, g.elected.value) >= MIN_VOTER_NETWORKS
      && (f.elected.Some? ==> Strength(g, g.elected.value) > Strength(g, f.elected.value))
  }

  lemma SameStrength(f: Family, g: Family)
    requires g == f.(elected := g.elected)
    ensures forall a :: Strength(g, a) == Strength(f, a)
  {
  }

  lemma ReelectFamily(f: Family)
    ensures Maximal(Reelect(f)) && Sticky(f, Reelect(f))
  {
    ReelectBest(f);
    hide Reelect, Strength;
    SameStrength(f, Reelect(f));
  }

  // ----- who was ever heard -----

  /** All votes ever cast and all addresses gateways ever reported. */
  datatype Record = Record(votes: set<(IpAddr, Network)>, words: set<IpAddr>)

  function Noted(h: Record, r: Report, isPublic: IpAddr -> bool): Record {
    var addr := Canonical(r.observed);
    match BallotOf(r, isPublic)
    case Ignored => h
    case Vote(n) => h.(votes := h.votes + {(addr, n)})
    case GatewayWord => h.(words := h.words + {addr})
  }

  function VotersFor(h: Record, a: IpAddr): set<Network> { set p | p in h.votes && p.0 == a :: p.1 }

  /** In office by a gateway's word or by at least three networks. */
  predicate Earned(h: Record, a: IpAddr) { a in h.words || |VotersFor(h, a)| >= 3 }

  /** A family contains nothing that was not heard, and only addresses of its own kind. */
  predicate Heard(f: Family, h: Record, v4: bool) {
    && (forall c, n | c in f.candidates && n in c.networks :: c.addr.V4? == v4 && (c.addr, n) in h.votes)
    && (forall w | w in f.gateways :: w.addr.V4? == v4 && w.addr in h.words)
    && (f.elected.Some? ==> f.elected.value.V4? == v4 && Earned(h, f.elected.value))
  }

  lemma EarnedMonotone(h: Record, h': Record, a: IpAddr)
    requires Earned(h, a) && h.votes <= h'.votes && h.words <= h'.words
    ensures Earned(h', a)
  {
    assert VotersFor(h, a) <= VotersFor(h', a);
    SubsetSize(VotersFor(h, a), VotersFor(h', a));
  }

  lemma {:induction false} SubsetSize<T>(a: set<T>, b: set<T>)
    requires a <= b
    ensures |a| <= |b|
    decreases |a|
  {
    if a != {} {
      var x :| x in a;
      SubsetSize(a - {x}, b - {x});
    }
  }

  lemma {:induction false} DistinctSize(s: seq<Network>, all: set<Network>)
    requires Distinct(s) && forall n | n in s :: n in all
    ensures |s| <= |all|
  {
    if s == [] {
    } else {
      var front, last := s[..|s| - 1], s[|s| - 1];
      assert forall i | 0 <= i < |front| :: s[i] != last;
      forall n | n in front
        ensures n in all - {last}
      {
        assert n in s;
      }
      DistinctSize(front, all - {last});
    }
  }

  /** Whoever reaches the quorum has earned it. */
  lemma StrongEarned(f: Family, h: Record, v4: bool, a: IpAddr)
    requires Inv(f) && Heard(f, h, v4) && Strength(f, a) >= MIN_VOTER_NETWORKS
    ensures Earned(h, a) && a.V4? == v4
  {
    var i := IndexOf(f.candidates, a);
    if i < |f.candidates| && |f.candidates[i].networks| >= MIN_VOTER_NETWORKS {
      var c := f.candidates[i];
      assert CandidateOk(c) && c in f.candidates && c.networks[0] in c.networks;
      forall n | n in c.networks
        ensures n in VotersFor(h, a)
      {
        assert (c.addr, n) in h.votes;
      }
      DistinctSize(c.networks, VotersFor(h, a));
    } else {
      var k :| 0 <= k < |f.gateways| && f.gateways[k].addr == a && f.gateways[k].backed.Some?;
      assert f.gateways[k] in f.gateways;
    }
  }

  /** The heard votes carry over when every remaining vote was there before or is newly noted. */
  lemma HeardFrom(f: Family, g: Family, h: Record, h': Record, v4: bool)
    requires Heard(f, h, v4) && h.votes <= h'.votes && h.words <= h'.words
    requires forall c, n | c in g.candidates && n in c.networks ::
      Voted(f.candidates, c.addr, n) || (c.addr.V4? == v4 && (c.addr, n) in h'.votes)
    requires forall w | w in g.gateways :: w.addr.V4? == v4 && w.addr in h'.words
    requires g.elected == f.elected || (g.elected.Some? && g.elected.value.V4? == v4 && Earned(h', g.elected.value))
    ensures Heard(g, h', v4)
  {
    if g.elected.Some? && g.elected == f.elected {
      EarnedMonotone(h, h', g.elected.value);
    }
    hide Earned;
  }

  lemma HalveHeard(f: Family, h: Record, v4: bool, now: nat)
    requires Inv(f) && Heard(f, h, v4)
    ensures Heard(Halve(f, now), h, v4)
  {
    HalveKeeps(f, now);
    hide Halve, Inv;
    HeardFrom(f, Halve(f, now), h, h, v4);
  }

  lemma ReelectHeard(f: Family, h: Record, v4: bool)
    requires Inv(f) && Heard(f, h, v4)
    ensures Inv(Reelect(f)) && Heard(Reelect(f), h, v4)
  {
    ReelectBest(f);
    var g := Reelect(f);
    if g.elected != f.elected {
      StrongEarned(f, h, v4, g.elected.value);
    }
    hide Reelect, Strength, Earned, CandidatesOk;
  }

  // ----- a whole vote -----

  predicate StateOk(s: State, h: Record) {
    Inv(s.v4) && Inv(s.v6) && Heard(s.v4, h, true) && Heard(s.v6, h, false)
  }

  lemma {:induction false} AgeOk(s: State, h: Record, now: nat, steps: nat)
    requires StateOk(s, h) && steps < MAX_AGE_STEPS
    ensures var t := Age(s, now, steps).0;
      StateOk(t, h) && t.v4.elected == s.v4.elected && t.v6.elected == s.v6.elected
    decreases MAX_AGE_STEPS - steps
  {
    if s.aged + AGE_INTERVAL <= now {
      HalveKeeps(s.v4, now);
      HalveKeeps(s.v6, now);
      HalveHeard(s.v4, h, true, now);
      HalveHeard(s.v6, h, false, now);
      var t := State(Halve(s.v4, now), Halve(s.v6, now), s.aged + AGE_INTERVAL);
      hide Halve, Inv, Heard;
      if steps + 1 < MAX_AGE_STEPS {
        AgeOk(t, h, now, steps + 1);
      }
    }
  }

  /** The family a ballot changes, before re-election. */
  function Entered(f: Family, addr: IpAddr, ballot: Ballot, voter: Voter, now: nat): (Family, bool)
    requires !ballot.Ignored?
  {
    if ballot.Vote? then Cast(f, addr, ballot.network) else (ReportGateway(f, addr, voter, now), true)
  }

  lemma EnteredHeard(f: Family, h: Record, r: Report, isPublic: IpAddr -> bool)
    requires Inv(f) && Heard(f, h, Canonical(r.observed).V4?) && !BallotOf(r, isPublic).Ignored?
    ensures var g := Entered(f, Canonical(r.observed), BallotOf(r, isPublic), r.voter, r.now).0;
      && Inv(g) && Heard(g, Noted(h, r, isPublic), Canonical(r.observed).V4?)
      && (g.elected == f.elected || (BallotOf(r, isPublic).GatewayWord? && g.elected == Some(Canonical(r.observed))))
      && (f.elected.Some? ==> g.elected.Some?)
  {
    var addr := Canonical(r.observed);
    var ballot := BallotOf(r, isPublic);
    var h' := Noted(h, r, isPublic);
    hide BallotOf, Canonical;
    if ballot.Vote? {
      CastKeeps(f, addr, ballot.network);
      hide Cast, Inv;
      HeardFrom(f, Cast(f, addr, ballot.network).0, h, h', addr.V4?);
    } else {
      ReportKeeps(f, addr, r.voter, r.now);
      hide ReportGateway, Inv;
      HeardFrom(f, ReportGateway(f, addr, r.voter, r.now), h, h', addr.V4?);
    }
  }

  lemma RecordGrows(f: Family, h: Record, v4: bool, r: Report, isPublic: IpAddr -> bool)
    requires Heard(f, h, v4)
    ensures Heard(f, Noted(h, r, isPublic), v4)
  {
    if f.elected.Some? {
      EarnedMonotone(h, Noted(h, r, isPublic), f.elected.value);
    }
    hide Earned, BallotOf;
  }

  /** One report, whatever it is: bounds and earnedness are kept; if it re-elected, the observed
      family's office goes to a strongest address; without a gateway's word an incumbent yields only
      to a strictly stronger address; and no office is ever emptied. */
  lemma VoteKeeps(s: State, h: Record, r: Report, isPublic: IpAddr -> bool)
    requires StateOk(s, h)
    ensures var (t, reelected) := VoteStep(s, r, isPublic);
      && StateOk(t, Noted(h, r, isPublic))
      && (s.v4.elected.Some? ==> t.v4.elected.Some?) && (s.v6.elected.Some? ==> t.v6.elected.Some?)
      && (reelected ==> Maximal(FamilyOf(t, Canonical(r.observed))))
      && (!BallotOf(r, isPublic).GatewayWord? ==>
            Sticky(FamilyOf(s, Canonical(r.observed)), FamilyOf(t, Canonical(r.observed))))
  {
    var ballot := BallotOf(r, isPublic);
    RecordGrows(s.v4, h, true, r, isPublic);
    RecordGrows(s.v6, h, false, r, isPublic);
    hide BallotOf, Canonical, Inv, Heard, Strength, Maximal, Sticky, Noted;
    if ballot.Ignored? {
      SticksSelf(FamilyOf(s, Canonical(r.observed)));
    } else {
      var addr := Canonical(r.observed);
      AgeOk(s, h, r.now, 0);
      var t := Age(s, r.now, 0).0;
      RecordGrows(t.v4, h, true, r, isPublic);
      RecordGrows(t.v6, h, false, r, isPublic);
      var f := FamilyOf(t, addr);
      EnteredHeard(f, h, r, isPublic);
      var g := Entered(f, addr, ballot, r.voter, r.now).0;
      ReelectHeard(g, Noted(h, r, isPublic), addr.V4?);
      ReelectBest(g);
      ReelectFamily(g);
      SticksSelf(g);
      SticksFrom(FamilyOf(s, addr), g, Reelect(g));
      SticksFrom(FamilyOf(s, addr), g, g);
      hide Age, Cast, ReportGateway, Reelect;
    }
  }

  lemma SticksSelf(f: Family)
    ensures Sticky(f, f)
  {
  }

  lemma SticksFrom(f: Family, g: Family, k: Family)
    requires Sticky(g, k)
    ensures f.elected == g.elected ==> Sticky(f, k)
  {
  }

  // ----- whole runs -----

  function Start(now: nat): State { State(NO_FAMILY, NO_FAMILY, now) }

  function After(now: nat, rs: seq<Report>, isPublic: IpAddr -> bool): State {
    if rs == [] then Start(now) else VoteStep(After(now, rs[..|rs| - 1], isPublic), rs[|rs| - 1], isPublic).0
  }

  function Recorded(rs: seq<Report>, isPublic: IpAddr -> bool): Record {
    if rs == [] then Record({}, {}) else Noted(Recorded(rs[..|rs| - 1], isPublic), rs[|rs| - 1], isPublic)
  }

  /** Over every run, whatever the ageing and eviction: both families keep their bounds, and an
      address that no gateway ever reported and fewer than three networks ever voted for is not in
      office. */
  lemma {:induction false} ElectionSafe(now: nat, rs: seq<Report>, isPublic: IpAddr -> bool)
    ensures StateOk(After(now, rs, isPublic), Recorded(rs, isPublic))
    ensures var s, h := After(now, rs, isPublic), Recorded(rs, isPublic);
      forall a :: !Earned(h, a) ==> s.v4.elected != Some(a) && s.v6.elected != Some(a)
  {
    if rs == [] {
    } else {
      ElectionSafe(now, rs[..|rs| - 1], isPublic);
      VoteKeeps(After(now, rs[..|rs| - 1], isPublic), Recorded(rs[..|rs| - 1], isPublic), rs[|rs| - 1], isPublic);
    }
    Officeholders(After(now, rs, isPublic), Recorded(rs, isPublic));
  }

  lemma Officeholders(s: State, h: Record)
    requires StateOk(s, h)
    ensures forall a :: !Earned(h, a) ==> s.v4.elected != Some(a) && s.v6.elected != Some(a)
  {
    hide Earned;
  }
}
