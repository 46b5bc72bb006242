/**
 Which voters share a network, what a vote leaves of all the others, and what follows for runs: voters of
 two networks never elect an address, and voters of three do.
 */
module ExternalVoters {
  import opened Common
  import opened ExternalAddress
  import opened ExternalElection

  // ----- networks -----

  /** Voters known by name only count as one; the others share a network by the first 24 bits of an IPv4
      address, IPv4-mapped ones included, or the first 48 bits of an IPv6 address. */
  predicate SameNetwork(v: Voter, w: Voter) {
    match (v, w)
    case (Host, Host) => true
    case (Ip(a), Ip(b)) =>
      (match (Canonical(a), Canonical(b))
       case (V4(x), V4(y)) => SameBits(x, y, 24, 32)
       case (V6(x), V6(y)) => SameBits(x, y, 48, 128)
       case _ => false)
    case _ => false
  }

  predicate ValidVoter(v: Voter) { v.Ip? ==> ValidIp(v.ip) }

  /** A voter has a network exactly if it is known by name or its address is public. */
  predicate MayVote(v: Voter, isPublic: IpAddr -> bool) { v.Ip? ==> isPublic(Canonical(v.ip)) }

  lemma NetworksExactly(v: Voter, w: Voter, isPublic: IpAddr -> bool)
    requires ValidVoter(v) && ValidVoter(w)
    ensures NetworkOf(v, isPublic).Some? <==> MayVote(v, isPublic)
    ensures MayVote(v, isPublic) && MayVote(w, isPublic) ==>
      (NetworkOf(v, isPublic) == NetworkOf(w, isPublic) <==> SameNetwork(v, w))
  {
    if v.Ip? && w.Ip? {
      var a, b := Canonical(v.ip), Canonical(w.ip);
      Powers();
      hide Pow2;
      if a.V4? && b.V4? {
        SameBitsExactly(a.v4, b.v4, 24, 32);
      } else if a.V6? && b.V6? {
        SameBitsExactly(a.v6, b.v6, 48, 128);
      }
    }
  }

  /** What the reports of an address have to be for it to hear from the networks of `v` and `w` alone. */
  predicate OnlyFrom(rs: seq<Report>, a: IpAddr, v: Voter, w: Voter, isPublic: IpAddr -> bool) {
    forall i | 0 <= i < |rs| && Canonical(rs[i].observed) == a ::
      && rs[i].source != GatewaySource && ValidVoter(rs[i].voter)
      && (SameNetwork(rs[i].voter, v) || SameNetwork(rs[i].voter, w))
  }

  lemma {:induction false} OnlyFromVotes(rs: seq<Report>, a: IpAddr, v: Voter, w: Voter, isPublic: IpAddr -> bool)
    requires ValidVoter(v) && ValidVoter(w) && MayVote(v, isPublic) && MayVote(w, isPublic)
    requires OnlyFrom(rs, a, v, w, isPublic)
    ensures a !in Recorded(rs, isPublic).words
    ensures forall n | (a, n) in Recorded(rs, isPublic).votes ::
      Some(n) == NetworkOf(v, isPublic) || Some(n) == NetworkOf(w, isPublic)
  {
    if rs == [] {
    } else {
      var front, r := rs[..|rs| - 1], rs[|rs| - 1];
      assert rs == front + [r];
      OnlyFromVotes(front, a, v, w, isPublic);
      hide NetworkOf, SameNetwork, MayVote, Canonical;
      if Canonical(r.observed) == a {
        assert rs[|rs| - 1] == r;
        NetworksExactly(r.voter, v, isPublic);
        NetworksExactly(r.voter, w, isPublic);
      }
    }
  }

  /** Over every run: an address no gateway reports, and only voters of two networks vote for, is never in
      office, however many voters they are and whatever else is reported. */
  lemma TwoNetworksNeverElect(now: nat, rs: seq<Report>, a: IpAddr, v: Voter, w: Voter, isPublic: IpAddr -> bool)
    requires ValidVoter(v) && ValidVoter(w) && MayVote(v, isPublic) && MayVote(w, isPublic)
    requires OnlyFrom(rs, a, v, w, isPublic)
    ensures After(now, rs, isPublic).v4.elected != Some(a) && After(now, rs, isPublic).v6.elected != Some(a)
  {
    var h := Recorded(rs, isPublic);
    OnlyFromVotes(rs, a, v, w, isPublic);
    NetworksExactly(v, w, isPublic);
    var two := {NetworkOf(v, isPublic).value, NetworkOf(w, isPublic).value};
    hide NetworkOf, MayVote;
    assert VotersFor(h, a) <= two;
    SubsetSize(VotersFor(h, a), two);
    ElectionSafe(now, rs, isPublic);
    assert !Earned(h, a);
  }

  // ----- what a vote leaves of the others -----

  lemma WithdrawVotes(cs: seq<Candidate>, addr: IpAddr, network: Network, b: IpAddr, n: Network)
    requires Voted(cs, b, n) && (b == addr || n != network)
    ensures Voted(Withdraw(cs, addr, network), b, n)
  {
    var c :| c in cs && c.addr == b && n in c.networks;
    var i :| 0 <= i < |cs| && cs[i] == c;
    var d := if b == addr then c else c.(networks := Remove(c.networks, network));
    assert n in d.networks;
    assert LessVote(cs[i], d, addr, network);
    WithdrawExactly(cs, addr, network, d);
  }

  lemma EndorseVotes(cs: seq<Candidate>, j: nat, network: Network, clock: nat, b: IpAddr, n: Network)
    requires CandidatesOk(cs) && j < |cs| && Voted(cs, b, n)
    ensures Voted(cs[j := Endorse(cs[j], network, clock)], b, n) || (b == cs[j].addr && Oldest(cs[j], n))
  {
    var c :| c in cs && c.addr == b && n in c.networks;
    var i :| 0 <= i < |cs| && cs[i] == c;
    var r := cs[j := Endorse(cs[j], network, clock)];
    assert r[i] in r;
    if i == j && !Oldest(c, n) {
      var k :| 0 <= k < |c.networks| && c.networks[k] == n;
      assert |c.networks| >= 64 ==> c.networks[1..][k - 1] == n;
      assert n in r[j].networks;
    }
  }

  /** The vote a candidate loses when it gets a 65th. */
  predicate Oldest(c: Candidate, n: Network) { |c.networks| == 64 && n == c.networks[0] }

  lemma EvictVotes(f: Family, b: IpAddr, n: Network)
    requires CandidatesOk(f.candidates) && EvictForNewcomer(f).Some? && Voted(f.candidates, b, n)
    ensures Voted(EvictForNewcomer(f).value.candidates, b, n) || !Protected(f, b)
  {
    EvictionSpares(f);
    var g := EvictForNewcomer(f).value;
    var v :| v in f.candidates && v !in g.candidates && IsVictim(f, g, v);
    var c :| c in f.candidates && c.addr == b && n in c.networks;
    hide EvictForNewcomer, CandidatesOk, Protected;
  }

  /** A vote that `addr`'s own gain does not take away stays, unless it is the oldest of 64 for `addr`, or
      one for an unprotected candidate that makes room for `addr` among 32. */
  lemma CastLeaves(f: Family, addr: IpAddr, network: Network, b: IpAddr, n: Network)
    requires Inv(f) && Voted(f.candidates, b, n) && (b == addr || n != network)
    ensures var i := IndexOf(f.candidates, addr);
      || Voted(Cast(f, addr, network).0.candidates, b, n)
      || (b == addr && i < |f.candidates| && Oldest(f.candidates[i], n))
      || (b != addr && !Protected(f, b) && i == |f.candidates| == 32)
  {
    var i := IndexOf(f.candidates, addr);
    if i < |f.candidates| && network in f.candidates[i].networks {
      TouchVotes(f.candidates, i, f.clock + 1, b, n);
    } else {
      CastMoves(f, addr, network);
      InvParts(f);
      WithdrawClears(f.candidates, addr, network);
      WithdrawVotes(f.candidates, addr, network, b, n);
      var g := f.(clock := f.clock + 1, candidates := Withdraw(f.candidates, addr, network));
      WithdrawPlace(f.candidates, addr, network);
      hide Cast, Withdraw, Endorse, Voted, Inv, CandidatesOk, EvictForNewcomer;
      EntrantVotes(g, addr, network, b, n);
    }
  }

  lemma TouchVotes(cs: seq<Candidate>, i: nat, clock: nat, b: IpAddr, n: Network)
    requires i < |cs| && Voted(cs, b, n)
    ensures Voted(cs[i := cs[i].(touched := clock)], b, n)
  {
    var c :| c in cs && c.addr == b && n in c.networks;
    var k :| 0 <= k < |cs| && cs[k] == c;
    var r := cs[i := cs[i].(touched := clock)];
    assert r[k] in r;
  }

  /** The address voted for keeps its place and its votes while others lose theirs. */
  lemma WithdrawPlace(cs: seq<Candidate>, addr: IpAddr, network: Network)
    requires CandidatesOk(cs)
    ensures var r := Withdraw(cs, addr, network);
            var i, j := IndexOf(cs, addr), IndexOf(r, addr);
            && (i < |cs| <==> j < |r|)
            && (i < |cs| ==> r[j] == cs[i])
  {
    var r := Withdraw(cs, addr, network);
    var i, j := IndexOf(cs, addr), IndexOf(r, addr);
    if i < |cs| {
      assert LessVote(cs[i], cs[i], addr, network);
      WithdrawExactly(cs, addr, network, cs[i]);
      var k :| 0 <= k < |r| && r[k] == cs[i];
    }
    if j < |r| {
      assert r[j] in r;
      WithdrawExactly(cs, addr, network, r[j]);
      var k :| 0 <= k < |cs| && LessVote(cs[k], r[j], addr, network);
      IndexOfUnique(cs, k);
    }
  }

  lemma EntrantVotes(g: Family, addr: IpAddr, network: Network, b: IpAddr, n: Network)
    requires CandidatesOk(g.candidates) && |g.candidates| <= 32 && Voted(g.candidates, b, n)
    ensures var j := IndexOf(g.candidates, addr);
      || Voted(Entrant(g, addr, network).candidates, b, n)
      || (b == addr && j < |g.candidates| && Oldest(g.candidates[j], n))
      || (b != addr && !Protected(g, b) && j == |g.candidates| == 32)
  {
    var j := IndexOf(g.candidates, addr);
    if j == |g.candidates| {
      NotThere(g.candidates, addr, b, n);
    }
    hide Endorse, Voted, CandidatesOk, EvictForNewcomer;
    if j < |g.candidates| {
      EndorseVotes(g.candidates, j, network, g.clock, b, n);
    } else if |g.candidates| < 32 {
      AppendVotes(g.candidates, Endorse(Candidate(addr, [], g.clock), network, g.clock), b, n);
    } else if EvictForNewcomer(g).Some? {
      EvictVotes(g, b, n);
      var h := EvictForNewcomer(g).value;
      if Voted(h.candidates, b, n) {
        AppendVotes(h.candidates, Endorse(Candidate(addr, [], g.clock), network, g.clock), b, n);
      }
      EvictOnlyList(g);
    }
  }

  lemma EvictOnlyList(g: Family)
    requires EvictForNewcomer(g).Some?
    ensures EvictForNewcomer(g).value == g.(candidates := EvictForNewcomer(g).value.candidates)
  {
  }

  lemma NotThere(cs: seq<Candidate>, addr: IpAddr, b: IpAddr, n: Network)
    requires IndexOf(cs, addr) == |cs| && Voted(cs, b, n)
    ensures b != addr
  {
  }

  lemma AppendVotes(cs: seq<Candidate>, c: Candidate, b: IpAddr, n: Network)
    requires Voted(cs, b, n)
    ensures Voted(cs + [c], b, n)
  {
    var d :| d in cs && d.addr == b && n in d.networks;
    assert d in cs + [c];
  }

  // ----- strength, and what a vote notes -----

  predicate LiveGateway(f: Family, a: IpAddr) { exists w :: w in f.gateways && w.addr == a && w.backed.Some? }

  /** An address is as strong as the networks that vote for it are many, and at least three strong while a
      gateway stands by it. */
  lemma StrengthExactly(f: Family, a: IpAddr, ns: set<Network>)
    requires Inv(f) && forall n :: n in ns <==> Voted(f.candidates, a, n)
    ensures Strength(f, a) == if LiveGateway(f, a) && |ns| < 3 then 3 else |ns|
  {
    BackedExactly(f, a);
    var i := IndexOf(f.candidates, a);
    if i < |f.candidates| {
      var c := f.candidates[i];
      forall n
        ensures n in ns <==> n in c.networks
      {
        OnlyCandidate(f.candidates, i, n);
      }
      DistinctCount(c.networks, ns);
    } else {
      NoCandidate(f.candidates, a);
      assert ns == {};
    }
  }

  lemma BackedExactly(f: Family, a: IpAddr)
    ensures Backed(f.gateways, a) <==> LiveGateway(f, a)
  {
    if w :| w in f.gateways && w.addr == a && w.backed.Some? {
      var i :| 0 <= i < |f.gateways| && f.gateways[i] == w;
    }
    if i :| 0 <= i < |f.gateways| && f.gateways[i].addr == a && f.gateways[i].backed.Some? {
      assert f.gateways[i] in f.gateways;
    }
  }

  lemma OnlyCandidate(cs: seq<Candidate>, i: nat, n: Network)
    requires CandidatesOk(cs) && i < |cs|
    ensures Voted(cs, cs[i].addr, n) <==> n in cs[i].networks
  {
    if Voted(cs, cs[i].addr, n) {
      var c :| c in cs && c.addr == cs[i].addr && n in c.networks;
      var k :| 0 <= k < |cs| && cs[k] == c;
      IndexOfUnique(cs, k);
      IndexOfUnique(cs, i);
    }
  }

  lemma NoCandidate(cs: seq<Candidate>, a: IpAddr)
    requires IndexOf(cs, a) == |cs|
    ensures forall n :: !Voted(cs, a, n)
  {
  }

  lemma {:induction false} DistinctCount(s: seq<Network>, ns: set<Network>)
    requires Distinct(s) && forall n :: n in ns <==> n in s
    ensures |ns| == |s|
  {
    if s == [] {
      assert ns == {};
    } else {
      var front, last := s[..|s| - 1], s[|s| - 1];
      assert s == front + [last];
      DistinctCount(front, ns - {last});
    }
  }

  /** A vote the address already has is noted by its time alone; any other counts as a change. */
  lemma RevoteChangesNothing(f: Family, addr: IpAddr, network: Network)
    requires Inv(f)
    ensures Cast(f, addr, network).1 <==> !Voted(f.candidates, addr, network)
    ensures Voted(f.candidates, addr, network) ==>
              forall b, n :: Voted(Cast(f, addr, network).0.candidates, b, n) ==> Voted(f.candidates, b, n)
  {
    CastKeeps(f, addr, network);
    var i := IndexOf(f.candidates, addr);
    if i < |f.candidates| {
      OnlyCandidate(f.candidates, i, network);
    } else {
      NoCandidate(f.candidates, addr);
    }
    hide Withdraw, EvictForNewcomer, Endorse;
  }

  /** No candidate was touched after now. */
  predicate ClockOk(f: Family) { forall c | c in f.candidates :: c.touched <= f.clock }

  predicate TouchedAs(cs: seq<Candidate>, c: Candidate) {
    exists d :: d in cs && d.addr == c.addr && d.touched == c.touched
  }

  /** A vote, new or not, makes its address the one touched last, and leaves the others' times alone. */
  lemma CastTouches(f: Family, addr: IpAddr, network: Network)
    requires Inv(f) && ClockOk(f)
    ensures var g := Cast(f, addr, network).0;
            && g.clock == f.clock + 1 && ClockOk(g)
            && forall c | c in g.candidates ::
                 if c.addr == addr then c.touched == g.clock else TouchedAs(f.candidates, c) && c.touched < g.clock
  {
    var g := Cast(f, addr, network).0;
    forall c | c in g.candidates
      ensures if c.addr == addr then c.touched == f.clock + 1 else TouchedAs(f.candidates, c)
    {
      CastTouchesOne(f, addr, network, c);
    }
    CastTicks(f, addr, network);
    hide Cast, Inv;
  }

  lemma CastTicks(f: Family, addr: IpAddr, network: Network)
    ensures Cast(f, addr, network).0.clock == f.clock + 1
  {
    hide Withdraw, EvictForNewcomer, Endorse;
    var g := f.(clock := f.clock + 1, candidates := Withdraw(f.candidates, addr, network));
    if EvictForNewcomer(g).Some? {
      EvictOnlyList(g);
    }
  }

  lemma CastTouchesOne(f: Family, addr: IpAddr, network: Network, c: Candidate)
    requires Inv(f) && c in Cast(f, addr, network).0.candidates
    ensures if c.addr == addr then c.touched == f.clock + 1 else TouchedAs(f.candidates, c)
  {
    var i := IndexOf(f.candidates, addr);
    if i < |f.candidates| && network in f.candidates[i].networks {
      RevoteTouches(f.candidates, i, f.clock + 1, c);
    } else {
      CastMoves(f, addr, network);
      InvParts(f);
      WithdrawClears(f.candidates, addr, network);
      var g := f.(clock := f.clock + 1, candidates := Withdraw(f.candidates, addr, network));
      hide Cast, Withdraw, Endorse, Inv, CandidatesOk, EvictForNewcomer;
      var d := EntrantTouches(g, addr, network, c);
      if c.addr != addr {
        WithdrawTouches(f.candidates, addr, network, d);
      }
    }
  }

  lemma RevoteTouches(cs: seq<Candidate>, i: nat, clock: nat, c: Candidate)
    requires CandidatesOk(cs) && i < |cs| && c in cs[i := cs[i].(touched := clock)]
    ensures if c.addr == cs[i].addr then c.touched == clock else TouchedAs(cs, c)
  {
    var r := cs[i := cs[i].(touched := clock)];
    var k :| 0 <= k < |r| && r[k] == c;
    if k != i {
      assert cs[k] in cs;
      IndexOfUnique(cs, k);
      IndexOfUnique(cs, i);
    }
  }

  lemma WithdrawTouches(cs: seq<Candidate>, addr: IpAddr, network: Network, c: Candidate)
    requires c in Withdraw(cs, addr, network)
    ensures TouchedAs(cs, c)
  {
    WithdrawExactly(cs, addr, network, c);
    var k :| 0 <= k < |cs| && LessVote(cs[k], c, addr, network);
    assert cs[k] in cs;
  }

  lemma EntrantTouches(g: Family, addr: IpAddr, network: Network, c: Candidate) returns (d: Candidate)
    requires CandidatesOk(g.candidates) && c in Entrant(g, addr, network).candidates
    ensures c.addr == addr ==> c.touched == g.clock
    ensures c.addr != addr ==> d in g.candidates && d == c
  {
    d := c;
    var j := IndexOf(g.candidates, addr);
    if j < |g.candidates| {
      var r := g.candidates[j := Endorse(g.candidates[j], network, g.clock)];
      var k :| 0 <= k < |r| && r[k] == c;
      if k != j {
        IndexOfUnique(g.candidates, k);
      }
    } else {
      var room := if |g.candidates| >= 32 then EvictForNewcomer(g) else Some(g);
      if room.Some? {
        if |g.candidates| >= 32 {
          EvictionSpares(g);
        }
        assert forall e | e in room.value.candidates :: e in g.candidates;
      }
    }
  }

  // ----- gateways -----

  /** Halving takes a gateway's backing away after three hours without its word, and changes nothing else
      about gateways. */
  lemma BackingExpires(f: Family, now: nat, i: nat)
    requires i < |f.gateways|
    ensures var g := Halve(f, now);
            && |g.gateways| == |f.gateways|
            && g.gateways[i].id == f.gateways[i].id && g.gateways[i].addr == f.gateways[i].addr
            && (g.gateways[i].backed.Some? <==> f.gateways[i].backed.Some? && now < f.gateways[i].backed.value + 10800)
            && (g.gateways[i].backed.Some? ==> g.gateways[i].backed == f.gateways[i].backed)
  {
  }

  /** A gateway's word is noted with its time; the other gateways stay as they are, but for the oldest of
      eight when a ninth reports. */
  lemma GatewaysKept(f: Family, addr: IpAddr, id: Voter, now: nat, w: Gateway)
    requires w in f.gateways && w.id != id
    ensures var g := ReportGateway(f, addr, id, now);
            && Gateway(id, addr, Some(now)) in g.gateways
            && (w in g.gateways || (|f.gateways| >= 8 && w == f.gateways[0] && forall v | v in f.gateways :: v.id != id))
  {
    var i := GatewayIndex(f.gateways, id);
    var g := ReportGateway(f, addr, id, now);
    var k :| 0 <= k < |f.gateways| && f.gateways[k] == w;
    hide DropAddress, Strength;
    if i < |f.gateways| {
      assert g.gateways[i] == Gateway(id, addr, Some(now)) && g.gateways[k] == w;
    } else {
      NoGateway(f.gateways, id);
      assert g.gateways[|g.gateways| - 1] == Gateway(id, addr, Some(now));
      if |f.gateways| >= 8 {
        assert k > 0 ==> g.gateways[k - 1] == w;
      } else {
        assert g.gateways[k] == w;
      }
    }
  }

  lemma {:induction false} NoGateway(gs: seq<Gateway>, id: Voter)
    requires GatewayIndex(gs, id) == |gs|
    ensures forall v | v in gs :: v.id != id
  {
    if gs == [] {
    } else {
      NoGateway(gs[1..], id);
      assert gs == [gs[0]] + gs[1..];
    }
  }

  // ----- what counts, and what it takes to be elected -----

  /** A report counts exactly if it is about a public address and comes from a gateway, or directly from
      a voter that may vote. */
  predicate Counts(r: Report, isPublic: IpAddr -> bool) {
    isPublic(Canonical(r.observed))
    && (r.source == GatewaySource || (r.route == Direct && MayVote(r.voter, isPublic)))
  }

  lemma BallotExactly(r: Report, isPublic: IpAddr -> bool)
    ensures BallotOf(r, isPublic).Ignored? <==> !Counts(r, isPublic)
    ensures BallotOf(r, isPublic).GatewayWord? <==> isPublic(Canonical(r.observed)) && r.source == GatewaySource
  {
  }

  /** What does not count changes nothing. */
  lemma UncountedChangesNothing(s: State, r: Report, isPublic: IpAddr -> bool)
    requires !Counts(r, isPublic)
    ensures VoteStep(s, r, isPublic) == (s, false)
  {
    BallotExactly(r, isPublic);
  }

  /** Votes for one address, within the hour, from voters of pairwise different networks. */
  predicate SoleVotes(rs: seq<Report>, a: IpAddr, now: nat, isPublic: IpAddr -> bool) {
    && |rs| <= 64
    && (forall i | 0 <= i < |rs| ::
          && Canonical(rs[i].observed) == a && rs[i].source != GatewaySource && Counts(rs[i], isPublic)
          && ValidVoter(rs[i].voter) && rs[i].now < now + 3600)
    && forall i, j | 0 <= i < j < |rs| :: !SameNetwork(rs[i].voter, rs[j].voter)
  }

  function NetworkOr(v: Voter, isPublic: IpAddr -> bool): Network {
    var n := NetworkOf(v, isPublic);
    if n.Some? then n.value else HostNet
  }

  function Networks(rs: seq<Report>, isPublic: IpAddr -> bool): (ns: seq<Network>)
    ensures |ns| == |rs| && forall i | 0 <= i < |rs| :: ns[i] == NetworkOr(rs[i].voter, isPublic)
  {
    seq(|rs|, i requires 0 <= i < |rs| => NetworkOr(rs[i].voter, isPublic))
  }

  /** A family that has heard of one address only, from the networks `ns`. */
  predicate Sole(f: Family, a: IpAddr, ns: seq<Network>) {
    && f.gateways == []
    && (if ns == [] then f.candidates == [] else |f.candidates| == 1 && f.candidates[0].addr == a && f.candidates[0].networks == ns)
    && f.elected == if |ns| >= 3 then Some(a) else None
  }

  lemma SoleCast(f: Family, a: IpAddr, ns: seq<Network>, n: Network)
    requires Sole(f, a, ns) && n !in ns && |ns| < 64
    ensures Cast(f, a, n).1 && Sole(Reelect(Cast(f, a, n).0), a, ns + [n])
  {
    var g := Cast(f, a, n).0;
    if ns == [] {
      assert Endorse(Candidate(a, [], f.clock + 1), n, f.clock + 1).networks == [n];
      assert g.candidates == [Endorse(Candidate(a, [], f.clock + 1), n, f.clock + 1)];
    } else {
      assert f.candidates == [f.candidates[0]];
      assert Withdraw(f.candidates, a, n) == f.candidates;
      assert g.candidates == [Candidate(a, ns + [n], f.clock + 1)];
    }
    assert Contenders(g) == [a];
    assert Strength(g, a) == |ns| + 1;
    SoleBest(g, a);
  }

  lemma SoleBest(g: Family, a: IpAddr)
    ensures Best(g, [a]) == if Strength(g, a) >= 3 then Some(a) else None
  {
    assert Best(g, [a][..0]) == None;
  }

  lemma SoleTurn(rs: seq<Report>, a: IpAddr, now: nat, isPublic: IpAddr -> bool)
    requires rs != [] && SoleVotes(rs, a, now, isPublic)
    ensures var front, r := rs[..|rs| - 1], rs[|rs| - 1];
            var n := NetworkOf(r.voter, isPublic);
            && SoleVotes(front, a, now, isPublic) && Counts(r, isPublic) && r.source != GatewaySource
            && n.Some? && n.value !in Networks(front, isPublic)
            && Networks(rs, isPublic) == Networks(front, isPublic) + [n.value]
            && Canonical(r.observed) == a && r.now < now + 3600
  {
    var front, r := rs[..|rs| - 1], rs[|rs| - 1];
    NetworksExactly(r.voter, r.voter, isPublic);
    forall i | 0 <= i < |front|
      ensures Networks(front, isPublic)[i] != NetworkOf(r.voter, isPublic).value
    {
      assert Counts(rs[i], isPublic) && !SameNetwork(rs[i].voter, rs[|rs| - 1].voter);
      NetworksExactly(front[i].voter, r.voter, isPublic);
    }
  }

  /** A vote while no full hour has passed. */
  lemma VoteUnaged(s: State, r: Report, isPublic: IpAddr -> bool)
    requires Counts(r, isPublic) && r.source != GatewaySource && NetworkOf(r.voter, isPublic).Some?
    requires r.now < s.aged + 3600
    ensures var a, n := Canonical(r.observed), NetworkOf(r.voter, isPublic).value;
            Cast(FamilyOf(s, a), a, n).1 ==>
              VoteStep(s, r, isPublic) == (WithFamily(s, a, Reelect(Cast(FamilyOf(s, a), a, n).0)), true)
  {
    hide Cast, Reelect, Canonical, NetworkOf;
  }

  /** From a fresh start, an address that alone is voted for is elected by its third network, within the
      hour, and not before. */
  lemma {:induction false} ThirdNetworkElects(now: nat, rs: seq<Report>, a: IpAddr, isPublic: IpAddr -> bool)
    requires SoleVotes(rs, a, now, isPublic)
    ensures var s := After(now, rs, isPublic);
            && s.aged == now && Sole(FamilyOf(s, a), a, Networks(rs, isPublic))
            && FamilyOf(s, a).elected == if |rs| >= 3 then Some(a) else None
  {
    if rs == [] {
    } else {
      var front, r := rs[..|rs| - 1], rs[|rs| - 1];
      SoleTurn(rs, a, now, isPublic);
      ThirdNetworkElects(now, front, a, isPublic);
      var s := After(now, front, isPublic);
      SoleCast(FamilyOf(s, a), a, Networks(front, isPublic), NetworkOf(r.voter, isPublic).value);
      hide Cast, Reelect, SoleVotes, NetworkOf, Canonical, Counts, VoteStep;
      VoteUnaged(s, r, isPublic);
    }
  }

  // ----- ageing and publishing -----

  function HalvedTimes(f: Family, now: nat, n: nat): Family {
    if n == 0 then f else Halve(HalvedTimes(f, now, n - 1), now)
  }

  lemma {:induction false} HalveOnceMore(f: Family, now: nat, n: nat)
    ensures HalvedTimes(Halve(f, now), now, n) == HalvedTimes(f, now, n + 1)
  {
    if n == 0 {
    } else {
      HalveOnceMore(f, now, n - 1);
    }
  }

  function HoursSince(since: nat, now: nat): nat { if now < since then 0 else (now - since) / 3600 }

  lemma HourLater(since: nat, now: nat)
    ensures since + 3600 <= now ==> HoursSince(since, now) == 1 + HoursSince(since + 3600, now)
    ensures since + 3600 > now ==> HoursSince(since, now) == 0
  {
  }

  /** Ageing halves both families once for every full hour since the last time, at most eight times, and
      after eight the clock starts over. */
  lemma AgesHourly(s: State, now: nat)
    ensures var n: nat := Min(HoursSince(s.aged, now), 8);
            Age(s, now, 0) == Aged(s, now, n, if n == 8 then now else s.aged + 3600 * n, n)
  {
    AgesFrom(s, now, 0);
  }

  function Aged(s: State, now: nat, n: nat, clock: nat, steps: nat): (State, nat) {
    (State(HalvedTimes(s.v4, now, n), HalvedTimes(s.v6, now, n), clock), steps)
  }

  lemma {:induction false} AgesFrom(s: State, now: nat, steps: nat)
    requires steps < 8
    ensures var n: nat := Min(HoursSince(s.aged, now), 8 - steps);
            Age(s, now, steps) == Aged(s, now, n, if steps + n == 8 then now else s.aged + 3600 * n, steps + n)
    decreases 8 - steps
  {
    hide *;
    AgeTurn(s, now, steps);
    HourLater(s.aged, now);
    if s.aged + 3600 > now {
      AgedNone(s, now, s.aged, steps);
    } else if steps + 1 == 8 {
      AgedOne(s, now, now, 8);
    } else {
      var t := State(Halve(s.v4, now), Halve(s.v6, now), s.aged + 3600);
      AgesFrom(t, now, steps + 1);
      MinIs(HoursSince(t.aged, now), 8 - (steps + 1));
      var n: nat := Min(HoursSince(t.aged, now), 8 - (steps + 1));
      AgedMore(s, now, n, if steps + 1 + n == 8 then now else t.aged + 3600 * n, steps + 1 + n);
    }
    MinIs(HoursSince(s.aged, now), 8 - steps);
  }

  lemma MinIs(a: nat, b: nat)
    ensures Min(a, b) == if a <= b then a else b
  {
  }

  lemma AgeTurn(s: State, now: nat, steps: nat)
    requires steps < 8
    ensures s.aged + 3600 > now ==> Age(s, now, steps) == (s, steps)
    ensures s.aged + 3600 <= now ==>
      var t := State(Halve(s.v4, now), Halve(s.v6, now), s.aged + 3600);
      Age(s, now, steps) == if steps + 1 < 8 then Age(t, now, steps + 1) else (t.(aged := now), 8)
  {
    hide Halve;
  }

  lemma AgedNone(s: State, now: nat, clock: nat, steps: nat)
    ensures Aged(s, now, 0, clock, steps) == (s.(aged := clock), steps)
  {
  }

  lemma AgedOne(s: State, now: nat, clock: nat, steps: nat)
    ensures Aged(s, now, 1, clock, steps) == (State(Halve(s.v4, now), Halve(s.v6, now), clock), steps)
  {
    hide Halve;
    assert HalvedTimes(s.v4, now, 0) == s.v4 && HalvedTimes(s.v6, now, 0) == s.v6;
  }

  lemma AgedMore(s: State, now: nat, n: nat, clock: nat, steps: nat)
    ensures Aged(State(Halve(s.v4, now), Halve(s.v6, now), s.aged + 3600), now, n, clock, steps)
         == Aged(s, now, n + 1, clock, steps)
  {
    HalveOnceMore(s.v4, now, n);
    HalveOnceMore(s.v6, now, n);
    hide Halve, HalvedTimes;
  }

  /** What is published shows both offices. */
  lemma SnapshotShows(s: State, h: Record)
    requires StateOk(s, h)
    ensures Snapshot(s) == Addresses(s.v4.elected, s.v6.elected)
  {
  }

  /** A report after which nothing is published changed no office. */
  lemma UnpublishedIsUnchanged(s: State, r: Report, isPublic: IpAddr -> bool)
    ensures var (t, published) := VoteStep(s, r, isPublic);
            !published ==> t.v4.elected == s.v4.elected && t.v6.elected == s.v6.elected
  {
    AgesHourly(s, r.now);
    hide Canonical, BallotOf, Withdraw, EvictForNewcomer, Endorse, Reelect, ReportGateway;
  }

  /** The observed address has the voter's vote already. */
  predicate Repeats(s: State, r: Report, isPublic: IpAddr -> bool) {
    var a := Canonical(r.observed);
    Voted(FamilyOf(s, a).candidates, a, NetworkOr(r.voter, isPublic))
  }

  /** Every report that counts ends in a re-election, unless it repeats a vote its address already has
      within the hour. */
  lemma ReelectsExactly(s: State, h: Record, r: Report, isPublic: IpAddr -> bool)
    requires StateOk(s, h)
    ensures VoteStep(s, r, isPublic).1
       <==> Counts(r, isPublic) && (r.source == GatewaySource || s.aged + 3600 <= r.now || !Repeats(s, r, isPublic))
  {
    BallotExactly(r, isPublic);
    AgeTurn(s, r.now, 0);
    AgesHourly(s, r.now);
    HourLater(s.aged, r.now);
    var a := Canonical(r.observed);
    RevoteChangesNothing(FamilyOf(s, a), a, NetworkOr(r.voter, isPublic));
    hide Canonical, Cast, Reelect, ReportGateway, Age, HoursSince, Voted, HalvedTimes, Inv;
  }

  // ----- time stamps -----

  lemma HalveTouches(f: Family, now: nat)
    requires ClockOk(f)
    ensures ClockOk(Halve(f, now))
  {
    var g := Halve(f, now);
    forall c | c in g.candidates
      ensures c.touched <= g.clock
    {
      HalveExactly(f.candidates, c);
      var i :| 0 <= i < |f.candidates| && HalfOf(f.candidates[i], c);
      assert f.candidates[i] in f.candidates;
    }
  }

  lemma GatewayTouches(f: Family, addr: IpAddr, id: Voter, now: nat)
    requires ClockOk(f)
    ensures ClockOk(ReportGateway(f, addr, id, now))
  {
    var i := GatewayIndex(f.gateways, id);
    if i < |f.gateways| {
      DropsOnly(f.candidates, f.gateways[i].addr);
    }
    hide Strength, DropAddress;
  }

  lemma {:induction false} AgeTouches(s: State, now: nat, steps: nat)
    requires steps < 8 && ClockOk(s.v4) && ClockOk(s.v6)
    ensures ClockOk(Age(s, now, steps).0.v4) && ClockOk(Age(s, now, steps).0.v6)
    decreases 8 - steps
  {
    HalveTouches(s.v4, now);
    HalveTouches(s.v6, now);
    AgeTurn(s, now, steps);
    hide Halve, Age, ClockOk;
    if s.aged + 3600 <= now && steps + 1 < 8 {
      AgeTouches(State(Halve(s.v4, now), Halve(s.v6, now), s.aged + 3600), now, steps + 1);
    }
  }

  lemma ClockOnly(f: Family)
    ensures ClockOk(f) ==> ClockOk(Reelect(f))
  {
    ReelectBest(f);
    hide Reelect, Strength;
  }

  /** The ballot cast, before and after re-election. */
  lemma EntryTouches(f: Family, r: Report, isPublic: IpAddr -> bool)
    requires Inv(f) && ClockOk(f) && !BallotOf(r, isPublic).Ignored?
    ensures var g := Entered(f, Canonical(r.observed), BallotOf(r, isPublic), r.voter, r.now).0;
            ClockOk(g) && ClockOk(Reelect(g))
  {
    var a, ballot := Canonical(r.observed), BallotOf(r, isPublic);
    hide Canonical, BallotOf, ClockOk, Inv;
    if ballot.Vote? {
      CastTouches(f, a, ballot.network);
      ClockOnly(Cast(f, a, ballot.network).0);
    } else {
      GatewayTouches(f, a, r.voter, r.now);
      ClockOnly(ReportGateway(f, a, r.voter, r.now));
    }
  }

  lemma VoteTouches(s: State, h: Record, r: Report, isPublic: IpAddr -> bool)
    requires StateOk(s, h) && ClockOk(s.v4) && ClockOk(s.v6)
    ensures var t := VoteStep(s, r, isPublic).0; ClockOk(t.v4) && ClockOk(t.v6)
  {
    hide Canonical, BallotOf, ClockOk, Inv, Heard, Age;
    if !BallotOf(r, isPublic).Ignored? {
      AgeTouches(s, r.now, 0);
      AgeOk(s, h, r.now, 0);
      EntryTouches(FamilyOf(Age(s, r.now, 0).0, Canonical(r.observed)), r, isPublic);
      hide Cast, ReportGateway, Reelect;
    }
  }

  /** In every run, no candidate carries a time that has not come. */
  lemma {:induction false} AlwaysClockOk(now: nat, rs: seq<Report>, isPublic: IpAddr -> bool)
    ensures ClockOk(After(now, rs, isPublic).v4) && ClockOk(After(now, rs, isPublic).v6)
  {
    if rs == [] {
    } else {
      var front := rs[..|rs| - 1];
      AlwaysClockOk(now, front, isPublic);
      ElectionSafe(now, front, isPublic);
      VoteTouches(After(now, front, isPublic), Recorded(front, isPublic), rs[|rs| - 1], isPublic);
    }
  }
}
