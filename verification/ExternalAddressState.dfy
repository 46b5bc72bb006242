/** The election in place: two families of candidates behind one lock, and what is published. */
module ExternalAddressState {
  import opened Common
  import opened ExternalAddress
  import opened ExternalElection
  import opened ExternalVoters

  class FamilyCell {
    var elected: Option<IpAddr>
    var gateways: seq<Gateway>
    var candidates: seq<Candidate>
    var clock: nat

    ghost function Now(): Family
      reads this
    {
      Family(elected, gateways, candidates, clock)
    }

    constructor ()
      ensures Now() == NO_FAMILY
    {
      elected, gateways, candidates, clock := None, [], [], 0;
    }

    method CastVote(addr: IpAddr, network: Network) returns (changed: bool)
      modifies this
      ensures (Now(), changed) == Cast(old(Now()), addr, network)
    {
      hide Withdraw, EvictForNewcomer, Endorse;
      clock := clock + 1;
      var i := IndexOf(candidates, addr);
      if i < |candidates| && network in candidates[i].networks {
        candidates := candidates[i := candidates[i].(touched := clock)];
        return false;
      }
      candidates := TakeAway(candidates, addr, network);
      var j := IndexOf(candidates, addr);
      if j == |candidates| {
        if |candidates| >= MAX_CANDIDATES {
          var room := Evict();
          if !room {
            return true;
          }
        }
        candidates := candidates + [Endorse(Candidate(addr, [], clock), network, clock)];
      } else {
        candidates := candidates[j := Endorse(candidates[j], network, clock)];
      }
      changed := true;
    }

    static method TakeAway(cs: seq<Candidate>, addr: IpAddr, network: Network) returns (out: seq<Candidate>)
      ensures out == Withdraw(cs, addr, network)
    {
      out := [];
      for i := 0 to |cs|
        invariant out == Withdraw(cs[..i], addr, network)
      {
        assert cs[..i + 1][..i] == cs[..i];
        var c := cs[i];
        if c.addr != addr {
          c := c.(networks := Remove(c.networks, network));
        }
        if c.addr == addr || c.networks != [] {
          out := out + [c];
        }
      }
      assert cs[..|cs|] == cs;
    }

    method Evict() returns (room: bool)
      modifies `candidates
      ensures var r := EvictForNewcomer(old(Now()));
              room == r.Some? && Now() == if room then r.value else old(Now())
    {
      if candidates == [] {
        return false;
      }
      var i := WeakestCandidate();
      var victim := candidates[i];
      var backed := exists k :: 0 <= k < |gateways| && gateways[k].addr == victim.addr && gateways[k].backed.Some?;
      room := !(elected == Some(victim.addr) || backed) && |victim.networks| <= 1;
      if room {
        candidates := SwapRemove(candidates, i);
      }
    }

    /** The first candidate of least rank, in one pass. */
    method WeakestCandidate() returns (i: nat)
      requires candidates != []
      ensures i < |candidates| && i == Weakest(Now(), candidates)
    {
      i := 0;
      var f := Family(elected, gateways, candidates, clock);
      for n := 1 to |candidates|
        invariant i < n && i == Weakest(f, candidates[..n])
      {
        assert candidates[..n + 1][..n] == candidates[..n];
        if Weaker(f, candidates[n], candidates[i]) {
          i := n;
        }
      }
      assert candidates[..|candidates|] == candidates;
    }

    method Report(addr: IpAddr, id: Voter, now: nat)
      modifies this
      ensures Now() == ReportGateway(old(Now()), addr, id, now)
    {
      hide Strength;
      var i := GatewayIndex(gateways, id);
      if i < |gateways| {
        var previous := gateways[i].addr;
        gateways := gateways[i := Gateway(id, addr, Some(now))];
        if previous == addr {
          return;
        }
        candidates := DropAddress(candidates, previous);
      } else {
        if |gateways| >= MAX_GATEWAYS {
          gateways := gateways[1..];
        }
        gateways := gateways + [Gateway(id, addr, Some(now))];
      }
      var f := Family(elected, gateways, candidates, clock);
      var wins := elected.None? || elected.value == addr || Strength(f, addr) >= Strength(f, elected.value);
      if wins {
        elected := Some(addr);
      }
    }

    method Elect()
      modifies `elected
      ensures Now() == Reelect(old(Now()))
    {
      hide Strength;
      var f := Family(elected, gateways, candidates, clock);
      var addrs := Contenders(f);
      var best: Option<IpAddr> := None;
      for n := 0 to |addrs|
        invariant Now() == f && best == Best(f, addrs[..n])
      {
        assert addrs[..n + 1][..n] == addrs[..n];
        var s := Strength(f, addrs[n]);
        if s < MIN_VOTER_NETWORKS {
          continue;
        }
        if best.None? || s > Strength(f, best.value) {
          best := Some(addrs[n]);
        }
      }
      assert addrs[..|addrs|] == addrs;
      if best.None? {
        return;
      }
      if elected.None? || (elected != best && Strength(f, best.value) > Strength(f, elected.value)) {
        elected := best;
      }
    }

    method HalveVotes(now: nat)
      modifies this
      ensures Now() == Halve(old(Now()), now)
    {
      ghost var f := Now();
      var out: seq<Candidate> := [];
      for i := 0 to |candidates|
        invariant Now() == f && out == HalveAll(candidates[..i])
      {
        assert candidates[..i + 1][..i] == candidates[..i];
        var c := candidates[i];
        var keep := |c.networks| / 2;
        var kept := c.networks[|c.networks| - keep..];
        if kept != [] {
          out := out + [c.(networks := kept)];
        }
      }
      assert candidates[..|candidates|] == candidates;
      candidates := out;
      for i := 0 to |gateways|
        invariant elected == f.elected && clock == f.clock && candidates == out && |gateways| == |f.gateways|
        invariant forall k | 0 <= k < i :: gateways[k] == Expired(f.gateways[k], now)
        invariant forall k | i <= k < |gateways| :: gateways[k] == f.gateways[k]
      {
        if gateways[i].backed.Some? && gateways[i].backed.value + GATEWAY_TTL <= now {
          gateways := gateways[i := gateways[i].(backed := None)];
        }
      }
      assert gateways == Expire(f.gateways, now);
    }
  }

  class ExternalIp {
    const isPublic: IpAddr -> bool
    const v4: FamilyCell
    const v6: FamilyCell
    var aged: nat
    var published: Addresses
    /** Everything heard so far. */
    ghost var record: Record

    ghost function Now(): State
      reads this, v4, v6
    {
      State(v4.Now(), v6.Now(), aged)
    }

    /** The bounds and earnedness of both families; what is published is who is in office. */
    ghost predicate Valid()
      reads this, v4, v6
    {
      v4 != v6 && StateOk(Now(), record) && published == Addresses(v4.elected, v6.elected)
    }

    constructor (isPublic: IpAddr -> bool, now: nat)
      ensures Valid() && Now() == Start(now) && record == Record({}, {})
      ensures this.isPublic == isPublic && fresh(v4) && fresh(v6)
    {
      this.isPublic, aged := isPublic, now;
      v4 := new FamilyCell();
      v6 := new FamilyCell();
      published, record := Addresses(None, None), Record({}, {});
    }

    method AgeBy(now: nat) returns (steps: nat)
      requires v4 != v6
      modifies `aged, v4, v6
      ensures (Now(), steps) == Age(old(Now()), now, 0)
    {
      hide Halve;
      steps := 0;
      while aged + AGE_INTERVAL <= now
        invariant steps < MAX_AGE_STEPS
        invariant Age(old(Now()), now, 0) == Age(Now(), now, steps)
        decreases MAX_AGE_STEPS - steps
      {
        aged := aged + AGE_INTERVAL;
        v4.HalveVotes(now);
        v6.HalveVotes(now);
        steps := steps + 1;
        if steps >= MAX_AGE_STEPS {
          aged := now;
          break;
        }
      }
    }

    method VoteAt(r: Report)
      requires Valid()
      modifies this, v4, v6
      ensures Valid() && record == Noted(old(record), r, isPublic)
      ensures Now() == VoteStep(old(Now()), r, isPublic).0
      ensures published == if VoteStep(old(Now()), r, isPublic).1 then Snapshot(Now()) else old(published)
    {
      VoteKeeps(Now(), record, r, isPublic);
      UnpublishedIsUnchanged(Now(), r, isPublic);
      SnapshotShows(VoteStep(Now(), r, isPublic).0, Noted(record, r, isPublic));
      hide StateOk, Age, Cast, ReportGateway, Reelect, NetworkOf, Canonical, Snapshot, Noted, Maximal, Sticky;
      record := Noted(record, r, isPublic);
      var observed := Canonical(r.observed);
      if !isPublic(observed) {
        return;
      }
      var network: Option<Network> := None;
      if r.source != GatewaySource {
        if r.route == Proxied {
          return;
        }
        network := NetworkOf(r.voter, isPublic);
        if network.None? {
          return;
        }
      }
      var steps := AgeBy(r.now);
      var family := if observed.V4? then v4 else v6;
      var changed := true;
      if network.Some? {
        changed := family.CastVote(observed, network.value);
      } else {
        family.Report(observed, r.voter, r.now);
      }
      if !changed && steps == 0 {
        return;
      }
      family.Elect();
      published := Addresses(if v4.elected.Some? && v4.elected.value.V4? then v4.elected else None,
                             if v6.elected.Some? && v6.elected.value.V6? then v6.elected else None);
      SnapshotIs(Now());
    }

    lemma SnapshotIs(s: State)
      ensures Snapshot(s)
           == Addresses(if s.v4.elected.Some? && s.v4.elected.value.V4? then s.v4.elected else None,
                        if s.v6.elected.Some? && s.v6.elected.value.V6? then s.v6.elected else None)
    {
    }
  }
}
