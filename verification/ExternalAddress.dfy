/** Electing our external address. */
module ExternalAddress {
  /* Electing our external address from what voters report: one network, one vote; bounded candidates;
   gateway backing; hourly halving; and re-election that never trades down. */

  import opened Common

  const MIN_VOTER_NETWORKS: nat := 3
  const MAX_CANDIDATES: nat := 32
  const MAX_VOTER_NETWORKS: nat := 64
  const AGE_INTERVAL: nat := 3600
  const MAX_AGE_STEPS: nat := 8
  const MAX_GATEWAYS: nat := 8
  const GATEWAY_TTL: nat := 10800

  datatype Source = Peer | Tracker | Dht | GatewaySource

  datatype Route = Direct | Proxied

  datatype Voter = Ip(ip: IpAddr) | Host

  /** A voter's /24 or /48, or the one shared by voters known by name only. */
  datatype Network = Net4(n: nat) | Net6(n: nat) | HostNet

  const NET4_SPAN: nat := 0x100
  const NET6_SPAN: nat := 0x1_0000_0000_0000_0000_0000

  function NetworkOf(v: Voter, isPublic: IpAddr -> bool): Option<Network> {
    match v
    case Host => Some(HostNet)
    case Ip(ip) =>
      var c := Canonical(ip);
      if !isPublic(c) then None
      else
        match c
        case V4(a) => Some(Net4(a / NET4_SPAN))
        case V6(a) => Some(Net6(a / NET6_SPAN))
  }

  datatype Candidate = Candidate(addr: IpAddr, networks: seq<Network>, touched: nat)

  datatype Gateway = Gateway(id: Voter, addr: IpAddr, backed: Option<nat>)

  datatype Family = Family(elected: Option<IpAddr>, gateways: seq<Gateway>, candidates: seq<Candidate>, clock: nat)

  const NO_FAMILY := Family(None, [], [], 0)

  // ----- reading a family -----

  /** The first candidate with the address, or the number of candidates. */
  function IndexOf(cs: seq<Candidate>, addr: IpAddr): (i: nat)
    ensures i <= |cs|
    ensures i < |cs| ==> cs[i].addr == addr
    ensures forall j | 0 <= j < i :: cs[j].addr != addr
  {
    if cs == [] || cs[0].addr == addr then 0
    else
      var i := IndexOf(cs[1..], addr);
      assert forall j | 1 <= j < i + 1 :: cs[j] == cs[1..][j - 1];
      i + 1
  }

  predicate Backed(gs: seq<Gateway>, addr: IpAddr) {
    exists i :: 0 <= i < |gs| && gs[i].addr == addr && gs[i].backed.Some?
  }

  function Votes(cs: seq<Candidate>, addr: IpAddr): nat {
    var i := IndexOf(cs, addr);
    if i < |cs| then |cs[i].networks| else 0
  }

  function Strength(f: Family, addr: IpAddr): nat {
    var votes := Votes(f.candidates, addr);
    if Backed(f.gateways, addr) then Max(votes, MIN_VOTER_NETWORKS) else votes
  }

  predicate Protected(f: Family, addr: IpAddr) {
    f.elected == Some(addr) || Backed(f.gateways, addr)
  }

  // ----- the invariant -----

  predicate CandidateOk(c: Candidate) {
    0 < |c.networks| <= 64 && Distinct(c.networks)
  }

  /** One address per candidate, one candidate per network. */
  predicate Separate(c: Candidate, d: Candidate) {
    c.addr != d.addr && forall n | n in c.networks :: n !in d.networks
  }

  predicate CandidatesOk(cs: seq<Candidate>) {
    && (forall i | 0 <= i < |cs| :: CandidateOk(cs[i]))
    && (forall i, j | 0 <= i < j < |cs| :: Separate(cs[i], cs[j]))
  }

  predicate Inv(f: Family) {
    CandidatesOk(f.candidates) && |f.candidates| <= 32 && |f.gateways| <= 8
  }

  // ----- casting a vote -----

  function Remove(s: seq<Network>, n: Network): (r: seq<Network>)
    ensures |r| <= |s|
    ensures forall x :: x in r <==> x in s && x != n
  {
    if s == [] then []
    else
      var r := Remove(s[..|s| - 1], n);
      assert s == s[..|s| - 1] + [s[|s| - 1]];
      if s[|s| - 1] == n then r else r + [s[|s| - 1]]
  }

  /** Takes the network away from every other candidate and drops those left with none. */
  function Withdraw(cs: seq<Candidate>, addr: IpAddr, network: Network): (r: seq<Candidate>)
    ensures |r| <= |cs|
  {
    if cs == [] then []
    else
      var c := cs[|cs| - 1];
      var front := Withdraw(cs[..|cs| - 1], addr, network);
      if c.addr == addr then front + [c]
      else
        var c' := c.(networks := Remove(c.networks, network));
        if c'.networks == [] then front else front + [c']
  }

  /** Whom to prefer as a victim: unprotected, then with fewer votes, then longest untouched. */
  predicate Weaker(f: Family, a: Candidate, b: Candidate) {
    var pa, pb := Protected(f, a.addr), Protected(f, b.addr);
    if pa != pb then pb
    else if |a.networks| != |b.networks| then |a.networks| < |b.networks|
    else a.touched < b.touched
  }

  /** The first of the weakest candidates. */
  function Weakest(f: Family, cs: seq<Candidate>): (i: nat)
    requires cs != []
    ensures i < |cs|
    ensures forall j | 0 <= j < |cs| :: !Weaker(f, cs[j], cs[i])
    ensures forall j | 0 <= j < i :: Weaker(f, cs[i], cs[j])
  {
    if |cs| == 1 then 0
    else
      var n := |cs| - 1;
      var i := Weakest(f, cs[..n]);
      assert forall j | 0 <= j < n :: cs[j] == cs[..n][j];
      if Weaker(f, cs[n], cs[i]) then n else i
  }

  function SwapRemove<T>(s: seq<T>, i: nat): (r: seq<T>)
    requires i < |s|
    ensures |r| == |s| - 1
  {
    s[i := s[|s| - 1]][..|s| - 1]
  }

  function EvictForNewcomer(f: Family): Option<Family> {
    if f.candidates == [] then None
    else
      var i := Weakest(f, f.candidates);
      if !Protected(f, f.candidates[i].addr) && |f.candidates[i].networks| <= 1
      then Some(f.(candidates := SwapRemove(f.candidates, i))) else None
  }

  function Endorse(c: Candidate, network: Network, clock: nat): Candidate {
    var kept := if |c.networks| >= MAX_VOTER_NETWORKS then c.networks[1..] else c.networks;
    c.(networks := kept + [network], touched := clock)
  }

  /** Gives the network's vote to the address; true when anything but a time stamp changed. */
  function Cast(f: Family, addr: IpAddr, network: Network): (Family, bool) {
    var clock := f.clock + 1;
    var i := IndexOf(f.candidates, addr);
    if i < |f.candidates| && network in f.candidates[i].networks then
      (f.(clock := clock, candidates := f.candidates[i := f.candidates[i].(touched := clock)]), false)
    else
      var g := f.(clock := clock, candidates := Withdraw(f.candidates, addr, network));
      var j := IndexOf(g.candidates, addr);
      if j < |g.candidates| then
        (g.(candidates := g.candidates[j := Endorse(g.candidates[j], network, clock)]), true)
      else
        var room := if |g.candidates| >= MAX_CANDIDATES then EvictForNewcomer(g) else Some(g);
        if room.None? then (g, true)
        else
          var h := room.value;
          (h.(candidates := h.candidates + [Endorse(Candidate(addr, [], clock), network, clock)]), true)
  }

  // ----- gateways -----

  function GatewayIndex(gs: seq<Gateway>, id: Voter): (i: nat)
    ensures i <= |gs|
    ensures i < |gs| ==> gs[i].id == id
  {
    if gs == [] || gs[0].id == id then 0 else 1 + GatewayIndex(gs[1..], id)
  }

  function DropAddress(cs: seq<Candidate>, addr: IpAddr): (r: seq<Candidate>)
    ensures |r| <= |cs|
  {
    if cs == [] then []
    else
      var front := DropAddress(cs[..|cs| - 1], addr);
      if cs[|cs| - 1].addr == addr then front else front + [cs[|cs| - 1]]
  }

  function ReportGateway(f: Family, addr: IpAddr, id: Voter, now: nat): Family {
    var i := GatewayIndex(f.gateways, id);
    var entry := Gateway(id, addr, Some(now));
    if i < |f.gateways| then
      var previous := f.gateways[i].addr;
      var g := f.(gateways := f.gateways[i := entry]);
      if previous == addr then g
      else Contest(g.(candidates := DropAddress(g.candidates, previous)), addr)
    else
      var kept := if |f.gateways| >= MAX_GATEWAYS then f.gateways[1..] else f.gateways;
      Contest(f.(gateways := kept + [entry]), addr)
  }

  /** The reported address takes over unless the incumbent is strictly stronger. */
  function Contest(f: Family, addr: IpAddr): Family {
    if f.elected.None? || f.elected.value == addr || Strength(f, addr) >= Strength(f, f.elected.value)
    then f.(elected := Some(addr)) else f
  }

  // ----- re-election -----

  function Contenders(f: Family): seq<IpAddr> {
    seq(|f.candidates|, i requires 0 <= i < |f.candidates| => f.candidates[i].addr)
    + seq(|f.gateways|, i requires 0 <= i < |f.gateways| => f.gateways[i].addr)
  }

  /** The first of the strongest addresses that reach the quorum. */
  function Best(f: Family, addrs: seq<IpAddr>): (r: Option<IpAddr>)
    ensures r.Some? ==> r.value in addrs && Strength(f, r.value) >= MIN_VOTER_NETWORKS
    ensures r.Some? ==> forall a | a in addrs :: Strength(f, a) <= Strength(f, r.value)
    ensures r.None? ==> forall a | a in addrs :: Strength(f, a) < MIN_VOTER_NETWORKS
  {
    if addrs == [] then None
    else
      var n := |addrs| - 1;
      assert addrs == addrs[..n] + [addrs[n]];
      var best := Best(f, addrs[..n]);
      var s := Strength(f, addrs[n]);
      if s < MIN_VOTER_NETWORKS then best
      else if best.None? || s > Strength(f, best.value) then Some(addrs[n])
      else best
  }

  function Reelect(f: Family): Family {
    var best := Best(f, Contenders(f));
    if best.None? then f
    else if f.elected.Some?
            && (f.elected == best || Strength(f, best.value) <= Strength(f, f.elected.value)) then f
    else f.(elected := best)
  }

  // ----- ageing -----

  /** Drops the older half of every candidate's votes, rounding up, and expires gateway backing. */
  function Halve(f: Family, now: nat): Family {
    f.(candidates := HalveAll(f.candidates), gateways := Expire(f.gateways, now))
  }

  function HalveAll(cs: seq<Candidate>): (r: seq<Candidate>)
    ensures |r| <= |cs|
  {
    if cs == [] then []
    else
      var c := cs[|cs| - 1];
      var kept := c.networks[|c.networks| - |c.networks| / 2..];
      var front := HalveAll(cs[..|cs| - 1]);
      if kept == [] then front else front + [c.(networks := kept)]
  }

  function Expire(gs: seq<Gateway>, now: nat): (r: seq<Gateway>)
    ensures |r| == |gs|
    ensures forall i | 0 <= i < |gs| :: r[i] == Expired(gs[i], now)
  {
    seq(|gs|, i requires 0 <= i < |gs| => Expired(gs[i], now))
  }

  function Expired(g: Gateway, now: nat): Gateway {
    if g.backed.Some? && g.backed.value + GATEWAY_TTL <= now then g.(backed := None) else g
  }

  // ----- both families -----

  datatype State = State(v4: Family, v6: Family, aged: nat)

  datatype Addresses = Addresses(v4: Option<IpAddr>, v6: Option<IpAddr>)

  function FamilyOf(s: State, addr: IpAddr): Family { if addr.V4? then s.v4 else s.v6 }

  function WithFamily(s: State, addr: IpAddr, f: Family): State {
    if addr.V4? then s.(v4 := f) else s.(v6 := f)
  }

  /** Halves once per full interval since the last ageing, at most eight times. */
  function Age(s: State, now: nat, steps: nat): (r: (State, nat))
    requires steps < MAX_AGE_STEPS
    decreases MAX_AGE_STEPS - steps
  {
    if s.aged + AGE_INTERVAL > now then (s, steps)
    else
      var t := State(Halve(s.v4, now), Halve(s.v6, now), s.aged + AGE_INTERVAL);
      if steps + 1 >= MAX_AGE_STEPS then (t.(aged := now), steps + 1) else Age(t, now, steps + 1)
  }

  function Snapshot(s: State): Addresses {
    Addresses(if s.v4.elected.Some? && s.v4.elected.value.V4? then s.v4.elected else None,
              if s.v6.elected.Some? && s.v6.elected.value.V6? then s.v6.elected else None)
  }

  datatype Report = Report(observed: IpAddr, source: Source, voter: Voter, route: Route, now: nat)

  /** What a report counts as: nothing, a network's vote, or a gateway's word. */
  datatype Ballot = Ignored | Vote(network: Network) | GatewayWord

  function BallotOf(r: Report, isPublic: IpAddr -> bool): Ballot {
    if !isPublic(Canonical(r.observed)) then Ignored
    else if r.source == GatewaySource then GatewayWord
    else if r.route == Proxied then Ignored
    else
      var n := NetworkOf(r.voter, isPublic);
      if n.None? then Ignored else Vote(n.value)
  }

  /** The whole of `vote_at`; the flag says whether it re-elected. */
  function VoteStep(s: State, r: Report, isPublic: IpAddr -> bool): (State, bool) {
    var ballot := BallotOf(r, isPublic);
    if ballot.Ignored? then (s, false)
    else
      var addr := Canonical(r.observed);
      var (t, steps) := Age(s, r.now, 0);
      var f := FamilyOf(t, addr);
      var (g, changed) := if ballot.Vote? then Cast(f, addr, ballot.network)
                          else (ReportGateway(f, addr, r.voter, r.now), true);
      if !changed && steps == 0 then (WithFamily(t, addr, g), false)
      else (WithFamily(t, addr, Reelect(g)), true)
  }
}
