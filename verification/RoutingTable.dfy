/** The Kademlia routing table. */
module RoutingTable {
  /* The Kademlia routing table as a value: buckets keyed by XOR distance, the rules of insertion,
   and the invariant every operation keeps. `RoutingTableState` runs it in place. */

  import opened Common

  const ID_BITS: nat := 160
  const BUCKET_SIZE: nat := 8
  const MAX_QUERY_FAILURES: nat := 2

  /** A node id or a distance, most significant bit first. */
  type Id = s: seq<bool> | |s| == 160 witness Zeros(ID_BITS)

  function Zeros(n: nat): (s: seq<bool>)
    ensures |s| == n
  {
    seq(n, _ => false)
  }

  function Distance(a: Id, b: Id): Id {
    seq(ID_BITS, i requires 0 <= i < ID_BITS => a[i] != b[i])
  }

  lemma DistanceZero(a: Id, b: Id)
    ensures Distance(a, b) == Zeros(ID_BITS) <==> a == b
  {
    if Distance(a, b) == Zeros(ID_BITS) {
      forall i | 0 <= i < ID_BITS
        ensures a[i] == b[i]
      {
        assert Distance(a, b)[i] == Zeros(ID_BITS)[i];
      }
    }
  }

  datatype Addr = Addr(ip: IpAddr, port: nat)

  datatype Liveness = Good | Questionable | Bad

  datatype Node = Node(id: Id, addr: Addr, lastSeen: nat, liveness: Liveness, failures: nat, verified: bool)
  {
    function Host(): IpAddr { HostPrefix(addr.ip) }
  }

  datatype Bucket = Bucket(prefix: seq<bool>, nodes: seq<Node>, lastChanged: nat)
  {
    predicate Matches(distance: Id) { prefix <= distance }

    predicate ContainsOurs() { prefix == Zeros(|prefix|) }

    function Child(bit: bool): Bucket { Bucket(prefix + [bit], [], lastChanged) }
  }

  datatype Table = Table(ourId: Id, buckets: seq<Bucket>)

  function Root(now: nat): Bucket { Bucket([], [], now) }

  // ----- which bucket a distance belongs to -----

  /** The first bucket that matches, or the number of buckets. */
  function BucketIndex(bs: seq<Bucket>, d: Id): (i: nat)
    ensures i <= |bs|
    ensures i < |bs| ==> bs[i].Matches(d)
    ensures forall j | 0 <= j < i :: !bs[j].Matches(d)
  {
    if bs == [] then 0
    else if bs[0].Matches(d) then 0
    else
      var i := BucketIndex(bs[1..], d);
      assert forall j | 1 <= j < i + 1 :: bs[j] == bs[1..][j - 1];
      i + 1
  }

  function LeadingZeros(d: seq<bool>): (n: nat)
    ensures n <= |d|
    ensures d[..n] == Zeros(n)
    ensures n < |d| ==> d[n]
  {
    if d == [] || d[0] then 0
    else
      var n := LeadingZeros(d[1..]);
      assert d[..n + 1] == [d[0]] + d[1..][..n];
      n + 1
  }

  /** After k splits: the all-zero prefix of length k first, then 0^(k-1) 1, ..., 0 1, 1. */
  function PrefixAt(k: nat, i: nat): seq<bool>
    requires i <= k
  {
    if i == 0 then Zeros(k) else Zeros(k - i) + [true]
  }

  predicate Shaped(bs: seq<Bucket>) {
    && 1 <= |bs| <= 161
    && forall i | 0 <= i < |bs| :: bs[i].prefix == PrefixAt(|bs| - 1, i)
  }

  /** Where a distance lives after k splits. */
  function Home(k: nat, d: Id): (i: nat)
    ensures i <= k
  {
    if LeadingZeros(d) >= k then 0 else k - LeadingZeros(d)
  }

  lemma ZerosPrefix(d: seq<bool>, n: nat)
    requires n <= |d|
    ensures Zeros(n) <= d <==> LeadingZeros(d) >= n
  {
    var z := LeadingZeros(d);
    assert forall i | 0 <= i < z :: d[i] == d[..z][i];
    if Zeros(n) <= d {
      assert forall i | 0 <= i < n :: d[i] == Zeros(n)[i];
    }
  }

  /** The first one bit is where the leading zeros end. */
  lemma OnePrefix(d: seq<bool>, n: nat)
    requires n < |d|
    ensures Zeros(n) + [true] <= d <==> LeadingZeros(d) == n
  {
    PrefixSnoc(d, Zeros(n), true);
    ZerosPrefix(d, n);
    var z := LeadingZeros(d);
    assert forall i | 0 <= i < z :: d[i] == d[..z][i];
  }

  lemma PrefixSnoc(d: seq<bool>, p: seq<bool>, bit: bool)
    ensures p + [bit] <= d <==> |p| < |d| && p <= d && d[|p|] == bit
  {
    if p + [bit] <= d {
      assert d[|p|] == (p + [bit])[|p|];
      assert forall i | 0 <= i < |p| :: d[i] == (p + [bit])[i];
    }
  }

  lemma PrefixMatches(k: nat, i: nat, d: Id)
    requires i <= k <= ID_BITS
    ensures PrefixAt(k, i) <= d <==> i == Home(k, d)
  {
    if i == 0 {
      ZerosPrefix(d, k);
    } else {
      OnePrefix(d, k - i);
    }
  }

  /** Every distance matches exactly one bucket, and it is the one insertion finds. */
  lemma ExactlyOneBucket(bs: seq<Bucket>, d: Id)
    requires Shaped(bs)
    ensures BucketIndex(bs, d) == Home(|bs| - 1, d) < |bs|
    ensures forall i | 0 <= i < |bs| :: bs[i].Matches(d) <==> i == BucketIndex(bs, d)
  {
    forall i | 0 <= i < |bs|
      ensures bs[i].Matches(d) <==> i == Home(|bs| - 1, d)
    {
      PrefixMatches(|bs| - 1, i, d);
    }
    assert bs[Home(|bs| - 1, d)].Matches(d);
  }

  // ----- what the table holds -----

  function Contents(bs: seq<Bucket>): multiset<Node> {
    if bs == [] then multiset{} else multiset(bs[0].nodes) + Contents(bs[1..])
  }

  function Others(bs: seq<Bucket>, i: nat): multiset<Node>
    requires i < |bs|
  {
    Contents(bs[..i]) + Contents(bs[i + 1..])
  }

  lemma {:induction false} ContentsAppend(a: seq<Bucket>, b: seq<Bucket>)
    ensures Contents(a + b) == Contents(a) + Contents(b)
  {
    if a == [] {
      assert a + b == b;
    } else {
      assert (a + b)[1..] == a[1..] + b;
      ContentsAppend(a[1..], b);
    }
  }

  lemma ContentsCons(b: Bucket, rest: seq<Bucket>)
    ensures Contents([b] + rest) == multiset(b.nodes) + Contents(rest)
  {
    assert ([b] + rest)[1..] == rest;
  }

  lemma Around<T>(s: seq<T>, i: nat)
    requires i < |s|
    ensures s == s[..i] + ([s[i]] + s[i + 1..])
  {
  }

  lemma ContentsAt(bs: seq<Bucket>, i: nat)
    requires i < |bs|
    ensures Contents(bs) == Others(bs, i) + multiset(bs[i].nodes)
  {
    hide Contents;
    Around(bs, i);
    ContentsAppend(bs[..i], [bs[i]] + bs[i + 1..]);
    ContentsCons(bs[i], bs[i + 1..]);
  }

  lemma ContentsUpdate(bs: seq<Bucket>, i: nat, b: Bucket)
    requires i < |bs|
    ensures Contents(bs[i := b]) == Others(bs, i) + multiset(b.nodes)
  {
    ContentsAt(bs[i := b], i);
    assert bs[i := b][..i] == bs[..i] && bs[i := b][i + 1..] == bs[i + 1..];
  }

  lemma {:induction false} ContentsFind(bs: seq<Bucket>, n: Node) returns (i: nat, a: nat)
    requires n in Contents(bs)
    ensures i < |bs| && a < |bs[i].nodes| && bs[i].nodes[a] == n
  {
    if n in multiset(bs[0].nodes) {
      i := 0;
      a :| 0 <= a < |bs[0].nodes| && bs[0].nodes[a] == n;
    } else {
      i, a := ContentsFind(bs[1..], n);
      i := i + 1;
    }
  }

  lemma ContentsHas(bs: seq<Bucket>, i: nat, a: nat)
    requires i < |bs| && a < |bs[i].nodes|
    ensures bs[i].nodes[a] in Contents(bs)
  {
    ContentsAt(bs, i);
    assert bs[i].nodes[a] in multiset(bs[i].nodes);
  }

  // ----- the invariant -----

  /** One node per id and one per host. */
  predicate Unique(ms: multiset<Node>) {
    && (forall n | n in ms :: ms[n] == 1)
    && (forall n, m | n in ms && m in ms :: n == m || (n.id != m.id && n.Host() != m.Host()))
  }

  predicate Belongs(ourId: Id, prefix: seq<bool>, n: Node) {
    n.id != ourId && prefix <= Distance(ourId, n.id)
  }

  predicate BucketOk(ourId: Id, b: Bucket) {
    |b.nodes| <= 8 && forall a | 0 <= a < |b.nodes| :: Belongs(ourId, b.prefix, b.nodes[a])
  }

  predicate Placed(t: Table) {
    forall i | 0 <= i < |t.buckets| :: BucketOk(t.ourId, t.buckets[i])
  }

  predicate Inv(t: Table) {
    Shaped(t.buckets) && Placed(t) && Unique(Contents(t.buckets))
  }

  /** A node the table may take in: no id and no host of its own is present yet. */
  predicate Fresh(ms: multiset<Node>, n: Node) {
    forall m | m in ms :: m.id != n.id && m.Host() != n.Host()
  }

  // ----- insertion -----

  function KeepBit(ourId: Id, nodes: seq<Node>, index: nat, bit: bool): (r: seq<Node>)
    requires index < ID_BITS
    ensures |r| <= |nodes|
  {
    if nodes == [] then []
    else
      var front := KeepBit(ourId, nodes[..|nodes| - 1], index, bit);
      var last := nodes[|nodes| - 1];
      if Distance(ourId, last.id)[index] == bit then front + [last] else front
  }

  function Split(ourId: Id, bs: seq<Bucket>, index: nat): seq<Bucket>
    requires index < |bs| && |bs[index].prefix| < ID_BITS
  {
    var b := bs[index];
    var k := |b.prefix|;
    var zero := b.Child(false).(nodes := KeepBit(ourId, b.nodes, k, false));
    var one := b.Child(true).(nodes := KeepBit(ourId, b.nodes, k, true));
    bs[..index] + [zero, one] + bs[index + 1..]
  }

  predicate Eligible(n: Node, unverifiedOnly: bool) {
    n.liveness == Questionable && !(unverifiedOnly && n.verified)
  }

  /** The first of the least recently seen questionable nodes. */
  function OldestQuestionable(nodes: seq<Node>, unverifiedOnly: bool): (r: Option<nat>)
    ensures r.None? <==> forall a | 0 <= a < |nodes| :: !Eligible(nodes[a], unverifiedOnly)
    ensures r.Some? ==>
      && r.value < |nodes| && Eligible(nodes[r.value], unverifiedOnly)
      && (forall a | 0 <= a < |nodes| && Eligible(nodes[a], unverifiedOnly) ::
            nodes[r.value].lastSeen <= nodes[a].lastSeen)
      && (forall a | 0 <= a < r.value && Eligible(nodes[a], unverifiedOnly) ::
            nodes[r.value].lastSeen < nodes[a].lastSeen)
  {
    if nodes == [] then None
    else
      var n := |nodes| - 1;
      var best := OldestQuestionable(nodes[..n], unverifiedOnly);
      assert forall a | 0 <= a < n :: nodes[a] == nodes[..n][a];
      if !Eligible(nodes[n], unverifiedOnly) then best
      else if best.None? || nodes[n].lastSeen < nodes[best.value].lastSeen then Some(n)
      else best
  }

  function FirstBad(nodes: seq<Node>): (r: Option<nat>)
    ensures r.None? <==> forall a | 0 <= a < |nodes| :: nodes[a].liveness != Bad
    ensures r.Some? ==> r.value < |nodes| && nodes[r.value].liveness == Bad
    ensures r.Some? ==> forall a | 0 <= a < r.value :: nodes[a].liveness != Bad
  {
    if nodes == [] then None
    else if nodes[0].liveness == Bad then Some(0)
    else
      var r := FirstBad(nodes[1..]);
      assert forall a | 1 <= a < |nodes| :: nodes[a] == nodes[1..][a - 1];
      if r.None? then None else Some(r.value + 1)
  }

  /** Whom a newcomer displaces from a full bucket that may not split: a Bad node if there is one,
      otherwise the longest silent questionable node it outranks, and never a Good node. A verified
      newcomer takes the unverified first; an unverified one needs to have answered us. */
  function Victim(nodes: seq<Node>, newcomer: Node): (r: Option<nat>)
    ensures r.Some? ==> r.value < |nodes| && nodes[r.value].liveness != Good
    ensures r.Some? && (exists a :: 0 <= a < |nodes| && nodes[a].liveness == Bad)
      ==> nodes[r.value].liveness == Bad
    ensures r.Some? && nodes[r.value].liveness != Bad ==>
      var v := nodes[r.value];
      && (newcomer.verified || newcomer.liveness == Good)
      && (v.verified ==> newcomer.liveness == Good)
      && forall a | 0 <= a < |nodes| && nodes[a].liveness == Questionable ::
           && (newcomer.verified && v.verified ==> nodes[a].verified)
           && ((newcomer.verified && !v.verified && nodes[a].verified) || v.lastSeen <= nodes[a].lastSeen)
  {
    var bad := FirstBad(nodes);
    var suspect := if newcomer.verified then OldestQuestionable(nodes, true) else None;
    if bad.Some? then bad
    else if suspect.Some? then suspect
    else if newcomer.liveness == Good then OldestQuestionable(nodes, false)
    else None
  }

  function InsertNode(t: Table, newcomer: Node, now: nat): Table
    requires Shaped(t.buckets)
    decreases ID_BITS + 1 - |t.buckets|
  {
    if newcomer.id == t.ourId then t
    else
      var idx := BucketIndex(t.buckets, Distance(t.ourId, newcomer.id));
      if idx == |t.buckets| then t
      else
        var b := t.buckets[idx];
        if |b.nodes| < BUCKET_SIZE then
          t.(buckets := t.buckets[idx := b.(nodes := b.nodes + [newcomer], lastChanged := now)])
        else if b.ContainsOurs() && |b.prefix| < ID_BITS then
          SplitShaped(t, idx);
          InsertNode(t.(buckets := Split(t.ourId, t.buckets, idx)), newcomer, now)
        else
          var v := Victim(b.nodes, newcomer);
          if v.None? then t
          else t.(buckets := t.buckets[idx := b.(nodes := b.nodes[v.value := newcomer], lastChanged := now)])
  }

  /** Only the first bucket of a shaped table may split, and splitting keeps the shape. */
  lemma SplitShaped(t: Table, idx: nat)
    requires Shaped(t.buckets) && idx < |t.buckets|
    requires t.buckets[idx].ContainsOurs() && |t.buckets[idx].prefix| < ID_BITS
    ensures idx == 0
    ensures Shaped(Split(t.ourId, t.buckets, idx))
    ensures |Split(t.ourId, t.buckets, idx)| == |t.buckets| + 1 <= ID_BITS + 1
  {
    var bs, k := t.buckets, |t.buckets| - 1;
    assert forall i | 1 <= i < |bs| :: bs[i].prefix[k - i];
    var r := Split(t.ourId, bs, 0);
    hide KeepBit;
    assert r[0].prefix == Zeros(k + 1);
    assert r[1].prefix == PrefixAt(k + 1, 1);
    forall i | 2 <= i < |r|
      ensures r[i].prefix == PrefixAt(k + 1, i)
    {
      assert r[i] == bs[i - 1];
    }
  }

  // ----- adding a contact -----

  /** Another id on the contact's host. */
  predicate Conflicts(n: Node, id: Id, addr: Addr) { n.id != id && n.Host() == HostPrefix(addr.ip) }

  predicate Replaceable(n: Node, addr: Addr, liveness: Liveness) {
    n.liveness == Bad || (liveness == Good && (n.liveness == Questionable || n.addr == addr))
  }

  function RemoveAt(nodes: seq<Node>, a: nat): (r: seq<Node>)
    requires a < |nodes|
    ensures multiset(r) + multiset{nodes[a]} == multiset(nodes)
  {
    assert nodes == nodes[..a] + [nodes[a]] + nodes[a + 1..];
    nodes[..a] + nodes[a + 1..]
  }

  /** The first node with the id, or the number of nodes. */
  function Position(nodes: seq<Node>, id: Id): (a: nat)
    ensures a <= |nodes|
    ensures a < |nodes| ==> nodes[a].id == id
    ensures forall j | 0 <= j < a :: nodes[j].id != id
  {
    if nodes == [] || nodes[0].id == id then 0
    else
      var a := Position(nodes[1..], id);
      assert forall j | 1 <= j < a + 1 :: nodes[j] == nodes[1..][j - 1];
      a + 1
  }

  /** The bucket and place of the last conflicting node. */
  function LastConflict(bs: seq<Bucket>, id: Id, addr: Addr): (r: Option<(nat, nat)>)
    ensures r.Some? ==>
      && r.value.0 < |bs| && r.value.1 < |bs[r.value.0].nodes|
      && Conflicts(bs[r.value.0].nodes[r.value.1], id, addr)
    ensures r.None? ==>
      forall i, a | 0 <= i < |bs| && 0 <= a < |bs[i].nodes| :: !Conflicts(bs[i].nodes[a], id, addr)
  {
    if bs == [] then None
    else
      var i := |bs| - 1;
      var here := LastConflictIn(bs[i].nodes, id, addr);
      if here.Some? then Some((i, here.value)) else LastConflict(bs[..i], id, addr)
  }

  function LastConflictIn(nodes: seq<Node>, id: Id, addr: Addr): (r: Option<nat>)
    ensures r.Some? ==> r.value < |nodes| && Conflicts(nodes[r.value], id, addr)
    ensures r.None? ==> forall a | 0 <= a < |nodes| :: !Conflicts(nodes[a], id, addr)
  {
    if nodes == [] then None
    else if Conflicts(nodes[|nodes| - 1], id, addr) then Some(|nodes| - 1)
    else LastConflictIn(nodes[..|nodes| - 1], id, addr)
  }

  /** Some node on the contact's host must stay. */
  predicate Blocked(bs: seq<Bucket>, id: Id, addr: Addr, liveness: Liveness) {
    exists i, a :: 0 <= i < |bs| && 0 <= a < |bs[i].nodes|
      && Conflicts(bs[i].nodes[a], id, addr) && !Replaceable(bs[i].nodes[a], addr, liveness)
  }

  function DropNode(bs: seq<Bucket>, i: nat, a: nat): (r: seq<Bucket>)
    requires i < |bs| && a < |bs[i].nodes|
    ensures Shaped(bs) ==> Shaped(r)
  {
    bs[i := bs[i].(nodes := RemoveAt(bs[i].nodes, a))]
  }

  function EvictHost(bs: seq<Bucket>, id: Id, addr: Addr): seq<Bucket> {
    var c := LastConflict(bs, id, addr);
    if c.None? then bs else DropNode(bs, c.value.0, c.value.1)
  }

  /** Clears the contact's host and inserts, unless a node there must stay. */
  function Settle(t: Table, newcomer: Node, now: nat): Table
    requires Shaped(t.buckets)
  {
    if Blocked(t.buckets, newcomer.id, newcomer.addr, newcomer.liveness) then t
    else InsertNode(t.(buckets := EvictHost(t.buckets, newcomer.id, newcomer.addr)), newcomer, now)
  }

  function Refreshed(n: Node, addr: Addr, now: nat): Node {
    n.(addr := addr, lastSeen := now, liveness := Good, failures := 0)
  }

  /** A contact whose id the bucket already holds at place `a`. */
  function AddKnown(t: Table, idx: nat, a: nat, newcomer: Node, now: nat): Table
    requires Shaped(t.buckets) && idx < |t.buckets| && a < |t.buckets[idx].nodes|
  {
    var b := t.buckets[idx];
    var existing := b.nodes[a];
    if newcomer.liveness != Good then t
    else if existing.Host() == newcomer.Host() then
      var refreshed := Refreshed(existing, newcomer.addr, now);
      t.(buckets := t.buckets[idx := b.(nodes := b.nodes[a := refreshed], lastChanged := now)])
    else if existing.liveness != Bad then t
    else Settle(t.(buckets := DropNode(t.buckets, idx, a)), newcomer, now)
  }

  /** `verified` is whether the id is the one its address derives. */
  function Add(t: Table, id: Id, addr: Addr, liveness: Liveness, verified: bool, now: nat): Table
    requires Shaped(t.buckets)
  {
    var newcomer := Node(id, addr, now, liveness, 0, verified);
    if id == t.ourId then t
    else
      var idx := BucketIndex(t.buckets, Distance(t.ourId, id));
      if idx == |t.buckets| then Settle(t, newcomer, now)
      else
        var a := Position(t.buckets[idx].nodes, id);
        if a == |t.buckets[idx].nodes| then Settle(t, newcomer, now)
        else AddKnown(t, idx, a, newcomer, now)
  }
}
