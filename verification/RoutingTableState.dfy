/**
 The routing table in place, and what holds over whole runs of its operations: adding contacts, noting
 failures and silence, and changing our own id.
 */
module RoutingTableState {
  import opened Common
  import opened RoutingTable
  import opened RoutingInvariant
  import opened RoutingRebuild

  /** Fifteen minutes, in seconds. */
  const ROUTING_STALE: nat := 900

  predicate Stale(n: Node, now: nat) { n.liveness != Bad && n.lastSeen + ROUTING_STALE <= now }

  function Downgraded(l: Liveness): Liveness { if l == Good then Questionable else Bad }

  function Suspected(n: Node, now: nat): Node { n.(liveness := Downgraded(n.liveness), lastSeen := now) }

  /** One more unanswered query; the second makes a node Bad. */
  function Failed(n: Node): Node {
    var failures := Min(n.failures + 1, 255);
    n.(failures := failures, liveness := if failures >= MAX_QUERY_FAILURES then Bad else Questionable)
  }

  /** A node after one more query to it went unanswered: the first leaves it doubtful, the second makes
      it Bad, and nothing else about it changes. */
  predicate ChargedOnce(n: Node, m: Node) {
    && m.id == n.id && m.addr == n.addr && m.lastSeen == n.lastSeen && m.verified == n.verified
    && m.failures == Min(n.failures + 1, 255)
    && (m.liveness == Questionable <==> n.failures == 0)
    && (m.liveness == Bad <==> n.failures >= 1)
  }

  predicate ChargedAt(bs: seq<Bucket>, cs: seq<Bucket>, addr: Addr, i: nat, a: nat) {
    && i < |bs| == |cs| && a < |bs[i].nodes| == |cs[i].nodes|
    && bs[i].nodes[a].addr == addr && bs[i].nodes[a].liveness != Bad
    && ChargedOnce(bs[i].nodes[a], cs[i].nodes[a])
    && cs == WithNode(bs, i, a, cs[i].nodes[a])
  }

  /** One live node with the address is charged; without one, nothing changes. */
  ghost predicate Charges(bs: seq<Bucket>, cs: seq<Bucket>, addr: Addr) {
    if NoneLive(bs, addr) then cs == bs else exists i: nat, a: nat :: ChargedAt(bs, cs, addr, i, a)
  }

  predicate NoneLive(bs: seq<Bucket>, addr: Addr) {
    forall i, a | 0 <= i < |bs| && 0 <= a < |bs[i].nodes| ::
      bs[i].nodes[a].addr != addr || bs[i].nodes[a].liveness == Bad
  }

  function WithNode(bs: seq<Bucket>, i: nat, a: nat, n: Node): seq<Bucket>
    requires i < |bs| && a < |bs[i].nodes|
  {
    bs[i := bs[i].(nodes := bs[i].nodes[a := n])]
  }

  /** Two nodes that may only differ in what we know of their liveness. */
  predicate SameContact(n: Node, m: Node) { n.id == m.id && n.addr == m.addr && n.verified == m.verified }

  lemma TouchKeeps(t: Table, i: nat, a: nat, n: Node)
    requires Inv(t) && i < |t.buckets| && a < |t.buckets[i].nodes|
    requires SameContact(n, t.buckets[i].nodes[a])
    ensures Inv(t.(buckets := WithNode(t.buckets, i, a, n)))
  {
    var b := t.buckets[i];
    var x := b.nodes[a];
    ContentsHas(t.buckets, i, a);
    assert BucketOk(t.ourId, b);
    assert Belongs(t.ourId, b.prefix, x);
    InvUnique(t);
    hide Inv, Contents, Unique, Shaped, HostPrefix;
    RemovedFreshTwin(Contents(t.buckets), x, n);
    ReplaceKeeps(t, i, a, n, b.lastChanged);
  }

  lemma RebuildKeeps(t: Table, newId: Id, now: nat)
    requires Inv(t)
    ensures Inv(Rebuild(t, newId, now)) && Rebuild(t, newId, now).ourId == newId
  {
    var order := SortByRank(Survivors(t.buckets));
    SurvivorsOf(t.buckets);
    InvUnique(t);
    UniqueSubset(Contents(t.buckets), multiset(order));
    InsertAllKeeps(newId, order, now);
  }

  class Routing {
    var ourId: Id
    var idChanged: Option<nat>
    var buckets: seq<Bucket>

    ghost function Now(): Table
      reads this
    {
      Table(ourId, buckets)
    }

    ghost predicate Valid()
      reads this
    {
      Inv(Now())
    }

    constructor (ourId: Id, now: nat)
      ensures Valid() && Now() == Empty(ourId, now) && idChanged == None
    {
      this.ourId, idChanged := ourId, None;
      buckets := [Root(now)];
      new;
      EmptyInv(ourId, now);
    }

    method SplitBucket(index: nat)
      requires Shaped(buckets) && index < |buckets| && |buckets[index].prefix| < ID_BITS
      modifies `buckets
      ensures buckets == Split(ourId, old(buckets), index)
    {
      var bucket := buckets[index];
      var k := |bucket.prefix|;
      var zero, one := bucket.Child(false), bucket.Child(true);
      for i := 0 to |bucket.nodes|
        invariant zero == bucket.Child(false).(nodes := KeepBit(ourId, bucket.nodes[..i], k, false))
        invariant one == bucket.Child(true).(nodes := KeepBit(ourId, bucket.nodes[..i], k, true))
      {
        var node := bucket.nodes[i];
        assert bucket.nodes[..i + 1][..i] == bucket.nodes[..i];
        if !Distance(ourId, node.id)[k] {
          zero := zero.(nodes := zero.nodes + [node]);
        } else {
          one := one.(nodes := one.nodes + [node]);
        }
      }
      assert bucket.nodes[..|bucket.nodes|] == bucket.nodes;
      buckets := buckets[..index] + [zero, one] + buckets[index + 1..];
    }

    /** Terminates because only our own bucket splits, and it is never deeper than an id. */
    method Insert(newcomer: Node, now: nat)
      requires Shaped(buckets)
      modifies `buckets
      ensures Now() == InsertNode(old(Now()), newcomer, now)
    {
      var distance := Distance(ourId, newcomer.id);
      if newcomer.id == ourId {
        return;
      }
      while true
        invariant Shaped(buckets)
        invariant InsertNode(old(Now()), newcomer, now) == InsertNode(Now(), newcomer, now)
        decreases ID_BITS + 1 - |buckets|
      {
        var idx := BucketIndex(buckets, distance);
        if idx == |buckets| {
          return;
        }
        var bucket := buckets[idx];
        if |bucket.nodes| < BUCKET_SIZE {
          buckets := buckets[idx := bucket.(nodes := bucket.nodes + [newcomer], lastChanged := now)];
          return;
        }
        if bucket.ContainsOurs() && |bucket.prefix| < ID_BITS {
          SplitShaped(Now(), idx);
          SplitBucket(idx);
          continue;
        }
        var victim := Victim(bucket.nodes, newcomer);
        if victim.Some? {
          buckets := buckets[idx := bucket.(nodes := bucket.nodes[victim.value := newcomer], lastChanged := now)];
        }
        return;
      }
    }

    method MakeRoomForHost(id: Id, addr: Addr, liveness: Liveness) returns (ok: bool)
      modifies `buckets
      ensures ok == !Blocked(old(buckets), id, addr, liveness)
      ensures buckets == if ok then EvictHost(old(buckets), id, addr) else old(buckets)
    {
      hide HostPrefix, Replaceable, Conflicts, Blocked, RemoveAt;
      var conflict: Option<(nat, nat)> := None;
      NoneBlocked(id, addr, liveness);
      assert buckets[..0] == [];
      for i := 0 to |buckets|
        invariant buckets == old(buckets)
        invariant conflict == LastConflict(buckets[..i], id, addr)
        invariant !Blocked(buckets[..i], id, addr, liveness)
      {
        var nodes := buckets[i].nodes;
        var here: Option<nat> := None;
        for a := 0 to |nodes|
          invariant buckets == old(buckets)
          invariant here == LastConflictIn(nodes[..a], id, addr)
          invariant forall b | 0 <= b < a :: Conflicts(nodes[b], id, addr) ==> Replaceable(nodes[b], addr, liveness)
        {
          assert nodes[..a + 1][..a] == nodes[..a];
          if Conflicts(nodes[a], id, addr) {
            if !Replaceable(nodes[a], addr, liveness) {
              BlockedAt(buckets, i, a, id, addr, liveness);
              return false;
            }
            here := Some(a);
          }
        }
        assert nodes[..|nodes|] == nodes;
        assert buckets[..i + 1][..i] == buckets[..i];
        if here.Some? {
          conflict := Some((i, here.value));
        }
        NotBlockedSnoc(buckets, i, id, addr, liveness);
      }
      assert buckets[..|buckets|] == buckets;
      if conflict.Some? {
        var (i, a) := conflict.value;
        buckets := buckets[i := buckets[i].(nodes := RemoveAt(buckets[i].nodes, a))];
      }
      ok := true;
    }

    method SettleIn(newcomer: Node, now: nat)
      requires Shaped(buckets)
      modifies `buckets
      ensures Now() == Settle(old(Now()), newcomer, now)
    {
      hide InsertNode, Blocked, Shaped, LastConflict;
      var ok := MakeRoomForHost(newcomer.id, newcomer.addr, newcomer.liveness);
      if ok {
        EvictShaped(old(buckets), newcomer.id, newcomer.addr);
        Insert(newcomer, now);
      }
    }

    method AddWithLiveness(id: Id, addr: Addr, liveness: Liveness, verified: bool, now: nat)
      requires Valid()
      modifies `buckets
      ensures Valid() && Now() == Add(old(Now()), id, addr, liveness, verified, now)
    {
      InvShaped(Now());
      AddKeeps(Now(), id, addr, liveness, verified, now);
      hide Inv, Settle, Contents, GoodKept, Shaped, Distance, HostPrefix, Refreshed;
      if id == ourId {
        return;
      }
      var newcomer := Node(id, addr, now, liveness, 0, verified);
      var idx := BucketIndex(buckets, Distance(ourId, id));
      if idx < |buckets| {
        var bucket := buckets[idx];
        var a := Position(bucket.nodes, id);
        if a < |bucket.nodes| {
          if liveness != Good {
            return;
          }
          var existing := bucket.nodes[a];
          if existing.Host() == newcomer.Host() {
            buckets := buckets[idx := bucket.(nodes := bucket.nodes[a := Refreshed(existing, addr, now)], lastChanged := now)];
            return;
          }
          if existing.liveness != Bad {
            return;
          }
          buckets := DropNode(buckets, idx, a);
        }
      }
      SettleIn(newcomer, now);
    }

    method SetNodeId(newId: Id, now: nat)
      requires Valid()
      modifies this
      ensures Valid() && Now() == Rebuild(old(Now()), newId, now) && idChanged == Some(now)
    {
      hide *;
      ghost var before := Now();
      NowIs();
      RebuildKeeps(before, newId, now);
      RebuildIs(before, newId, now);
      var nodes := SortByRank(Survivors(buckets));
      ourId, idChanged := newId, Some(now);
      buckets := [Root(now)];
      ghost var start := Empty(newId, now);
      InsertNone(start, now);
      StartIs(newId, now);
      NowIs();
      assert nodes[..0] == [];
      for i := 0 to |nodes|
        invariant ourId == newId && idChanged == Some(now)
        invariant Now() == InsertAll(start, nodes[..i], now)
      {
        InsertAllSnoc(start, nodes, i, now);
        NowIs();
        Insert(nodes[i], now);
      }
      assert nodes[..|nodes|] == nodes;
      NowIs();
    }

    lemma NowIs()
      ensures Now() == Table(ourId, buckets) && (Valid() <==> Inv(Now()))
    {
    }

    /** Charges the first live node with the address. */
    method RecordFailure(addr: Addr)
      requires Valid()
      modifies `buckets
      ensures Valid() && Charges(old(buckets), buckets, addr)
    {
      hide Inv;
      for i := 0 to |buckets|
        invariant Valid() && buckets == old(buckets)
        invariant forall j, a | 0 <= j < i && 0 <= a < |buckets[j].nodes| ::
              buckets[j].nodes[a].addr != addr || buckets[j].nodes[a].liveness == Bad
      {
        for a := 0 to |buckets[i].nodes|
          invariant Valid() && buckets == old(buckets)
          invariant forall c | 0 <= c < a ::
              buckets[i].nodes[c].addr != addr || buckets[i].nodes[c].liveness == Bad
        {
          var node := buckets[i].nodes[a];
          if node.addr == addr && node.liveness != Bad {
            TouchKeeps(Now(), i, a, Failed(node));
            buckets := WithNode(buckets, i, a, Failed(node));
            assert ChargedAt(old(buckets), buckets, addr, i, a);
            return;
          }
        }
      }
    }

    /** Downgrades the first `limit` silent nodes by one step, and lists exactly those for a ping. */
    method RefreshStale(now: nat, limit: nat) returns (out: seq<(Id, Addr)>)
      requires Valid()
      modifies `buckets
      ensures Valid() && |buckets| == |old(buckets)|
      ensures forall i | 0 <= i < |buckets| :: Refreshed1(old(buckets)[i], buckets[i], now, |out| < limit)
      ensures SameSizes(old(buckets), buckets)
      ensures out == UpTo(StaleNodes(old(buckets), now), limit) && out == ChangedNodes(old(buckets), buckets)
    {
      hide Inv, Refreshed1, Stale, StaleOf, ChangedOf, StaleNodes, ChangedNodes, SameSizes, UpTo;
      out := [];
      NoneChanged(old(buckets), now, limit);
      for i := 0 to |buckets|
        invariant Valid() && |out| <= limit && |buckets| == |old(buckets)|
        invariant forall j | 0 <= j < i :: Refreshed1(old(buckets)[j], buckets[j], now, |out| < limit)
        invariant forall j | i <= j < |buckets| :: buckets[j] == old(buckets)[j]
        invariant out == UpTo(StaleNodes(old(buckets)[..i], now), limit)
        invariant SameSizes(old(buckets)[..i], buckets[..i])
        invariant out == ChangedNodes(old(buckets)[..i], buckets[..i])
      {
        ghost var partial := |out| < limit;
        ghost var before := buckets;
        var more := RefreshBucket(i, now, limit - |out|);
        UpToAppend(StaleNodes(old(buckets)[..i], now), StaleOf(old(buckets)[i].nodes, now), limit);
        StaleSnoc(old(buckets), now, i);
        ChangedSnoc(old(buckets), before, buckets, i);
        out := out + more;
        if partial && |out| == limit {
          forall j | 0 <= j < i
            ensures Refreshed1(old(buckets)[j], buckets[j], now, false)
          {
            Weaker(old(buckets)[j], buckets[j], now);
          }
        }
      }
      assert old(buckets)[..|buckets|] == old(buckets) && buckets[..|buckets|] == buckets;
    }

    /** The pass over one bucket. */
    method RefreshBucket(i: nat, now: nat, limit: nat) returns (out: seq<(Id, Addr)>)
      requires Valid() && i < |buckets|
      modifies `buckets
      ensures Valid() && |out| <= limit && |buckets| == |old(buckets)|
      ensures buckets == old(buckets)[i := buckets[i]]
      ensures Refreshed1(old(buckets)[i], buckets[i], now, |out| < limit)
      ensures out == UpTo(StaleOf(old(buckets)[i].nodes, now), limit)
      ensures |buckets[i].nodes| == |old(buckets)[i].nodes|
      ensures out == ChangedOf(old(buckets)[i].nodes, buckets[i].nodes)
    {
      hide Inv, Stale, Suspected, Part, Refreshed1, StaleOf, ChangedOf;
      out := [];
      ghost var was := buckets[i];
      PartStart(was, now);
      ChangedNone(was.nodes);
      StaleNone(now);
      assert was.nodes[..0] == [];
      for a := 0 to |buckets[i].nodes|
        invariant Valid() && |out| <= limit && |buckets| == |old(buckets)|
        invariant buckets == old(buckets)[i := buckets[i]]
        invariant Part(was, buckets[i], a, now, |out| < limit)
        invariant |buckets[i].nodes| == |was.nodes|
        invariant out == StaleOf(was.nodes[..a], now)
        invariant out == ChangedOf(was.nodes, buckets[i].nodes)
      {
        if |out| >= limit {
          PartEnd(was, buckets[i], a, now, false);
          StalePrefix(was.nodes, now, a);
          return;
        }
        var node := buckets[i].nodes[a];
        PartStep(was, buckets[i], a, now, |out| + 1 < limit);
        StaleTurn(was.nodes, now, a);
        if Stale(node, now) {
          SuspectedSame(node, now);
          ChangedTurn(was.nodes, buckets[i].nodes, a, Suspected(node, now));
          TouchKeeps(Now(), i, a, Suspected(node, now));
          buckets := WithNode(buckets, i, a, Suspected(node, now));
          out := out + [(node.id, node.addr)];
        }
      }
      assert was.nodes[..|was.nodes|] == was.nodes;
      PartEnd(was, buckets[i], |was.nodes|, now, |out| < limit);
    }
  }

  // ----- which nodes a refresh pass takes -----

  function Contact(n: Node): (Id, Addr) { (n.id, n.addr) }

  /** Alive, but not heard from for fifteen minutes. */
  predicate LongSilent(n: Node, now: nat) { n.liveness != Bad && n.lastSeen + 900 <= now }

  /** The silent nodes of a bucket, in order. */
  function StaleOf(ns: seq<Node>, now: nat): seq<(Id, Addr)> {
    if ns == [] then []
    else
      var n := ns[|ns| - 1];
      StaleOf(ns[..|ns| - 1], now) + if LongSilent(n, now) then [Contact(n)] else []
  }

  function StaleNodes(bs: seq<Bucket>, now: nat): seq<(Id, Addr)> {
    if bs == [] then [] else StaleNodes(bs[..|bs| - 1], now) + StaleOf(bs[|bs| - 1].nodes, now)
  }

  /** The nodes in which two states of a bucket differ, in order. */
  function ChangedOf(was: seq<Node>, cur: seq<Node>): seq<(Id, Addr)>
    requires |cur| == |was|
  {
    if was == [] then []
    else
      var n := |was| - 1;
      ChangedOf(was[..n], cur[..n]) + if cur[n] != was[n] then [Contact(was[n])] else []
  }

  predicate SameSizes(was: seq<Bucket>, cur: seq<Bucket>) {
    |cur| == |was| && forall i | 0 <= i < |was| :: |cur[i].nodes| == |was[i].nodes|
  }

  function ChangedNodes(was: seq<Bucket>, cur: seq<Bucket>): seq<(Id, Addr)>
    requires SameSizes(was, cur)
  {
    if was == [] then []
    else
      var n := |was| - 1;
      ChangedNodes(was[..n], cur[..n]) + ChangedOf(was[n].nodes, cur[n].nodes)
  }

  function UpTo<T>(s: seq<T>, limit: nat): seq<T> { s[..Min(|s|, limit)] }

  lemma NoneChanged(bs: seq<Bucket>, now: nat, limit: nat)
    ensures UpTo(StaleNodes(bs[..0], now), limit) == [] && SameSizes(bs[..0], bs[..0])
    ensures ChangedNodes(bs[..0], bs[..0]) == []
  {
  }

  lemma UpToAppend<T>(a: seq<T>, b: seq<T>, limit: nat)
    ensures UpTo(a + b, limit) == UpTo(a, limit) + UpTo(b, limit - |UpTo(a, limit)|)
  {
  }

  lemma StaleTurn(ns: seq<Node>, now: nat, a: nat)
    requires a < |ns|
    ensures StaleOf(ns[..a + 1], now) == StaleOf(ns[..a], now) + if Stale(ns[a], now) then [Contact(ns[a])] else []
  {
    assert ns[..a + 1][..a] == ns[..a];
  }

  lemma {:induction false} StalePrefix(ns: seq<Node>, now: nat, a: nat)
    requires a <= |ns|
    ensures StaleOf(ns[..a], now) <= StaleOf(ns, now)
    decreases |ns|
  {
    if a == |ns| {
      assert ns[..a] == ns;
    } else {
      var n := |ns| - 1;
      assert ns[..n][..a] == ns[..a];
      StalePrefix(ns[..n], now, a);
    }
  }

  lemma StaleSnoc(bs: seq<Bucket>, now: nat, i: nat)
    requires i < |bs|
    ensures StaleNodes(bs[..i + 1], now) == StaleNodes(bs[..i], now) + StaleOf(bs[i].nodes, now)
  {
    assert bs[..i + 1][..i] == bs[..i];
  }

  lemma {:induction false} ChangedNone(ns: seq<Node>)
    ensures ChangedOf(ns, ns) == []
  {
    if ns == [] {
    } else {
      ChangedNone(ns[..|ns| - 1]);
    }
  }

  lemma StaleNone(now: nat)
    ensures StaleOf([], now) == []
  {
  }

  /** Changing a node behind which nothing has changed lists it last. */
  lemma {:induction false} ChangedTurn(was: seq<Node>, cur: seq<Node>, a: nat, n: Node)
    requires |cur| == |was| && a < |was| && n != was[a]
    requires forall c | a <= c < |was| :: cur[c] == was[c]
    ensures ChangedOf(was, cur[a := n]) == ChangedOf(was, cur) + [Contact(was[a])]
  {
    var m := |was| - 1;
    if a == m {
      assert cur[a := n][..m] == cur[..m];
    } else {
      assert cur[a := n][..m] == cur[..m][a := n];
      ChangedTurn(was[..m], cur[..m], a, n);
    }
  }

  lemma ChangedSnoc(was: seq<Bucket>, mid: seq<Bucket>, cur: seq<Bucket>, i: nat)
    requires |mid| == |cur| == |was| && i < |was| && SameSizes(was[..i], mid[..i])
    requires cur[..i] == mid[..i] && |cur[i].nodes| == |was[i].nodes|
    ensures SameSizes(was[..i + 1], cur[..i + 1])
    ensures ChangedNodes(was[..i + 1], cur[..i + 1])
         == ChangedNodes(was[..i], mid[..i]) + ChangedOf(was[i].nodes, cur[i].nodes)
  {
    var w, c := was[..i + 1], cur[..i + 1];
    assert w[..i] == was[..i] && c[..i] == cur[..i];
    forall j | 0 <= j < |w|
      ensures |c[j].nodes| == |w[j].nodes|
    {
      assert j < i ==> mid[..i][j] == c[j] && was[..i][j] == w[j];
    }
  }

  /** A bucket whose first `a` nodes have been looked at. */
  predicate Part(was: Bucket, cur: Bucket, a: nat, now: nat, complete: bool) {
    && cur == was.(nodes := cur.nodes) && |cur.nodes| == |was.nodes| && a <= |was.nodes|
    && (forall c | 0 <= c < a :: Aged(was.nodes[c], cur.nodes[c], now, complete))
    && (forall c | a <= c < |was.nodes| :: cur.nodes[c] == was.nodes[c])
  }

  lemma PartStart(was: Bucket, now: nat)
    ensures Part(was, was, 0, now, true) && Part(was, was, 0, now, false)
  {
  }

  lemma PartStep(was: Bucket, cur: Bucket, a: nat, now: nat, more: bool)
    requires Part(was, cur, a, now, true) && a < |was.nodes|
    ensures a < |cur.nodes|
    ensures forall c | a <= c < |was.nodes| :: cur.nodes[c] == was.nodes[c]
    ensures var n := cur.nodes[a];
            if Stale(n, now) then Part(was, cur.(nodes := cur.nodes[a := Suspected(n, now)]), a + 1, now, more)
            else Part(was, cur, a + 1, now, true)
  {
    SuspectedSame(was.nodes[a], now);
    hide Stale, Suspected, LongSilent, Lowered;
  }

  lemma PartEnd(was: Bucket, cur: Bucket, a: nat, now: nat, complete: bool)
    requires Part(was, cur, a, now, complete) && (!complete || a == |was.nodes|)
    ensures Refreshed1(was, cur, now, complete)
  {
    hide Stale, Suspected;
  }

  lemma InsertNone(t: Table, now: nat)
    requires Shaped(t.buckets)
    ensures InsertAll(t, [], now) == t
  {
  }

  lemma StartIs(newId: Id, now: nat)
    ensures Empty(newId, now) == Table(newId, [Root(now)])
  {
  }

  lemma InsertAllSnoc(t: Table, nodes: seq<Node>, i: nat, now: nat)
    requires Shaped(t.buckets) && i < |nodes|
    ensures InsertAll(t, nodes[..i + 1], now) == InsertNode(InsertAll(t, nodes[..i], now), nodes[i], now)
  {
    assert nodes[..i + 1][..i] == nodes[..i];
  }

  lemma SuspectedSame(n: Node, now: nat)
    ensures SameContact(Suspected(n, now), n) && (Stale(n, now) ==> Suspected(n, now) != n)
    ensures Stale(n, now) <==> LongSilent(n, now)
    ensures Stale(n, now) ==> Lowered(n, Suspected(n, now), now)
  {
  }

  lemma Weaker(before: Bucket, after: Bucket, now: nat)
    requires Refreshed1(before, after, now, true)
    ensures Refreshed1(before, after, now, false)
  {
  }

  lemma EvictShaped(bs: seq<Bucket>, id: Id, addr: Addr)
    requires Shaped(bs)
    ensures Shaped(EvictHost(bs, id, addr))
  {
  }

  /** A node after a refresh pass; unless the pass hit its limit, every stale node was downgraded. */
  predicate Aged(before: Node, after: Node, now: nat, complete: bool) {
    || (after == before && (complete ==> !LongSilent(before, now)))
    || (LongSilent(before, now) && Lowered(before, after, now))
  }

  /** One step down, and due for the next only after as long again. */
  predicate Lowered(before: Node, after: Node, now: nat) {
    && after.id == before.id && after.addr == before.addr && after.failures == before.failures
    && after.verified == before.verified && after.lastSeen == now
    && (after.liveness == Questionable <==> before.liveness == Good)
    && (after.liveness == Bad <==> before.liveness != Good)
  }

  predicate Refreshed1(before: Bucket, after: Bucket, now: nat, complete: bool) {
    && after == before.(nodes := after.nodes)
    && |after.nodes| == |before.nodes|
    && forall a | 0 <= a < |after.nodes| :: Aged(before.nodes[a], after.nodes[a], now, complete)
  }

  lemma NoneBlocked(id: Id, addr: Addr, liveness: Liveness)
    ensures !Blocked([], id, addr, liveness)
  {
  }

  lemma BlockedAt(bs: seq<Bucket>, i: nat, a: nat, id: Id, addr: Addr, liveness: Liveness)
    requires i < |bs| && a < |bs[i].nodes|
    requires Conflicts(bs[i].nodes[a], id, addr) && !Replaceable(bs[i].nodes[a], addr, liveness)
    ensures Blocked(bs, id, addr, liveness)
  {
  }

  lemma NotBlockedSnoc(bs: seq<Bucket>, i: nat, id: Id, addr: Addr, liveness: Liveness)
    requires i < |bs| && !Blocked(bs[..i], id, addr, liveness)
    requires forall a | 0 <= a < |bs[i].nodes| ::
      Conflicts(bs[i].nodes[a], id, addr) ==> Replaceable(bs[i].nodes[a], addr, liveness)
    ensures !Blocked(bs[..i + 1], id, addr, liveness)
  {
    forall j, a | 0 <= j <= i && 0 <= a < |bs[j].nodes| && Conflicts(bs[j].nodes[a], id, addr)
      ensures Replaceable(bs[j].nodes[a], addr, liveness)
    {
      if j < i {
        assert bs[..i][j] == bs[j];
      }
    }
  }

  // ----- whole runs -----

  predicate Touched(t: Table, t': Table, i: nat, a: nat, n: Node) {
    && i < |t.buckets| && a < |t.buckets[i].nodes|
    && SameContact(n, t.buckets[i].nodes[a])
    && t' == t.(buckets := WithNode(t.buckets, i, a, n))
  }

  /** One operation: a contact added, our id changed, or one node's liveness noted. */
  ghost predicate Next(t: Table, t': Table) {
    && Shaped(t.buckets)
    && ((exists id, addr, liveness, verified, now :: t' == Add(t, id, addr, liveness, verified, now))
        || (exists id, now :: t' == Rebuild(t, id, now))
        || (exists i: nat, a: nat, n :: Touched(t, t', i, a, n)))
  }

  ghost predicate Run(ts: seq<Table>) {
    && |ts| > 0
    && (exists id, now :: ts[0] == Empty(id, now))
    && forall i | 0 <= i < |ts| - 1 :: Next(ts[i], ts[i + 1])
  }

  lemma NextKeeps(t: Table, t': Table)
    requires Inv(t) && Next(t, t')
    ensures Inv(t')
  {
    hide Inv;
    if id, addr, liveness, verified, now :| t' == Add(t, id, addr, liveness, verified, now) {
      AddKeeps(t, id, addr, liveness, verified, now);
    } else if id, now :| t' == Rebuild(t, id, now) {
      RebuildKeeps(t, id, now);
    } else {
      var i: nat, a: nat, n :| Touched(t, t', i, a, n);
      TouchKeeps(t, i, a, n);
    }
  }

  /** Every table ever reached keeps the invariant: shape, placement, sizes, one node per id and host. */
  lemma {:induction false} RunKeeps(ts: seq<Table>, i: nat)
    requires Run(ts) && i < |ts|
    ensures Inv(ts[i])
  {
    if i == 0 {
      var id, now :| ts[0] == Empty(id, now);
      EmptyInv(id, now);
    } else {
      RunKeeps(ts, i - 1);
      NextKeeps(ts[i - 1], ts[i]);
    }
  }

  /** A contact somebody else told us about. */
  ghost predicate Hearsay(t: Table, t': Table) {
    && Shaped(t.buckets)
    && exists id, addr, verified, now :: t' == Add(t, id, addr, Questionable, verified, now)
  }

  /** No amount of hearsay changes, moves out or removes a node that has answered us. */
  lemma {:induction false} HearsayHarmless(ts: seq<Table>, n: Node)
    requires |ts| > 0 && Inv(ts[0])
    requires forall i | 0 <= i < |ts| - 1 :: Hearsay(ts[i], ts[i + 1])
    requires n in Contents(ts[0].buckets) && n.liveness == Good
    ensures Inv(ts[|ts| - 1]) && n in Contents(ts[|ts| - 1].buckets)
    decreases |ts|
  {
    if |ts| > 1 {
      assert Hearsay(ts[0], ts[1]);
      var id, addr, verified, now :| ts[1] == Add(ts[0], id, addr, Questionable, verified, now);
      AddKeeps(ts[0], id, addr, Questionable, verified, now);
      assert KeptNode(Contents(ts[1].buckets), n, id, addr, Questionable);
      assert forall i | 0 <= i < |ts[1..]| - 1 :: Hearsay(ts[1..][i], ts[1..][i + 1]);
      hide Inv, Contents;
      HearsayHarmless(ts[1..], n);
    }
  }
}
