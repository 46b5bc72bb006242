/**
 What insertion and addition keep, and whom they may displace. Every operation keeps the shape of the
 table, the place and number of its nodes, and one node per id and host; a Good node gives way only to
 itself under a new address or to a Good node at its own endpoint; and a contact that does not land was
 refused for a reason the table shows.
 */
module RoutingInvariant {
  import opened Common
  import opened RoutingTable

  // ----- multisets of nodes -----

  lemma UniqueRemove(ms: multiset<Node>, n: Node)
    requires Unique(ms)
    ensures Unique(ms - multiset{n})
  {
  }

  lemma UniqueSubset(ms: multiset<Node>, sub: multiset<Node>)
    requires Unique(ms) && sub <= ms
    ensures Unique(sub)
  {
    forall n | n in sub
      ensures sub[n] == 1 && n in ms
    {
      assert sub[n] <= ms[n];
    }
  }

  lemma UniqueInsert(ms: multiset<Node>, n: Node)
    requires Unique(ms) && Fresh(ms, n)
    ensures Unique(ms + multiset{n})
  {
  }

  // ----- splitting -----

  lemma {:induction false} KeepBitParts(ourId: Id, nodes: seq<Node>, k: nat)
    requires k < ID_BITS
    ensures multiset(KeepBit(ourId, nodes, k, false)) + multiset(KeepBit(ourId, nodes, k, true))
         == multiset(nodes)
  {
    if nodes == [] {
    } else {
      KeepBitParts(ourId, nodes[..|nodes| - 1], k);
      assert nodes == nodes[..|nodes| - 1] + [nodes[|nodes| - 1]];
    }
  }

  predicate AllBelong(ourId: Id, prefix: seq<bool>, nodes: seq<Node>) {
    forall a | 0 <= a < |nodes| :: Belongs(ourId, prefix, nodes[a])
  }

  lemma {:induction false} KeepBitBelongs(ourId: Id, prefix: seq<bool>, nodes: seq<Node>, bit: bool)
    requires |prefix| < ID_BITS && AllBelong(ourId, prefix, nodes)
    ensures AllBelong(ourId, prefix + [bit], KeepBit(ourId, nodes, |prefix|, bit))
  {
    if nodes == [] {
    } else {
      var n := nodes[|nodes| - 1];
      KeepBitBelongs(ourId, prefix, nodes[..|nodes| - 1], bit);
      assert Belongs(ourId, prefix, n);
      PrefixSnoc(Distance(ourId, n.id), prefix, bit);
      hide Distance;
    }
  }

  lemma SplitKeeps(t: Table)
    requires Inv(t) && |t.buckets[0].prefix| < ID_BITS
    ensures var t' := t.(buckets := Split(t.ourId, t.buckets, 0));
            Inv(t') && Contents(t'.buckets) == Contents(t.buckets)
  {
    SplitShaped(t, 0);
    SplitContents(t);
    SplitPlaced(t);
  }

  lemma SplitContents(t: Table)
    requires |t.buckets| > 0 && |t.buckets[0].prefix| < ID_BITS
    ensures Contents(Split(t.ourId, t.buckets, 0)) == Contents(t.buckets)
  {
    var b := t.buckets[0];
    var r := Split(t.ourId, t.buckets, 0);
    KeepBitParts(t.ourId, b.nodes, |b.prefix|);
    assert r[2..] == t.buckets[1..] && r[1..][1..] == r[2..];
  }

  lemma SplitPlaced(t: Table)
    requires Shaped(t.buckets) && Placed(t) && |t.buckets[0].prefix| < ID_BITS
    ensures Placed(t.(buckets := Split(t.ourId, t.buckets, 0)))
  {
    var b := t.buckets[0];
    var r := Split(t.ourId, t.buckets, 0);
    assert BucketOk(t.ourId, b);
    KeepBitBelongs(t.ourId, b.prefix, b.nodes, false);
    KeepBitBelongs(t.ourId, b.prefix, b.nodes, true);
    hide Belongs, KeepBit;
    assert BucketOk(t.ourId, r[0]) && BucketOk(t.ourId, r[1]);
    hide BucketOk;
    forall i | 2 <= i < |r|
      ensures BucketOk(t.ourId, r[i])
    {
      assert r[i] == t.buckets[i - 1];
    }
  }

  // ----- changing one bucket -----

  lemma ShapedUpdate(bs: seq<Bucket>, i: nat, b: Bucket)
    requires Shaped(bs) && i < |bs| && b.prefix == bs[i].prefix
    ensures Shaped(bs[i := b])
  {
  }

  lemma PlacedUpdate(t: Table, i: nat, b: Bucket)
    requires Placed(t) && i < |t.buckets| && BucketOk(t.ourId, b)
    ensures Placed(t.(buckets := t.buckets[i := b]))
  {
  }

  lemma ReplaceContents(bs: seq<Bucket>, i: nat, a: nat, n: Node, now: nat)
    requires i < |bs| && a < |bs[i].nodes|
    ensures Contents(bs[i := bs[i].(nodes := bs[i].nodes[a := n], lastChanged := now)])
         == Contents(bs) - multiset{bs[i].nodes[a]} + multiset{n}
  {
    var b := bs[i];
    ContentsAt(bs, i);
    ContentsUpdate(bs, i, b.(nodes := b.nodes[a := n], lastChanged := now));
    assert multiset(b.nodes[a := n]) == multiset(b.nodes) - multiset{b.nodes[a]} + multiset{n};
    assert b.nodes[a] in multiset(b.nodes);
  }

  lemma DropContents(bs: seq<Bucket>, i: nat, a: nat)
    requires i < |bs| && a < |bs[i].nodes|
    ensures Contents(DropNode(bs, i, a)) == Contents(bs) - multiset{bs[i].nodes[a]}
    ensures bs[i].nodes[a] in Contents(bs)
  {
    ContentsAt(bs, i);
    ContentsHas(bs, i, a);
    ContentsUpdate(bs, i, bs[i].(nodes := RemoveAt(bs[i].nodes, a)));
  }

  lemma DropOk(ourId: Id, b: Bucket, a: nat)
    requires BucketOk(ourId, b) && a < |b.nodes|
    ensures BucketOk(ourId, b.(nodes := RemoveAt(b.nodes, a)))
  {
  }

  lemma DropKeeps(t: Table, i: nat, a: nat)
    requires Inv(t) && i < |t.buckets| && a < |t.buckets[i].nodes|
    ensures Inv(t.(buckets := DropNode(t.buckets, i, a)))
  {
    var b := t.buckets[i];
    var b' := b.(nodes := RemoveAt(b.nodes, a));
    assert BucketOk(t.ourId, b);
    hide BucketOk, Contents, RemoveAt;
    DropContents(t.buckets, i, a);
    UniqueRemove(Contents(t.buckets), b.nodes[a]);
    hide Unique;
    DropOk(t.ourId, b, a);
    ShapedUpdate(t.buckets, i, b');
    PlacedUpdate(t, i, b');
    hide Shaped, Placed;
  }

  lemma ReplaceKeeps(t: Table, i: nat, a: nat, n: Node, now: nat)
    requires Inv(t) && i < |t.buckets| && a < |t.buckets[i].nodes|
    requires Belongs(t.ourId, t.buckets[i].prefix, n)
    requires Fresh(Contents(t.buckets) - multiset{t.buckets[i].nodes[a]}, n)
    ensures var b := t.buckets[i];
            Inv(t.(buckets := t.buckets[i := b.(nodes := b.nodes[a := n], lastChanged := now)]))
  {
    var b := t.buckets[i];
    ReplaceContents(t.buckets, i, a, n, now);
    assert BucketOk(t.ourId, b);
    var b' := b.(nodes := b.nodes[a := n], lastChanged := now);
    assert BucketOk(t.ourId, b');
    ShapedUpdate(t.buckets, i, b');
    PlacedUpdate(t, i, b');
    UniqueRemove(Contents(t.buckets), b.nodes[a]);
    UniqueInsert(Contents(t.buckets) - multiset{b.nodes[a]}, n);
  }

  lemma PushContents(bs: seq<Bucket>, i: nat, n: Node, now: nat)
    requires i < |bs|
    ensures Contents(bs[i := bs[i].(nodes := bs[i].nodes + [n], lastChanged := now)])
         == Contents(bs) + multiset{n}
  {
    ContentsAt(bs, i);
    ContentsUpdate(bs, i, bs[i].(nodes := bs[i].nodes + [n], lastChanged := now));
  }

  lemma PushOk(ourId: Id, b: Bucket, n: Node, now: nat)
    requires BucketOk(ourId, b) && |b.nodes| < BUCKET_SIZE && Belongs(ourId, b.prefix, n)
    ensures BucketOk(ourId, b.(nodes := b.nodes + [n], lastChanged := now))
  {
  }

  lemma PushKeeps(t: Table, i: nat, n: Node, now: nat)
    requires Inv(t) && i < |t.buckets| && |t.buckets[i].nodes| < BUCKET_SIZE
    requires Belongs(t.ourId, t.buckets[i].prefix, n) && Fresh(Contents(t.buckets), n)
    ensures var b := t.buckets[i];
            var bs' := t.buckets[i := b.(nodes := b.nodes + [n], lastChanged := now)];
            Inv(t.(buckets := bs')) && Contents(bs') == Contents(t.buckets) + multiset{n}
  {
    var b := t.buckets[i];
    var b' := b.(nodes := b.nodes + [n], lastChanged := now);
    assert BucketOk(t.ourId, b);
    PushOk(t.ourId, b, n, now);
    hide BucketOk, Contents, Fresh;
    PushContents(t.buckets, i, n, now);
    UniqueInsert(Contents(t.buckets), n);
    hide Unique;
    ShapedUpdate(t.buckets, i, b');
    PlacedUpdate(t, i, b');
    hide Shaped, Placed;
  }

  // ----- insertion -----

  /** What an insertion may do to the nodes held: nothing, add, or displace one that is not Good. */
  predicate InsertEffect(before: multiset<Node>, after: multiset<Node>, n: Node) {
    || after == before
    || after == before + multiset{n}
    || exists v :: v in before && v.liveness != Good && after == before - multiset{v} + multiset{n}
  }

  /** The only reasons to turn a newcomer away: it is us, or its bucket is full of nodes it may not
      displace. */
  predicate Justified(t: Table, n: Node) {
    || n.id == t.ourId
    || exists i :: 0 <= i < |t.buckets| && t.buckets[i].Matches(Distance(t.ourId, n.id)) && Full(t.buckets[i].nodes, n)
  }

  predicate Full(nodes: seq<Node>, n: Node) {
    && |nodes| == 8
    && forall a | 0 <= a < |nodes| ::
         && nodes[a].liveness != Bad
         && (n.liveness == Good ==> nodes[a].liveness == Good)
         && (n.verified ==> nodes[a].liveness == Good || nodes[a].verified)
  }

  lemma {:induction false} InsertKeeps(t: Table, n: Node, now: nat)
    requires Inv(t) && Fresh(Contents(t.buckets), n)
    ensures var t' := InsertNode(t, n, now);
            && Inv(t') && t'.ourId == t.ourId
            && InsertEffect(Contents(t.buckets), Contents(t'.buckets), n)
            && (n in Contents(t'.buckets) || Justified(t', n))
    decreases ID_BITS + 1 - |t.buckets|
  {
    var bs := t.buckets;
    var d := Distance(t.ourId, n.id);
    InvShaped(t);
    hide Inv, InsertEffect, Victim, Contents, Fresh, Shaped, Distance;
    ExactlyOneBucket(bs, d);
    var idx := BucketIndex(bs, d);
    var b := bs[idx];
    if n.id == t.ourId {
      UsJustified(t, n);
      NothingDone(Contents(bs), n);
    } else if |b.nodes| < BUCKET_SIZE {
      PushKeeps(t, idx, n, now);
      Added(Contents(bs), n);
    } else if b.ContainsOurs() && |b.prefix| < ID_BITS {
      SplitShaped(t, idx);
      SplitKeeps(t);
      InsertKeeps(t.(buckets := Split(t.ourId, bs, 0)), n, now);
    } else {
      DisplaceKeeps(t, idx, n, now);
      NothingDone(Contents(bs), n);
      hide Justified;
    }
  }

  lemma NothingDone(ms: multiset<Node>, n: Node)
    ensures InsertEffect(ms, ms, n)
  {
  }

  lemma Added(ms: multiset<Node>, n: Node)
    ensures InsertEffect(ms, ms + multiset{n}, n) && n in ms + multiset{n}
  {
  }

  lemma DisplaceKeeps(t: Table, idx: nat, n: Node, now: nat)
    requires Inv(t) && Fresh(Contents(t.buckets), n) && idx < |t.buckets|
    requires Belongs(t.ourId, t.buckets[idx].prefix, n) && |t.buckets[idx].nodes| >= BUCKET_SIZE
    ensures var b := t.buckets[idx];
            var v := Victim(b.nodes, n);
            if v.None? then Justified(t, n)
            else
              var t' := t.(buckets := t.buckets[idx := b.(nodes := b.nodes[v.value := n], lastChanged := now)]);
              && Inv(t') && n in Contents(t'.buckets)
              && InsertEffect(Contents(t.buckets), Contents(t'.buckets), n)
  {
    var b := t.buckets[idx];
    var v := Victim(b.nodes, n);
    if v.None? {
      assert BucketOk(t.ourId, b);
      NoVictimFull(b.nodes, n);
    } else {
      var x := b.nodes[v.value];
      var ms := Contents(t.buckets);
      hide *;
      ContentsHas(t.buckets, idx, v.value);
      ReplaceContents(t.buckets, idx, v.value, n, now);
      FreshRest(ms, x, n);
      ReplaceKeeps(t, idx, v.value, n, now);
      Displaced(ms, x, n);
    }
  }

  lemma NoVictimFull(nodes: seq<Node>, n: Node)
    requires |nodes| == BUCKET_SIZE && Victim(nodes, n).None?
    ensures Full(nodes, n)
  {
  }

  lemma FreshRest(ms: multiset<Node>, x: Node, n: Node)
    requires Fresh(ms, n)
    ensures Fresh(ms - multiset{x}, n)
  {
  }

  lemma Displaced(ms: multiset<Node>, x: Node, n: Node)
    requires x in ms && x.liveness != Good
    ensures var after := ms - multiset{x} + multiset{n};
            n in after && InsertEffect(ms, after, n)
  {
  }

  // ----- addition -----

  /** What may become of a Good node: it stays as it is, is refreshed under its own id and host, or
      gives way to a Good contact that has its very endpoint under another id. */
  predicate KeptNode(after: multiset<Node>, n: Node, id: Id, addr: Addr, liveness: Liveness) {
    || n in after
    || (liveness == Good && n.id == id && n.Host() == HostPrefix(addr.ip) && HasGood(after, id, addr))
    || (liveness == Good && n.id != id && n.addr == addr)
  }

  predicate HasGood(ms: multiset<Node>, id: Id, addr: Addr) {
    exists m :: m in ms && m.id == id && m.addr == addr && m.liveness == Good
  }

  predicate GoodKept(before: multiset<Node>, after: multiset<Node>, id: Id, addr: Addr, liveness: Liveness) {
    forall n | n in before && n.liveness == Good :: KeptNode(after, n, id, addr, liveness)
  }

  lemma StaysIn(ms: multiset<Node>, x: Node, n: Node)
    requires n in ms && n != x
    ensures n in ms - multiset{x}
  {
  }

  lemma EffectKeepsGood(before: multiset<Node>, after: multiset<Node>, n: Node)
    requires InsertEffect(before, after, n)
    ensures forall m | m in before && m.liveness == Good :: m in after
  {
  }

  lemma SettleKeeps(t: Table, n: Node, now: nat)
    requires Inv(t) && forall m | m in Contents(t.buckets) :: m.id != n.id
    ensures var t' := Settle(t, n, now);
            && Inv(t') && t'.ourId == t.ourId
            && GoodKept(Contents(t.buckets), Contents(t'.buckets), n.id, n.addr, n.liveness)
            && (n in Contents(t'.buckets) || Blocked(t.buckets, n.id, n.addr, n.liveness) || Justified(t', n))
  {
    var bs, ms := t.buckets, Contents(t.buckets);
    if !Blocked(bs, n.id, n.addr, n.liveness) {
      var c := LastConflict(bs, n.id, n.addr);
      if c.None? {
        NoConflictFresh(bs, n);
        InsertKeeps(t, n, now);
        hide *;
        EffectKeepsGood(ms, Contents(InsertNode(t, n, now).buckets), n);
        KeptAll(ms, Contents(InsertNode(t, n, now).buckets), n);
      } else {
        EvictThenInsert(t, n, now, c.value.0, c.value.1);
      }
    } else {
      KeptAll(ms, ms, n);
    }
  }

  lemma KeptAll(before: multiset<Node>, after: multiset<Node>, n: Node)
    requires forall m | m in before && m.liveness == Good :: m in after
    ensures GoodKept(before, after, n.id, n.addr, n.liveness)
  {
  }

  lemma NoConflictFresh(bs: seq<Bucket>, n: Node)
    requires LastConflict(bs, n.id, n.addr).None?
    requires forall m | m in Contents(bs) :: m.id != n.id
    ensures Fresh(Contents(bs), n)
  {
    forall m | m in Contents(bs)
      ensures m.Host() != n.Host()
    {
      var i, a := ContentsFind(bs, m);
      assert !Conflicts(bs[i].nodes[a], n.id, n.addr);
    }
  }

  lemma EvictThenInsert(t: Table, n: Node, now: nat, i: nat, a: nat)
    requires Inv(t) && i < |t.buckets| && a < |t.buckets[i].nodes|
    requires forall m | m in Contents(t.buckets) :: m.id != n.id
    requires Conflicts(t.buckets[i].nodes[a], n.id, n.addr)
    requires !Blocked(t.buckets, n.id, n.addr, n.liveness)
    ensures var t' := InsertNode(t.(buckets := DropNode(t.buckets, i, a)), n, now);
            && Inv(t') && t'.ourId == t.ourId
            && GoodKept(Contents(t.buckets), Contents(t'.buckets), n.id, n.addr, n.liveness)
            && (n in Contents(t'.buckets) || Justified(t', n))
  {
    var bs, ms := t.buckets, Contents(t.buckets);
    var x := bs[i].nodes[a];
    assert Replaceable(x, n.addr, n.liveness);
    InvShaped(t);
    var t1 := t.(buckets := DropNode(bs, i, a));
    hide *;
    InvUnique(t);
    HostOfConflict(x, n);
    DropContents(bs, i, a);
    DropKeeps(t, i, a);
    RemovedFresh(ms, x, n);
    InsertKeeps(t1, n, now);
    EffectKeepsGood(ms - multiset{x}, Contents(InsertNode(t1, n, now).buckets), n);
    GoodKeptEvict(ms, x, Contents(InsertNode(t1, n, now).buckets), n);
  }

  lemma InvUnique(t: Table)
    requires Inv(t)
    ensures Shaped(t.buckets) && Unique(Contents(t.buckets))
  {
  }

  lemma HostOfConflict(x: Node, n: Node)
    requires Conflicts(x, n.id, n.addr)
    ensures x.Host() == n.Host()
  {
  }

  lemma GoodKeptEvict(ms: multiset<Node>, x: Node, after: multiset<Node>, n: Node)
    requires Conflicts(x, n.id, n.addr) && Replaceable(x, n.addr, n.liveness)
    requires forall m | m in ms - multiset{x} && m.liveness == Good :: m in after
    ensures GoodKept(ms, after, n.id, n.addr, n.liveness)
  {
    hide HasGood;
    forall m | m in ms && m.liveness == Good
      ensures KeptNode(after, m, n.id, n.addr, n.liveness)
    {
      if m != x {
        StaysIn(ms, x, m);
      }
    }
  }

  lemma RemovedFresh(ms: multiset<Node>, x: Node, n: Node)
    requires Unique(ms) && x in ms && x.Host() == n.Host()
    requires forall m | m in ms :: m.id != n.id
    ensures Fresh(ms - multiset{x}, n)
  {
    forall m | m in ms - multiset{x}
      ensures m in ms && m != x
    {
    }
  }

  /** Adding keeps the table's invariant and costs no Good node that is not its own. */
  lemma AddKeeps(t: Table, id: Id, addr: Addr, liveness: Liveness, verified: bool, now: nat)
    requires Inv(t)
    ensures var t' := Add(t, id, addr, liveness, verified, now);
            && Inv(t') && t'.ourId == t.ourId
            && GoodKept(Contents(t.buckets), Contents(t'.buckets), id, addr, liveness)
  {
    var n := Node(id, addr, now, liveness, 0, verified);
    KeptAll(Contents(t.buckets), Contents(t.buckets), n);
    InvShaped(t);
    hide Inv, GoodKept, Settle, AddKnown, Contents, Distance, Shaped;
    if id != t.ourId {
      ExactlyOneBucket(t.buckets, Distance(t.ourId, id));
      var idx := BucketIndex(t.buckets, Distance(t.ourId, id));
      var a := Position(t.buckets[idx].nodes, id);
      if a == |t.buckets[idx].nodes| {
        AbsentId(t, id, idx);
        SettleKeeps(t, n, now);
      } else {
        AddKnownKeeps(t, idx, a, n, now);
      }
    }
  }

  lemma AddKnownKeeps(t: Table, idx: nat, a: nat, n: Node, now: nat)
    requires Inv(t) && idx < |t.buckets| && a < |t.buckets[idx].nodes|
    requires t.buckets[idx].nodes[a].id == n.id
    ensures var t' := AddKnown(t, idx, a, n, now);
            && Inv(t') && t'.ourId == t.ourId
            && GoodKept(Contents(t.buckets), Contents(t'.buckets), n.id, n.addr, n.liveness)
  {
    KeptAll(Contents(t.buckets), Contents(t.buckets), n);
    InvShaped(t);
    hide Inv, GoodKept, Settle, Contents, DropNode, Refreshed, Shaped, HostPrefix;
    var x := t.buckets[idx].nodes[a];
    if n.liveness == Good {
      if x.Host() == n.Host() {
        RefreshKeeps(t, idx, a, n.addr, now);
      } else if x.liveness == Bad {
        DropThenSettle(t, idx, a, n, now);
      }
    }
  }

  lemma InvShaped(t: Table)
    requires Inv(t)
    ensures Shaped(t.buckets)
  {
  }

  lemma AbsentId(t: Table, id: Id, idx: nat)
    requires Inv(t) && idx < |t.buckets| && idx == BucketIndex(t.buckets, Distance(t.ourId, id))
    requires forall a | 0 <= a < |t.buckets[idx].nodes| :: t.buckets[idx].nodes[a].id != id
    ensures forall m | m in Contents(t.buckets) :: m.id != id
  {
    forall m | m in Contents(t.buckets)
      ensures m.id != id
    {
      var i, a := ContentsFind(t.buckets, m);
      assert BucketOk(t.ourId, t.buckets[i]);
      assert Belongs(t.ourId, t.buckets[i].prefix, m);
      ExactlyOneBucket(t.buckets, Distance(t.ourId, m.id));
    }
  }

  lemma RefreshKeeps(t: Table, i: nat, a: nat, addr: Addr, now: nat)
    requires Inv(t) && i < |t.buckets| && a < |t.buckets[i].nodes|
    requires t.buckets[i].nodes[a].Host() == HostPrefix(addr.ip)
    ensures var b := t.buckets[i];
            var n := Refreshed(b.nodes[a], addr, now);
            var bs' := t.buckets[i := b.(nodes := b.nodes[a := n], lastChanged := now)];
            && Inv(t.(buckets := bs'))
            && GoodKept(Contents(t.buckets), Contents(bs'), n.id, addr, Good)
  {
    var b, ms := t.buckets[i], Contents(t.buckets);
    var x := b.nodes[a];
    var n := Refreshed(x, addr, now);
    ContentsHas(t.buckets, i, a);
    assert BucketOk(t.ourId, b);
    assert Belongs(t.ourId, b.prefix, x);
    RemovedFreshTwin(ms, x, n);
    ReplaceKeeps(t, i, a, n, now);
    ReplaceContents(t.buckets, i, a, n, now);
    hide Inv;
    var after := ms - multiset{x} + multiset{n};
    assert n in after;
    hide Contents, HostPrefix;
    forall m | m in ms && m.liveness == Good
      ensures KeptNode(after, m, n.id, addr, Good)
    {
      if m != x {
        StaysIn(ms, x, m);
      }
    }
  }

  lemma RemovedFreshTwin(ms: multiset<Node>, x: Node, n: Node)
    requires Unique(ms) && x in ms && x.Host() == n.Host() && x.id == n.id
    ensures Fresh(ms - multiset{x}, n)
  {
    forall m | m in ms - multiset{x}
      ensures m in ms && m != x
    {
    }
  }

  lemma DropThenSettle(t: Table, i: nat, a: nat, n: Node, now: nat)
    requires Inv(t) && i < |t.buckets| && a < |t.buckets[i].nodes|
    requires t.buckets[i].nodes[a].id == n.id && t.buckets[i].nodes[a].liveness == Bad
    ensures var t' := Settle(t.(buckets := DropNode(t.buckets, i, a)), n, now);
            && Inv(t') && t'.ourId == t.ourId
            && GoodKept(Contents(t.buckets), Contents(t'.buckets), n.id, n.addr, n.liveness)
  {
    var ms := Contents(t.buckets);
    var x := t.buckets[i].nodes[a];
    DropContents(t.buckets, i, a);
    DropKeeps(t, i, a);
    RemovedId(ms, x);
    var t1 := t.(buckets := DropNode(t.buckets, i, a));
    hide *;
    SettleKeeps(t1, n, now);
    GoodKeptDrop(ms, x, Contents(Settle(t1, n, now).buckets), n);
  }

  lemma RemovedId(ms: multiset<Node>, x: Node)
    requires Unique(ms) && x in ms
    ensures forall m | m in ms - multiset{x} :: m.id != x.id
  {
    forall m | m in ms - multiset{x}
      ensures m in ms && m != x
    {
    }
  }

  lemma GoodKeptDrop(ms: multiset<Node>, x: Node, after: multiset<Node>, n: Node)
    requires x.liveness != Good && GoodKept(ms - multiset{x}, after, n.id, n.addr, n.liveness)
    ensures GoodKept(ms, after, n.id, n.addr, n.liveness)
  {
    hide KeptNode;
    forall m | m in ms && m.liveness == Good
      ensures KeptNode(after, m, n.id, n.addr, n.liveness)
    {
      StaysIn(ms, x, m);
    }
  }

  /** What a contact is when it enters the table or answers us. */
  predicate JustHeard(m: Node, id: Id, addr: Addr, liveness: Liveness, now: nat) {
    m.id == id && m.addr == addr && m.liveness == liveness && m.lastSeen == now && m.failures == 0
  }

  predicate JustAnswered(ms: multiset<Node>, id: Id, addr: Addr, now: nat) {
    exists m :: m in ms && JustHeard(m, id, addr, Good, now)
  }

  /** The id is already held, alive, by another host. */
  predicate IdTaken(ms: multiset<Node>, n: Node) {
    exists m :: m in ms && m.id == n.id && m.liveness != Bad && m.Host() != n.Host()
  }

  /** The host is already held by a Good node with another id and another endpoint. */
  predicate HostTaken(ms: multiset<Node>, n: Node) {
    exists m :: m in ms && m.id != n.id && m.Host() == n.Host() && m.liveness == Good && m.addr != n.addr
  }

  lemma BlockedByGood(t: Table, ms: multiset<Node>, n: Node)
    requires Blocked(t.buckets, n.id, n.addr, Good) && Contents(t.buckets) <= ms
    ensures HostTaken(ms, n)
  {
    var i, a :| 0 <= i < |t.buckets| && 0 <= a < |t.buckets[i].nodes|
      && Conflicts(t.buckets[i].nodes[a], n.id, n.addr) && !Replaceable(t.buckets[i].nodes[a], n.addr, Good);
    ContentsHas(t.buckets, i, a);
    var m := t.buckets[i].nodes[a];
    assert Contents(t.buckets)[m] <= ms[m];
  }

  /** The host is held under another id by a node that is not Bad and, if the newcomer is Good, by a Good
      one at another endpoint. */
  predicate HostKept(ms: multiset<Node>, n: Node) {
    exists m :: m in ms && m.id != n.id && m.Host() == n.Host() && m.liveness != Bad
      && (n.liveness == Good ==> m.liveness == Good && m.addr != n.addr)
  }

  lemma BlockedExactly(bs: seq<Bucket>, n: Node)
    ensures Blocked(bs, n.id, n.addr, n.liveness) <==> HostKept(Contents(bs), n)
  {
    hide Contents, HostPrefix;
    if Blocked(bs, n.id, n.addr, n.liveness) {
      var i, a :| 0 <= i < |bs| && 0 <= a < |bs[i].nodes|
        && Conflicts(bs[i].nodes[a], n.id, n.addr) && !Replaceable(bs[i].nodes[a], n.addr, n.liveness);
      ContentsHas(bs, i, a);
    }
    if HostKept(Contents(bs), n) {
      var m :| m in Contents(bs) && m.id != n.id && m.Host() == n.Host() && m.liveness != Bad
        && (n.liveness == Good ==> m.liveness == Good && m.addr != n.addr);
      var i, a := ContentsFind(bs, m);
      assert Conflicts(bs[i].nodes[a], n.id, n.addr) && !Replaceable(bs[i].nodes[a], n.addr, n.liveness);
    }
  }

  /** A contact new to the table is in it afterwards, unless it is us, a node on its host must stay, or
      its bucket is full of nodes it may not displace. */
  lemma NewContactLands(t: Table, id: Id, addr: Addr, liveness: Liveness, verified: bool, now: nat)
    requires Inv(t) && forall m | m in Contents(t.buckets) :: m.id != id
    ensures var n := Node(id, addr, now, liveness, 0, verified);
            var t' := Add(t, id, addr, liveness, verified, now);
            || n in Contents(t'.buckets)
            || HostKept(Contents(t.buckets), n)
            || Justified(t', n)
  {
    var n := Node(id, addr, now, liveness, 0, verified);
    InvShaped(t);
    BlockedExactly(t.buckets, n);
    if id == t.ourId {
      UsJustified(t, n);
    } else {
      ExactlyOneBucket(t.buckets, Distance(t.ourId, id));
      var idx := BucketIndex(t.buckets, Distance(t.ourId, id));
      var a := Position(t.buckets[idx].nodes, id);
      if a < |t.buckets[idx].nodes| {
        ContentsHas(t.buckets, idx, a);
        assert false;
      }
      SettleKeeps(t, n, now);
    }
  }

  /** A contact that answered is in the table afterwards, Good, at its address, seen now and with no failures, unless it is us,
      its id or its host is taken, or its bucket holds eight Good nodes. */
  lemma AddLands(t: Table, id: Id, addr: Addr, verified: bool, now: nat)
    requires Inv(t)
    ensures var n := Node(id, addr, now, Good, 0, verified);
            var t' := Add(t, id, addr, Good, verified, now);
            || JustAnswered(Contents(t'.buckets), id, addr, now)
            || IdTaken(Contents(t.buckets), n)
            || HostTaken(Contents(t.buckets), n)
            || Justified(t', n)
  {
    var n := Node(id, addr, now, Good, 0, verified);
    InvShaped(t);
    hide Inv, JustAnswered, IdTaken, HostTaken, Justified, Settle, AddKnown, Contents, Distance, Shaped;
    if id == t.ourId {
      UsJustified(t, n);
    } else {
      ExactlyOneBucket(t.buckets, Distance(t.ourId, id));
      var idx := BucketIndex(t.buckets, Distance(t.ourId, id));
      var a := Position(t.buckets[idx].nodes, id);
      if a == |t.buckets[idx].nodes| {
        AbsentId(t, id, idx);
        SettleLands(t, n, now, Contents(t.buckets));
      } else {
        AddKnownLands(t, idx, a, n, now);
      }
    }
  }

  lemma UsJustified(t: Table, n: Node)
    requires n.id == t.ourId
    ensures Justified(t, n)
  {
  }

  lemma AddKnownLands(t: Table, idx: nat, a: nat, n: Node, now: nat)
    requires Inv(t) && idx < |t.buckets| && a < |t.buckets[idx].nodes|
    requires t.buckets[idx].nodes[a].id == n.id && JustHeard(n, n.id, n.addr, Good, now)
    ensures var t' := AddKnown(t, idx, a, n, now);
            || JustAnswered(Contents(t'.buckets), n.id, n.addr, now)
            || IdTaken(Contents(t.buckets), n)
            || HostTaken(Contents(t.buckets), n)
            || Justified(t', n)
  {
    InvShaped(t);
    hide Inv, JustAnswered, IdTaken, HostTaken, Justified, Settle, Contents, DropNode, Refreshed, Shaped, HostPrefix;
    var x := t.buckets[idx].nodes[a];
    if x.Host() == n.Host() {
      RefreshLands(t, idx, a, n.addr, now);
    } else if x.liveness != Bad {
      TakenAt(t.buckets, idx, a, n);
    } else {
      DropKeeps(t, idx, a);
      DropContents(t.buckets, idx, a);
      RemovedIdAt(t, idx, a);
      SettleLands(t.(buckets := DropNode(t.buckets, idx, a)), n, now, Contents(t.buckets));
    }
  }

  lemma RemovedIdAt(t: Table, i: nat, a: nat)
    requires Inv(t) && i < |t.buckets| && a < |t.buckets[i].nodes|
    ensures forall m | m in Contents(DropNode(t.buckets, i, a)) :: m.id != t.buckets[i].nodes[a].id
  {
    DropContents(t.buckets, i, a);
    RemovedId(Contents(t.buckets), t.buckets[i].nodes[a]);
  }

  lemma TakenAt(bs: seq<Bucket>, i: nat, a: nat, n: Node)
    requires i < |bs| && a < |bs[i].nodes|
    requires bs[i].nodes[a].id == n.id && bs[i].nodes[a].liveness != Bad && bs[i].nodes[a].Host() != n.Host()
    ensures IdTaken(Contents(bs), n)
  {
    ContentsHas(bs, i, a);
  }

  lemma RefreshLands(t: Table, i: nat, a: nat, addr: Addr, now: nat)
    requires i < |t.buckets| && a < |t.buckets[i].nodes|
    ensures var b := t.buckets[i];
            var n := Refreshed(b.nodes[a], addr, now);
            var bs' := t.buckets[i := b.(nodes := b.nodes[a := n], lastChanged := now)];
            JustAnswered(Contents(bs'), b.nodes[a].id, addr, now)
  {
    var b := t.buckets[i];
    var n := Refreshed(b.nodes[a], addr, now);
    var bs' := t.buckets[i := b.(nodes := b.nodes[a := n], lastChanged := now)];
    ContentsHas(bs', i, a);
    assert bs'[i].nodes[a] == n;
  }

  lemma SettleLands(t: Table, n: Node, now: nat, ms: multiset<Node>)
    requires Inv(t) && JustHeard(n, n.id, n.addr, Good, now) && Contents(t.buckets) <= ms
    requires forall m | m in Contents(t.buckets) :: m.id != n.id
    ensures var t' := Settle(t, n, now);
            JustAnswered(Contents(t'.buckets), n.id, n.addr, now) || HostTaken(ms, n) || Justified(t', n)
  {
    hide Inv, Settle, Contents, Justified, HostTaken;
    SettleKeeps(t, n, now);
    if Blocked(t.buckets, n.id, n.addr, Good) {
      BlockedByGood(t, ms, n);
    }
  }
}
