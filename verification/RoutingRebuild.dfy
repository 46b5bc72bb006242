/**
 Rebuilding the table when our own id changes: the surviving nodes, best first, inserted afresh, and
 what that must give. The rebuilt table is compared with a specification that does not insert at all:
 every bucket holds the first eight of the nodes that belong to it, in rank order, and there are no more
 buckets than that needs.
 */
module RoutingRebuild {
  import opened Common
  import opened RoutingTable
  import opened RoutingInvariant

  // ----- the order of re-insertion -----

  datatype Key = Key(notGood: bool, notVerified: bool, lastSeen: nat)

  function KeyOf(n: Node): Key { Key(n.liveness != Good, !n.verified, n.lastSeen) }

  /** Good first, then verified, then most recently seen. */
  predicate Less(a: Key, b: Key) {
    if a.notGood != b.notGood then b.notGood
    else if a.notVerified != b.notVerified then b.notVerified
    else a.lastSeen > b.lastSeen
  }

  predicate Ranked(s: seq<Node>) {
    forall i, j | 0 <= i < j < |s| :: !Less(KeyOf(s[j]), KeyOf(s[i]))
  }

  /** Behind every node that does not rank after it. */
  function Place(s: seq<Node>, n: Node): (r: seq<Node>)
    ensures multiset(r) == multiset(s) + multiset{n}
  {
    if s == [] then [n]
    else
      var last := s[|s| - 1];
      assert s == s[..|s| - 1] + [last];
      if Less(KeyOf(n), KeyOf(last)) then Place(s[..|s| - 1], n) + [last] else s + [n]
  }

  function SortByRank(s: seq<Node>): (r: seq<Node>)
    ensures multiset(r) == multiset(s)
  {
    if s == [] then []
    else
      assert s == s[..|s| - 1] + [s[|s| - 1]];
      Place(SortByRank(s[..|s| - 1]), s[|s| - 1])
  }

  lemma RankedSnoc(s: seq<Node>, n: Node)
    requires Ranked(s) && forall i | 0 <= i < |s| :: !Less(KeyOf(n), KeyOf(s[i]))
    ensures Ranked(s + [n])
  {
  }

  lemma LessTransitive(a: Key, b: Key, c: Key)
    requires !Less(b, a) && !Less(c, b)
    ensures !Less(c, a)
  {
  }

  lemma {:induction false} PlaceRanked(s: seq<Node>, n: Node)
    requires Ranked(s)
    ensures Ranked(Place(s, n))
  {
    if s == [] {
    } else {
      var front, last := s[..|s| - 1], s[|s| - 1];
      hide Less;
      if Less(KeyOf(n), KeyOf(last)) {
        PlaceRanked(front, n);
        var r := Place(front, n);
        LessAsymmetric(KeyOf(n), KeyOf(last));
        forall i | 0 <= i < |r|
          ensures !Less(KeyOf(last), KeyOf(r[i]))
        {
          assert r[i] in multiset(front) + multiset{n};
        }
        hide Ranked, Place;
        RankedSnoc(r, last);
      } else {
        forall i | 0 <= i < |s|
          ensures !Less(KeyOf(n), KeyOf(s[i]))
        {
          if i < |s| - 1 {
            LessTransitive(KeyOf(s[i]), KeyOf(last), KeyOf(n));
          }
        }
        hide Ranked;
        RankedSnoc(s, n);
      }
    }
  }

  lemma LessAsymmetric(a: Key, b: Key)
    requires Less(a, b)
    ensures !Less(b, a)
  {
  }

  lemma {:induction false} SortRanked(s: seq<Node>)
    ensures Ranked(SortByRank(s))
  {
    if s == [] {
    } else {
      SortRanked(s[..|s| - 1]);
      PlaceRanked(SortByRank(s[..|s| - 1]), s[|s| - 1]);
    }
  }

  /** The nodes of one rank, in order. */
  function OfRank(s: seq<Node>, k: Key): seq<Node> {
    if s == [] then []
    else OfRank(s[..|s| - 1], k) + if KeyOf(s[|s| - 1]) == k then [s[|s| - 1]] else []
  }

  lemma {:induction false} PlaceStable(s: seq<Node>, n: Node, k: Key)
    ensures OfRank(Place(s, n), k) == OfRank(s, k) + if KeyOf(n) == k then [n] else []
  {
    var r := Place(s, n);
    assert r[..|r| - 1] == if s != [] && Less(KeyOf(n), KeyOf(s[|s| - 1])) then Place(s[..|s| - 1], n) else s;
    if s != [] && Less(KeyOf(n), KeyOf(s[|s| - 1])) {
      PlaceStable(s[..|s| - 1], n, k);
    }
  }

  /** Sorting is stable: nodes of equal rank keep their order. */
  lemma {:induction false} SortStable(s: seq<Node>, k: Key)
    ensures OfRank(SortByRank(s), k) == OfRank(s, k)
  {
    if s == [] {
    } else {
      SortStable(s[..|s| - 1], k);
      PlaceStable(SortByRank(s[..|s| - 1]), s[|s| - 1], k);
    }
  }

  // ----- rebuilding -----

  function NotBad(nodes: seq<Node>): (r: seq<Node>)
    ensures forall n :: n in r <==> n in nodes && n.liveness != Bad
    ensures multiset(r) <= multiset(nodes)
  {
    if nodes == [] then []
    else
      var front, last := nodes[..|nodes| - 1], nodes[|nodes| - 1];
      assert nodes == front + [last];
      NotBad(front) + if last.liveness != Bad then [last] else []
  }

  /** The nodes worth keeping, bucket by bucket. */
  function Survivors(bs: seq<Bucket>): seq<Node> {
    if bs == [] then [] else NotBad(bs[0].nodes) + Survivors(bs[1..])
  }

  function InsertAll(t: Table, nodes: seq<Node>, now: nat): (r: Table)
    requires Shaped(t.buckets)
    ensures Shaped(r.buckets)
  {
    if nodes == [] then t
    else
      var t' := InsertAll(t, nodes[..|nodes| - 1], now);
      InsertShaped(t', nodes[|nodes| - 1], now);
      InsertNode(t', nodes[|nodes| - 1], now)
  }

  lemma InsertShaped(t: Table, n: Node, now: nat)
    requires Shaped(t.buckets)
    ensures Shaped(InsertNode(t, n, now).buckets) && InsertNode(t, n, now).ourId == t.ourId
    decreases ID_BITS + 1 - |t.buckets|
  {
    hide Shaped, Distance, Victim, Split;
    var idx := BucketIndex(t.buckets, Distance(t.ourId, n.id));
    if n.id != t.ourId && idx < |t.buckets| {
      var b := t.buckets[idx];
      if |b.nodes| < BUCKET_SIZE {
        ShapedUpdate(t.buckets, idx, b.(nodes := b.nodes + [n], lastChanged := now));
      } else if b.ContainsOurs() && |b.prefix| < ID_BITS {
        SplitShaped(t, idx);
        InsertShaped(t.(buckets := Split(t.ourId, t.buckets, idx)), n, now);
      } else if Victim(b.nodes, n).Some? {
        var v := Victim(b.nodes, n).value;
        ShapedUpdate(t.buckets, idx, b.(nodes := b.nodes[v := n], lastChanged := now));
      }
    }
  }

  function Empty(ourId: Id, now: nat): (t: Table)
    ensures Shaped(t.buckets)
  {
    assert Zeros(0) == [];
    Table(ourId, [Root(now)])
  }

  function Rebuild(t: Table, newId: Id, now: nat): (r: Table)
    ensures Shaped(r.buckets)
  {
    InsertAll(Empty(newId, now), SortByRank(Survivors(t.buckets)), now)
  }

  // ----- the specification -----

  /** The nodes, in order, that belong under a prefix. */
  function Select(ourId: Id, nodes: seq<Node>, prefix: seq<bool>): (r: seq<Node>)
    ensures forall n | n in r :: n in nodes && Belongs(ourId, prefix, n)
  {
    if nodes == [] then []
    else
      var front, last := nodes[..|nodes| - 1], nodes[|nodes| - 1];
      assert nodes == front + [last];
      Select(ourId, front, prefix) + if Belongs(ourId, prefix, last) then [last] else []
  }

  function First8(s: seq<Node>): seq<Node> { if |s| <= 8 then s else s[..8] }

  /** Each bucket holds the first eight of the nodes that belong to it, and ours holds them all. */
  predicate Filled(t: Table, nodes: seq<Node>) {
    && Shaped(t.buckets)
    && (forall i | 0 <= i < |t.buckets| :: BucketFilled(t.ourId, t.buckets[i], nodes))
    && |Select(t.ourId, nodes, Zeros(|t.buckets| - 1))| <= 8
  }

  predicate BucketFilled(ourId: Id, b: Bucket, nodes: seq<Node>) {
    b.nodes == First8(Select(ourId, nodes, b.prefix))
  }

  /** The table was split no deeper than the nodes require. */
  predicate NoDeeper(t: Table, nodes: seq<Node>) {
    |t.buckets| <= 1 || |Select(t.ourId, nodes, Zeros(|t.buckets| - 2))| > 8
  }

  lemma SelectSnoc(ourId: Id, nodes: seq<Node>, x: Node, prefix: seq<bool>)
    ensures Select(ourId, nodes + [x], prefix)
         == Select(ourId, nodes, prefix) + if Belongs(ourId, prefix, x) then [x] else []
  {
    assert (nodes + [x])[..|nodes|] == nodes;
  }

  lemma {:induction false} SelectSplit(ourId: Id, nodes: seq<Node>, prefix: seq<bool>, bit: bool)
    requires |prefix| < ID_BITS
    ensures KeepBit(ourId, Select(ourId, nodes, prefix), |prefix|, bit)
         == Select(ourId, nodes, prefix + [bit])
  {
    if nodes == [] {
    } else {
      var front, last := nodes[..|nodes| - 1], nodes[|nodes| - 1];
      SelectSplit(ourId, front, prefix, bit);
      PrefixSnoc(Distance(ourId, last.id), prefix, bit);
      var s := Select(ourId, front, prefix);
      assert (s + [last])[..|s|] == s;
      hide Distance;
      assert s + [] == s;
    }
  }

  lemma SplitFilled(t: Table, nodes: seq<Node>)
    requires Filled(t, nodes) && |t.buckets| <= ID_BITS
    ensures Filled(t.(buckets := Split(t.ourId, t.buckets, 0)), nodes)
  {
    var b, k := t.buckets[0], |t.buckets| - 1;
    var r := Split(t.ourId, t.buckets, 0);
    SplitShaped(t, 0);
    assert BucketFilled(t.ourId, b, nodes);
    assert b.nodes == Select(t.ourId, nodes, Zeros(k));
    SelectSplit(t.ourId, nodes, Zeros(k), false);
    SelectSplit(t.ourId, nodes, Zeros(k), true);
    assert Zeros(k) + [false] == Zeros(k + 1);
    hide KeepBit, Select;
    assert BucketFilled(t.ourId, r[0], nodes) && BucketFilled(t.ourId, r[1], nodes);
    hide BucketFilled;
    forall i | 2 <= i < |r|
      ensures BucketFilled(t.ourId, r[i], nodes)
    {
      assert r[i] == t.buckets[i - 1];
    }
  }

  /** A newcomer that ranks last displaces no one. */
  lemma LastDisplacesNone(nodes: seq<Node>, x: Node)
    requires x.liveness != Bad && forall n | n in nodes :: n.liveness != Bad && !Less(KeyOf(x), KeyOf(n))
    ensures Victim(nodes, x).None?
  {
    forall a | 0 <= a < |nodes|
      ensures nodes[a].liveness != Bad && !Less(KeyOf(x), KeyOf(nodes[a]))
    {
      assert nodes[a] in nodes;
    }
  }

  /** The nodes re-inserted so far, followed by the next one. */
  predicate Incoming(nodes: seq<Node>, x: Node) {
    && x.liveness != Bad
    && forall n | n in nodes :: n.liveness != Bad && !Less(KeyOf(x), KeyOf(n))
  }

  lemma {:induction false} InsertStep(t: Table, nodes: seq<Node>, x: Node, now: nat)
    requires Filled(t, nodes) && NoDeeper(t, nodes + [x]) && Incoming(nodes, x)
    ensures var t' := InsertNode(t, x, now);
            Filled(t', nodes + [x]) && NoDeeper(t', nodes + [x]) && t'.ourId == t.ourId
    decreases ID_BITS + 1 - |t.buckets|
  {
    var d := Distance(t.ourId, x.id);
    OursHolds(t, nodes);
    hide Filled, NoDeeper, Incoming, Shaped, Victim, Select, Distance, Split;
    ExactlyOneBucket(t.buckets, d);
    var idx := BucketIndex(t.buckets, d);
    var b := t.buckets[idx];
    if x.id == t.ourId {
      SameFilled(t, nodes, x);
    } else if |b.nodes| < BUCKET_SIZE {
      PushFilled(t, nodes, x, idx, now);
      SameDepth(t, InsertNode(t, x, now), nodes + [x]);
    } else if b.ContainsOurs() && |b.prefix| < ID_BITS {
      SplitShaped(t, idx);
      SplitFilled(t, nodes);
      SplitNeeded(t, nodes, x);
      InsertStep(t.(buckets := Split(t.ourId, t.buckets, 0)), nodes, x, now);
    } else {
      FullStays(t, nodes, x, idx);
    }
  }

  lemma SameDepth(t: Table, t': Table, nodes: seq<Node>)
    requires NoDeeper(t, nodes) && |t'.buckets| == |t.buckets| && t'.ourId == t.ourId
    ensures NoDeeper(t', nodes)
  {
  }

  lemma SameFilled(t: Table, nodes: seq<Node>, x: Node)
    requires Filled(t, nodes) && x.id == t.ourId
    ensures Filled(t, nodes + [x])
  {
    forall p: seq<bool>
      ensures Select(t.ourId, nodes + [x], p) == Select(t.ourId, nodes, p)
    {
      SelectSnoc(t.ourId, nodes, x, p);
    }
    hide Select;
    forall i | 0 <= i < |t.buckets|
      ensures BucketFilled(t.ourId, t.buckets[i], nodes + [x])
    {
      assert BucketFilled(t.ourId, t.buckets[i], nodes);
    }
  }

  /** Buckets the newcomer does not belong to are filled as before. */
  lemma OtherFilled(ourId: Id, b: Bucket, nodes: seq<Node>, x: Node)
    requires BucketFilled(ourId, b, nodes) && !b.Matches(Distance(ourId, x.id))
    ensures BucketFilled(ourId, b, nodes + [x])
  {
    SelectSnoc(ourId, nodes, x, b.prefix);
  }

  lemma OursHolds(t: Table, nodes: seq<Node>)
    requires Filled(t, nodes)
    ensures Shaped(t.buckets) && t.buckets[0].prefix == Zeros(|t.buckets| - 1)
    ensures t.buckets[0].nodes == Select(t.ourId, nodes, Zeros(|t.buckets| - 1))
    ensures |t.buckets[0].nodes| <= BUCKET_SIZE
  {
    assert BucketFilled(t.ourId, t.buckets[0], nodes);
    hide Select;
  }

  lemma FilledAt(t: Table, nodes: seq<Node>, i: nat)
    requires Filled(t, nodes) && i < |t.buckets|
    ensures BucketFilled(t.ourId, t.buckets[i], nodes)
  {
  }

  lemma FilledUpdate(t: Table, nodes: seq<Node>, idx: nat, b: Bucket)
    requires Shaped(t.buckets) && idx < |t.buckets| && b.prefix == t.buckets[idx].prefix
    requires BucketFilled(t.ourId, b, nodes)
    requires forall i | 0 <= i < |t.buckets| && i != idx :: BucketFilled(t.ourId, t.buckets[i], nodes)
    requires |Select(t.ourId, nodes, Zeros(|t.buckets| - 1))| <= BUCKET_SIZE
    ensures Filled(t.(buckets := t.buckets[idx := b]), nodes)
  {
    hide BucketFilled, Select;
    ShapedUpdate(t.buckets, idx, b);
    hide Shaped;
  }

  lemma PushFilled(t: Table, nodes: seq<Node>, x: Node, idx: nat, now: nat)
    requires Filled(t, nodes) && x.id != t.ourId && idx < |t.buckets|
    requires idx == BucketIndex(t.buckets, Distance(t.ourId, x.id))
    requires |t.buckets[idx].nodes| < BUCKET_SIZE
    ensures var b := t.buckets[idx];
            Filled(t.(buckets := t.buckets[idx := b.(nodes := b.nodes + [x], lastChanged := now)]), nodes + [x])
  {
    hide *;
    var b, d := t.buckets[idx], Distance(t.ourId, x.id);
    var b' := b.(nodes := b.nodes + [x], lastChanged := now);
    OursHolds(t, nodes);
    ExactlyOneBucket(t.buckets, d);
    FilledAt(t, nodes, idx);
    PushedFilled(t.ourId, b, nodes, x, now);
    OursWithin(t, nodes, x, idx);
    forall i | 0 <= i < |t.buckets| && i != idx
      ensures BucketFilled(t.ourId, t.buckets[i], nodes + [x])
    {
      FilledAt(t, nodes, i);
      OtherFilled(t.ourId, t.buckets[i], nodes, x);
    }
    FilledUpdate(t, nodes + [x], idx, b');
  }

  lemma PushedFilled(ourId: Id, b: Bucket, nodes: seq<Node>, x: Node, now: nat)
    requires BucketFilled(ourId, b, nodes) && |b.nodes| < BUCKET_SIZE
    requires b.Matches(Distance(ourId, x.id)) && x.id != ourId
    ensures BucketFilled(ourId, b.(nodes := b.nodes + [x], lastChanged := now), nodes + [x])
  {
    SelectSnoc(ourId, nodes, x, b.prefix);
  }

  /** Our own bucket still holds everything that belongs to it. */
  lemma OursWithin(t: Table, nodes: seq<Node>, x: Node, idx: nat)
    requires Filled(t, nodes) && idx < |t.buckets| && |t.buckets[idx].nodes| < BUCKET_SIZE
    requires idx == BucketIndex(t.buckets, Distance(t.ourId, x.id))
    ensures |Select(t.ourId, nodes + [x], Zeros(|t.buckets| - 1))| <= BUCKET_SIZE
  {
    OursHolds(t, nodes);
    ExactlyOneBucket(t.buckets, Distance(t.ourId, x.id));
    hide Select, Distance, Filled, Shaped;
    SelectSnoc(t.ourId, nodes, x, Zeros(|t.buckets| - 1));
  }

  lemma SplitNeeded(t: Table, nodes: seq<Node>, x: Node)
    requires Filled(t, nodes) && x.id != t.ourId && |t.buckets| <= ID_BITS
    requires t.buckets[0].Matches(Distance(t.ourId, x.id)) && |t.buckets[0].nodes| >= BUCKET_SIZE
    ensures NoDeeper(t.(buckets := Split(t.ourId, t.buckets, 0)), nodes + [x])
  {
    assert BucketFilled(t.ourId, t.buckets[0], nodes);
    SelectSnoc(t.ourId, nodes, x, Zeros(|t.buckets| - 1));
    hide Select, Distance;
  }

  lemma FullStays(t: Table, nodes: seq<Node>, x: Node, idx: nat)
    requires Filled(t, nodes) && Incoming(nodes, x) && x.id != t.ourId && idx < |t.buckets|
    requires idx == BucketIndex(t.buckets, Distance(t.ourId, x.id))
    requires |t.buckets[idx].nodes| >= BUCKET_SIZE
    requires !(t.buckets[idx].ContainsOurs() && |t.buckets[idx].prefix| < ID_BITS)
    ensures Victim(t.buckets[idx].nodes, x).None? && Filled(t, nodes + [x])
  {
    hide *;
    var b, d := t.buckets[idx], Distance(t.ourId, x.id);
    OursHolds(t, nodes);
    ExactlyOneBucket(t.buckets, d);
    NotOurs(t, x, idx);
    FilledAt(t, nodes, idx);
    FullBucketStays(t.ourId, b, nodes, x);
    OursUnchanged(t, nodes, x);
    forall i | 0 <= i < |t.buckets| && i != idx
      ensures BucketFilled(t.ourId, t.buckets[i], nodes + [x])
    {
      FilledAt(t, nodes, i);
      OtherFilled(t.ourId, t.buckets[i], nodes, x);
    }
    FilledUpdate(t, nodes + [x], idx, b);
    assert t.buckets[idx := b] == t.buckets;
  }

  /** A bucket that may not split is not ours, unless only our own id would fit it. */
  lemma NotOurs(t: Table, x: Node, idx: nat)
    requires Shaped(t.buckets) && x.id != t.ourId && idx < |t.buckets|
    requires t.buckets[idx].Matches(Distance(t.ourId, x.id))
    requires !(t.buckets[idx].ContainsOurs() && |t.buckets[idx].prefix| < ID_BITS)
    ensures idx != 0
  {
    DistanceZero(t.ourId, x.id);
  }

  lemma OursUnchanged(t: Table, nodes: seq<Node>, x: Node)
    requires Filled(t, nodes) && !t.buckets[0].Matches(Distance(t.ourId, x.id))
    ensures |Select(t.ourId, nodes + [x], Zeros(|t.buckets| - 1))| <= BUCKET_SIZE
  {
    OursHolds(t, nodes);
    hide Filled, Select, Distance;
    SelectSnoc(t.ourId, nodes, x, Zeros(|t.buckets| - 1));
  }

  lemma FullBucketStays(ourId: Id, b: Bucket, nodes: seq<Node>, x: Node)
    requires BucketFilled(ourId, b, nodes) && |b.nodes| >= BUCKET_SIZE && Incoming(nodes, x)
    ensures Victim(b.nodes, x).None? && BucketFilled(ourId, b, nodes + [x])
  {
    var s := Select(ourId, nodes, b.prefix);
    forall n | n in b.nodes
      ensures n in nodes
    {
      assert n in s;
    }
    LastDisplacesNone(b.nodes, x);
    SelectSnoc(ourId, nodes, x, b.prefix);
    hide Select, Victim;
    assert (s + [x])[..BUCKET_SIZE] == s[..BUCKET_SIZE];
  }

  lemma {:induction false} InsertAllFills(ourId: Id, nodes: seq<Node>, now: nat)
    requires Ranked(nodes) && forall n | n in nodes :: n.liveness != Bad
    ensures var t := InsertAll(Empty(ourId, now), nodes, now);
            Filled(t, nodes) && NoDeeper(t, nodes) && t.ourId == ourId
  {
    var t0 := Empty(ourId, now);
    if nodes == [] {
      assert BucketFilled(ourId, t0.buckets[0], []);
    } else {
      var front, last := nodes[..|nodes| - 1], nodes[|nodes| - 1];
      assert nodes == front + [last];
      InsertAllFills(ourId, front, now);
      forall n | n in front
        ensures !Less(KeyOf(last), KeyOf(n))
      {
        var i :| 0 <= i < |front| && front[i] == n;
        assert nodes[i] == n;
      }
      var t := InsertAll(t0, front, now);
      Deepens(t, front, last);
      hide Filled, NoDeeper, InsertNode;
      InsertStep(t, front, last, now);
    }
  }

  lemma Deepens(t: Table, nodes: seq<Node>, x: Node)
    requires NoDeeper(t, nodes) && |t.buckets| > 0
    ensures NoDeeper(t, nodes + [x])
  {
    if |t.buckets| > 1 {
      SelectSnoc(t.ourId, nodes, x, Zeros(|t.buckets| - 2));
    }
  }

  lemma {:induction false} SurvivorsOf(bs: seq<Bucket>)
    ensures multiset(Survivors(bs)) <= Contents(bs)
    ensures forall n :: n in Survivors(bs) <==> n in Contents(bs) && n.liveness != Bad
  {
    if bs == [] {
    } else {
      SurvivorsOf(bs[1..]);
      var here := NotBad(bs[0].nodes);
      forall n
        ensures n in Survivors(bs) <==> n in Contents(bs) && n.liveness != Bad
      {
        assert n in bs[0].nodes <==> n in multiset(bs[0].nodes);
      }
    }
  }

  /** The rebuilt table is what the specification says: for the survivors in rank order, every bucket
      holds exactly the first eight of those that belong to it, and the depth is the least possible. */
  lemma RebuildMeets(t: Table, newId: Id, now: nat)
    ensures var order := SortByRank(Survivors(t.buckets));
            var t' := Rebuild(t, newId, now);
            && Ranked(order) && multiset(order) == multiset(Survivors(t.buckets))
            && t'.ourId == newId
            && Filled(t', order) && NoDeeper(t', order)
  {
    var survivors := Survivors(t.buckets);
    var order := SortByRank(survivors);
    SortRanked(survivors);
    SurvivorsOf(t.buckets);
    forall n | n in order
      ensures n.liveness != Bad
    {
      assert n in multiset(order);
      assert n in survivors;
    }
    InsertAllFills(newId, order, now);
  }

  // ----- the invariant and the Good nodes -----

  lemma {:induction false} InsertAllKeeps(ourId: Id, nodes: seq<Node>, now: nat)
    requires Unique(multiset(nodes))
    ensures var t := InsertAll(Empty(ourId, now), nodes, now);
            Inv(t) && t.ourId == ourId && Contents(t.buckets) <= multiset(nodes)
  {
    if nodes == [] {
      EmptyInv(ourId, now);
    } else {
      var front, last := nodes[..|nodes| - 1], nodes[|nodes| - 1];
      assert nodes == front + [last];
      UniqueSubset(multiset(nodes), multiset(front));
      InsertAllKeeps(ourId, front, now);
      var t := InsertAll(Empty(ourId, now), front, now);
      NewInOrder(multiset(front), Contents(t.buckets), last);
      hide Inv, InsertNode, Unique, Contents;
      InsertKeeps(t, last, now);
      EffectBounded(Contents(t.buckets), Contents(InsertNode(t, last, now).buckets), last);
    }
  }

  lemma EmptyInv(ourId: Id, now: nat)
    ensures Inv(Empty(ourId, now)) && Contents(Empty(ourId, now).buckets) == multiset{}
  {
    var bs := Empty(ourId, now).buckets;
    assert bs[1..] == [];
    assert BucketOk(ourId, bs[0]);
  }

  lemma NewInOrder(front: multiset<Node>, held: multiset<Node>, n: Node)
    requires Unique(front + multiset{n}) && held <= front
    ensures Fresh(held, n)
  {
    var all := front + multiset{n};
    forall m | m in held
      ensures m.id != n.id && m.Host() != n.Host()
    {
      assert held[m] <= front[m];
      assert m in all && n in all && all[n] == 1;
    }
  }

  lemma EffectBounded(before: multiset<Node>, after: multiset<Node>, n: Node)
    requires InsertEffect(before, after, n)
    ensures after <= before + multiset{n}
  {
  }

  /** A node the table held before, alive and not us, is lost only to eight nodes that rank no
      later; a Good one, therefore, only to eight Good ones. */
  lemma RebuildLoses(t: Table, newId: Id, now: nat, n: Node)
    requires Inv(t) && n in Contents(t.buckets) && n.liveness != Bad
    ensures var t' := Rebuild(t, newId, now);
            && Inv(t') && t'.ourId == newId && Contents(t'.buckets) <= Contents(t.buckets)
            && (n in Contents(t'.buckets) || n.id == newId
                || exists i :: 0 <= i < |t'.buckets| && CrowdedOut(t', i, n))
  {
    var order := SortByRank(Survivors(t.buckets));
    var t' := Rebuild(t, newId, now);
    SurvivorsOf(t.buckets);
    assert n in multiset(order);
    InvUnique(t);
    hide *;
    RebuildIs(t, newId, now);
    UniqueSubset(Contents(t.buckets), multiset(order));
    InsertAllKeeps(newId, order, now);
    RebuildMeets(t, newId, now);
    if n.id != newId {
      HeldOrCrowded(t', order, n);
    }
  }

  lemma RebuildIs(t: Table, newId: Id, now: nat)
    ensures Rebuild(t, newId, now) == InsertAll(Empty(newId, now), SortByRank(Survivors(t.buckets)), now)
  {
  }

  lemma HeldOrCrowded(t: Table, order: seq<Node>, n: Node)
    requires Filled(t, order) && Ranked(order) && n in order && n.id != t.ourId
    ensures n in Contents(t.buckets) || exists i :: 0 <= i < |t.buckets| && CrowdedOut(t, i, n)
  {
    hide *;
    OursHolds(t, order);
    var d := Distance(t.ourId, n.id);
    ExactlyOneBucket(t.buckets, d);
    var i := BucketIndex(t.buckets, d);
    var b := t.buckets[i];
    FilledAt(t, order, i);
    InOrCrowded(t, order, n, i);
    if n in b.nodes {
      var a :| 0 <= a < |b.nodes| && b.nodes[a] == n;
      ContentsHas(t.buckets, i, a);
    }
  }

  lemma InOrCrowded(t: Table, order: seq<Node>, n: Node, i: nat)
    requires Ranked(order) && n in order && n.id != t.ourId && i < |t.buckets|
    requires BucketFilled(t.ourId, t.buckets[i], order) && t.buckets[i].Matches(Distance(t.ourId, n.id))
    ensures n in t.buckets[i].nodes || CrowdedOut(t, i, n)
  {
    var b := t.buckets[i];
    Selected(t.ourId, order, b.prefix, n);
    SelectRanked(t.ourId, order, b.prefix);
    hide Select, Distance, Ranked;
    if n !in b.nodes {
      AheadOf(Select(t.ourId, order, b.prefix), n);
    }
  }

  predicate CrowdedOut(t: Table, i: nat, n: Node)
    requires i < |t.buckets|
  {
    && t.buckets[i].Matches(Distance(t.ourId, n.id))
    && |t.buckets[i].nodes| == 8
    && forall a | 0 <= a < 8 :: NoLater(t.buckets[i].nodes[a], n)
  }

  predicate NoLater(m: Node, n: Node) {
    !Less(KeyOf(n), KeyOf(m)) && (n.liveness == Good ==> m.liveness == Good)
  }

  lemma {:induction false} Selected(ourId: Id, nodes: seq<Node>, prefix: seq<bool>, n: Node)
    requires n in nodes && Belongs(ourId, prefix, n)
    ensures n in Select(ourId, nodes, prefix)
  {
    var front, last := nodes[..|nodes| - 1], nodes[|nodes| - 1];
    assert nodes == front + [last];
    if n != last {
      Selected(ourId, front, prefix, n);
    }
  }

  lemma {:induction false} SelectRanked(ourId: Id, nodes: seq<Node>, prefix: seq<bool>)
    requires Ranked(nodes)
    ensures Ranked(Select(ourId, nodes, prefix))
  {
    if nodes == [] {
    } else {
      var front, last := nodes[..|nodes| - 1], nodes[|nodes| - 1];
      SelectRanked(ourId, front, prefix);
      var s := Select(ourId, front, prefix);
      forall i | 0 <= i < |s|
        ensures !Less(KeyOf(last), KeyOf(s[i]))
      {
        assert s[i] in front;
        var j :| 0 <= j < |front| && front[j] == s[i];
        assert nodes[j] == front[j];
      }
    }
  }

  lemma AheadOf(s: seq<Node>, n: Node)
    requires Ranked(s) && n in s && n !in First8(s)
    ensures |First8(s)| == 8
    ensures forall a | 0 <= a < 8 :: NoLater(First8(s)[a], n)
  {
    var j :| 0 <= j < |s| && s[j] == n;
    assert forall a | 0 <= a < |First8(s)| :: First8(s)[a] == s[a];
    assert forall a | 0 <= a < |First8(s)| :: s[a] != n;
  }
}
