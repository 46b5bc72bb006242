/**
 What becomes of one node of the routing table over whole runs: when failures make it Bad, when an
 answer clears it, and that hearsay about it changes nothing.
 */
module RoutingFailures {
  import opened Common
  import opened RoutingTable
  import opened RoutingInvariant
  import opened RoutingRebuild
  import opened RoutingTableState

  datatype Event =
    | Heard(id: Id, addr: Addr, liveness: Liveness, verified: bool, now: nat)
    | Unanswered(addr: Addr)
    | Silent(i: nat, a: nat, now: nat)
    | Renamed(id: Id, now: nat)

  ghost predicate Happens(t: Table, e: Event, u: Table) {
    && Shaped(t.buckets)
    && match e
       case Heard(id, addr, liveness, verified, now) => u == Add(t, id, addr, liveness, verified, now)
       case Unanswered(addr) => u.ourId == t.ourId && Charges(t.buckets, u.buckets, addr)
       case Silent(i, a, now) =>
         && i < |t.buckets| && a < |t.buckets[i].nodes| && Stale(t.buckets[i].nodes[a], now)
         && u == t.(buckets := WithNode(t.buckets, i, a, Suspected(t.buckets[i].nodes[a], now)))
       case Renamed(id, now) => u == Rebuild(t, id, now)
  }

  ghost predicate Run(ts: seq<Table>, es: seq<Event>) {
    && |ts| == |es| + 1 && (exists id, now :: ts[0] == Empty(id, now))
    && forall i | 0 <= i < |es| :: Happens(ts[i], es[i], ts[i + 1])
  }

  lemma EventKeeps(t: Table, e: Event, u: Table)
    requires Inv(t) && Happens(t, e, u)
    ensures Inv(u)
  {
    hide Inv;
    match e
    case Heard(id, addr, liveness, verified, now) => AddKeeps(t, id, addr, liveness, verified, now);
    case Renamed(id, now) => RebuildKeeps(t, id, now);
    case Silent(i, a, now) => TouchKeeps(t, i, a, Suspected(t.buckets[i].nodes[a], now));
    case Unanswered(addr) =>
      if !NoneLive(t.buckets, addr) {
        var i: nat, a: nat :| ChargedAt(t.buckets, u.buckets, addr, i, a);
        TouchKeeps(t, i, a, u.buckets[i].nodes[a]);
        assert u == t.(buckets := WithNode(t.buckets, i, a, u.buckets[i].nodes[a]));
      }
  }

  lemma {:induction false} RunInv(ts: seq<Table>, es: seq<Event>, i: nat)
    requires Run(ts, es) && i < |ts|
    ensures Inv(ts[i])
  {
    if i == 0 {
      var id, now :| ts[0] == Empty(id, now);
      EmptyInv(id, now);
    } else {
      RunInv(ts, es, i - 1);
      EventKeeps(ts[i - 1], es[i - 1], ts[i]);
    }
  }

  // ----- what adding a contact does to the others -----

  lemma SettleAdds(t: Table, n: Node, now: nat)
    requires Inv(t) && forall m | m in Contents(t.buckets) :: m.id != n.id
    ensures Contents(Settle(t, n, now).buckets) <= Contents(t.buckets) + multiset{n}
  {
    var bs, ms := t.buckets, Contents(t.buckets);
    InvUnique(t);
    if !Blocked(bs, n.id, n.addr, n.liveness) {
      var c := LastConflict(bs, n.id, n.addr);
      if c.None? {
        NoConflictFresh(bs, n);
        hide *;
        InsertKeeps(t, n, now);
        EffectBounded(ms, Contents(InsertNode(t, n, now).buckets), n);
      } else {
        var (i, a) := c.value;
        var x := bs[i].nodes[a];
        var t1 := t.(buckets := DropNode(bs, i, a));
        hide *;
        HostOfConflict(x, n);
        DropContents(bs, i, a);
        DropKeeps(t, i, a);
        RemovedFresh(ms, x, n);
        InsertKeeps(t1, n, now);
        EffectBounded(ms - multiset{x}, Contents(InsertNode(t1, n, now).buckets), n);
      }
    }
  }

  /** Where a node held is found when its id is looked up. */
  lemma FoundAt(t: Table, m: Node) returns (idx: nat, a: nat)
    requires Inv(t) && m in Contents(t.buckets)
    ensures m.id != t.ourId
    ensures idx == BucketIndex(t.buckets, Distance(t.ourId, m.id)) < |t.buckets|
    ensures a == Position(t.buckets[idx].nodes, m.id) < |t.buckets[idx].nodes| && t.buckets[idx].nodes[a] == m
  {
    var i, b := ContentsFind(t.buckets, m);
    assert BucketOk(t.ourId, t.buckets[i]);
    assert Belongs(t.ourId, t.buckets[i].prefix, m);
    InvUnique(t);
    hide Inv, Contents, Distance, Unique;
    ExactlyOneBucket(t.buckets, Distance(t.ourId, m.id));
    idx, a := i, Position(t.buckets[i].nodes, m.id);
    ContentsHas(t.buckets, idx, a);
    OneById(t, m, t.buckets[idx].nodes[a]);
  }

  lemma OneById(t: Table, m: Node, n: Node)
    requires Inv(t) && m in Contents(t.buckets) && n in Contents(t.buckets) && m.id == n.id
    ensures m == n
  {
  }

  /** Hearsay about a node held changes nothing. */
  lemma HearsayIgnored(t: Table, m: Node, addr: Addr, liveness: Liveness, verified: bool, now: nat)
    requires Inv(t) && m in Contents(t.buckets) && liveness != Good
    ensures Shaped(t.buckets) && Add(t, m.id, addr, liveness, verified, now) == t
  {
    var idx, a := FoundAt(t, m);
    hide Contents;
  }

  /** An answer from a node's own host clears it: it is Good, seen now, at the address it answered from,
      with no failures; whether its id is verified does not change, and no other node does. */
  lemma AnswerClears(t: Table, m: Node, addr: Addr, verified: bool, now: nat)
    requires Inv(t) && m in Contents(t.buckets) && HostPrefix(addr.ip) == m.Host()
    ensures Shaped(t.buckets)
    ensures Contents(Add(t, m.id, addr, Good, verified, now).buckets)
         == Contents(t.buckets) - multiset{m} + multiset{Node(m.id, addr, now, Good, 0, m.verified)}
  {
    var idx, a := FoundAt(t, m);
    hide Contents, HostPrefix;
    ReplaceContents(t.buckets, idx, a, Node(m.id, addr, now, Good, 0, m.verified), now);
  }

  /** Adding a contact leaves every other node as it is, or out. */
  lemma AddTouchesOne(t: Table, id: Id, addr: Addr, liveness: Liveness, verified: bool, now: nat, m: Node)
    requires Inv(t) && Shaped(t.buckets) && m in Contents(Add(t, id, addr, liveness, verified, now).buckets)
    ensures m in Contents(t.buckets) || JustHeard(m, id, addr, liveness, now)
  {
    var n := Node(id, addr, now, liveness, 0, verified);
    if id != t.ourId {
      ExactlyOneBucket(t.buckets, Distance(t.ourId, id));
      var idx := BucketIndex(t.buckets, Distance(t.ourId, id));
      var a := Position(t.buckets[idx].nodes, id);
      hide Inv, Settle, Contents, Distance, Shaped, HostPrefix;
      if a == |t.buckets[idx].nodes| {
        AbsentId(t, id, idx);
        SettleAdds(t, n, now);
        InAfter(Contents(t.buckets), Contents(Settle(t, n, now).buckets), n, m);
      } else {
        KnownTouchesOne(t, idx, a, n, now, m);
      }
    }
  }

  lemma InAfter(before: multiset<Node>, after: multiset<Node>, n: Node, m: Node)
    requires after <= before + multiset{n} && m in after
    ensures m in before || m == n
  {
    assert after[m] <= (before + multiset{n})[m];
  }

  lemma KnownTouchesOne(t: Table, idx: nat, a: nat, n: Node, now: nat, m: Node)
    requires Inv(t) && Shaped(t.buckets) && idx < |t.buckets| && a < |t.buckets[idx].nodes|
    requires t.buckets[idx].nodes[a].id == n.id && n.failures == 0 && n.lastSeen == now
    requires m in Contents(AddKnown(t, idx, a, n, now).buckets)
    ensures m in Contents(t.buckets) || JustHeard(m, n.id, n.addr, n.liveness, now)
  {
    var x := t.buckets[idx].nodes[a];
    hide Inv, Settle, Contents, Shaped, HostPrefix, DropNode;
    if n.liveness == Good {
      if x.Host() == n.Host() {
        var y := Refreshed(x, n.addr, now);
        ReplaceContents(t.buckets, idx, a, y, now);
        NotTheNew(Contents(t.buckets), x, y, m);
      } else if x.liveness == Bad {
        DropContents(t.buckets, idx, a);
        DropKeeps(t, idx, a);
        RemovedIdAt(t, idx, a);
        var t1 := t.(buckets := DropNode(t.buckets, idx, a));
        SettleAdds(t1, n, now);
        InAfter(Contents(t1.buckets), Contents(Settle(t1, n, now).buckets), n, m);
        NotTheNew(Contents(t.buckets), x, n, m);
      }
    }
  }

  lemma NotTheNew(ms: multiset<Node>, x: Node, y: Node, m: Node)
    requires m in ms - multiset{x} + multiset{y} || m in ms - multiset{x} || m == y
    ensures m in ms || m == y
  {
  }

  // ----- one node over a run -----

  /** An unanswered query to the node `x`. */
  ghost predicate Fails(t: Table, e: Event, x: Id) {
    e.Unanswered? && exists m :: m in Contents(t.buckets) && m.id == x && m.addr == e.addr && m.liveness != Bad
  }

  predicate Answers(e: Event, x: Id) { e.Heard? && e.liveness == Good && e.id == x }

  /** A node before and after an event that is no answer of its own. */
  predicate Worsens(m: Node, n: Node, failed: bool) {
    && (m.failures >= 1 ==> n.failures >= 1) && (m.liveness == Bad ==> n.liveness == Bad)
    && (failed ==> n.failures >= 1 && (n.liveness == Questionable <==> m.failures == 0)
                   && (n.liveness == Bad <==> m.failures >= 1))
    && (!failed ==> n.failures == m.failures)
  }

  lemma EventWorsens(t: Table, e: Event, u: Table, m: Node, n: Node)
    requires Inv(t) && Inv(u) && Happens(t, e, u) && !Answers(e, m.id)
    requires m in Contents(t.buckets) && n in Contents(u.buckets) && m.id == n.id
    ensures Worsens(m, n, Fails(t, e, m.id))
  {
    match e
    case Heard(id, addr, liveness, verified, now) =>
      if id == m.id {
        HearsayIgnored(t, m, addr, liveness, verified, now);
      } else {
        AddTouchesOne(t, id, addr, liveness, verified, now, n);
      }
      OneById(t, m, n);
    case Renamed(id, now) =>
      RenameTouchesNone(t, id, now, n);
      OneById(t, m, n);
    case Silent(i, a, now) =>
      var x := t.buckets[i].nodes[a];
      WithContents(t.buckets, i, a, Suspected(x, now));
      Replaced(t, Contents(u.buckets), x, Suspected(x, now), m, n);
    case Unanswered(addr) => FailureWorsens(t, addr, u, m, n);
  }

  lemma RenameTouchesNone(t: Table, id: Id, now: nat, n: Node)
    requires Inv(t) && n in Contents(Rebuild(t, id, now).buckets)
    ensures n in Contents(t.buckets)
  {
    var order := SortByRank(Survivors(t.buckets));
    SurvivorsOf(t.buckets);
    InvUnique(t);
    hide *;
    RebuildIs(t, id, now);
    UniqueSubset(Contents(t.buckets), multiset(order));
    InsertAllKeeps(id, order, now);
    assert Contents(Rebuild(t, id, now).buckets)[n] <= multiset(order)[n] <= Contents(t.buckets)[n];
  }

  lemma WithContents(bs: seq<Bucket>, i: nat, a: nat, n: Node)
    requires i < |bs| && a < |bs[i].nodes|
    ensures Contents(WithNode(bs, i, a, n)) == Contents(bs) - multiset{bs[i].nodes[a]} + multiset{n}
    ensures bs[i].nodes[a] in Contents(bs)
  {
    ContentsHas(bs, i, a);
    ReplaceContents(bs, i, a, n, bs[i].lastChanged);
  }

  /** When one node is replaced under its id, the node found under an id is the old one or its replacement. */
  lemma Replaced(t: Table, after: multiset<Node>, x: Node, y: Node, m: Node, n: Node)
    requires Inv(t) && x in Contents(t.buckets) && y.id == x.id
    requires after == Contents(t.buckets) - multiset{x} + multiset{y}
    requires m in Contents(t.buckets) && n in after && m.id == n.id
    ensures if m == x then n == y else n == m
  {
    hide Contents;
    var ms := Contents(t.buckets);
    assert ms[x] == 1;
    if n != y {
      assert n in ms - multiset{x};
      OneById(t, m, n);
    } else {
      OneById(t, m, x);
    }
  }

  lemma FailureWorsens(t: Table, addr: Addr, u: Table, m: Node, n: Node)
    requires Inv(t) && Charges(t.buckets, u.buckets, addr)
    requires m in Contents(t.buckets) && n in Contents(u.buckets) && m.id == n.id
    ensures Worsens(m, n, Fails(t, Unanswered(addr), m.id))
  {
    if NoneLive(t.buckets, addr) {
      NoneToFail(t, addr, m.id);
      OneById(t, m, n);
    } else {
      var i: nat, a: nat :| ChargedAt(t.buckets, u.buckets, addr, i, a);
      ChargeWorsens(t, addr, u, i, a, m, n);
    }
  }

  lemma ChargeWorsens(t: Table, addr: Addr, u: Table, i: nat, a: nat, m: Node, n: Node)
    requires Inv(t) && ChargedAt(t.buckets, u.buckets, addr, i, a)
    requires m in Contents(t.buckets) && n in Contents(u.buckets) && m.id == n.id
    ensures Worsens(m, n, Fails(t, Unanswered(addr), m.id))
  {
    var x, y := t.buckets[i].nodes[a], u.buckets[i].nodes[a];
    WithContents(t.buckets, i, a, y);
    hide Inv, Contents, WithNode;
    Replaced(t, Contents(u.buckets), x, y, m, n);
    if m != x {
      OnlyOneFails(t, addr, x, m);
    }
  }

  lemma NoneToFail(t: Table, addr: Addr, x: Id)
    requires NoneLive(t.buckets, addr)
    ensures !Fails(t, Unanswered(addr), x)
  {
    forall m | m in Contents(t.buckets) && m.addr == addr
      ensures m.liveness == Bad
    {
      var i, a := ContentsFind(t.buckets, m);
    }
  }

  /** No two nodes have one address, so a failure is charged to one. */
  lemma OnlyOneFails(t: Table, addr: Addr, x: Node, m: Node)
    requires Inv(t) && x in Contents(t.buckets) && x.addr == addr && m in Contents(t.buckets) && m != x
    ensures !Fails(t, Unanswered(addr), m.id)
  {
    hide Contents;
    forall n | n in Contents(t.buckets) && n.id == m.id
      ensures n.addr != addr
    {
      OneById(t, m, n);
    }
  }

  ghost predicate Held(t: Table, x: Id) { exists m :: m in Contents(t.buckets) && m.id == x }

  /** The node `x`, if it is held, has failed since it was last heard from. */
  predicate HasFailed(t: Table, x: Id) { forall m | m in Contents(t.buckets) && m.id == x :: m.failures >= 1 }

  predicate Clear(t: Table, x: Id) { forall m | m in Contents(t.buckets) && m.id == x :: m.failures == 0 }

  predicate AllAre(t: Table, x: Id, l: Liveness) {
    forall m | m in Contents(t.buckets) && m.id == x :: m.liveness == l
  }

  /** What an event does to the node `x`, wherever it stands in the table. */
  lemma EventOn(t: Table, e: Event, u: Table, x: Id)
    requires Inv(t) && Inv(u) && Happens(t, e, u) && Held(t, x) && !Answers(e, x)
    ensures Fails(t, e, x) || HasFailed(t, x) ==> HasFailed(u, x)
    ensures Fails(t, e, x) && HasFailed(t, x) ==> AllAre(u, x, Bad)
    ensures Fails(t, e, x) && Clear(t, x) ==> AllAre(u, x, Questionable)
  {
    var m :| m in Contents(t.buckets) && m.id == x;
    hide Inv, Contents, Happens, Fails, Answers;
    forall n | n in Contents(u.buckets) && n.id == x
      ensures Worsens(m, n, Fails(t, e, x))
    {
      EventWorsens(t, e, u, m, n);
    }
  }

  lemma StepOf(ts: seq<Table>, es: seq<Event>, i: nat)
    requires Run(ts, es) && i + 1 < |ts|
    ensures i < |es| && Happens(ts[i], es[i], ts[i + 1]) && Inv(ts[i]) && Inv(ts[i + 1])
  {
    RunInv(ts, es, i);
    RunInv(ts, es, i + 1);
  }

  lemma {:induction false} FailureStays(ts: seq<Table>, es: seq<Event>, i: nat, j: nat, x: Id)
    requires |ts| == |es| + 1 && Run(ts, es) && i < j < |ts| && Fails(ts[i], es[i], x)
    requires forall k | i <= k <= j :: Held(ts[k], x)
    requires forall k | i <= k < j :: !Answers(es[k], x)
    ensures HasFailed(ts[j], x)
    decreases j
  {
    hide *;
    StepOf(ts, es, j - 1);
    if i < j - 1 {
      FailureStays(ts, es, i, j - 1, x);
    }
    EventOn(ts[j - 1], es[j - 1], ts[j], x);
  }

  /** Two unanswered queries to a node, with no answer from it in between, make it Bad if it is held
      throughout, whatever else is heard, added or renamed. */
  lemma TwoFailuresMakeBad(ts: seq<Table>, es: seq<Event>, i: nat, j: nat, x: Id)
    requires |ts| == |es| + 1 && Run(ts, es) && i < j < |es| && Fails(ts[i], es[i], x) && Fails(ts[j], es[j], x)
    requires forall k | i <= k <= j :: Held(ts[k], x)
    requires forall k | i <= k <= j :: !Answers(es[k], x)
    ensures AllAre(ts[j + 1], x, Bad)
  {
    hide *;
    FailureStays(ts, es, i, j, x);
    StepOf(ts, es, j);
    EventOn(ts[j], es[j], ts[j + 1], x);
  }

  lemma EventClear(t: Table, e: Event, u: Table, x: Id)
    requires Inv(t) && Inv(u) && Happens(t, e, u) && Clear(t, x) && !Fails(t, e, x)
    ensures Clear(u, x)
  {
    forall n | n in Contents(u.buckets) && n.id == x
      ensures n.failures == 0
    {
      if e.Heard? {
        AddTouchesOne(t, e.id, e.addr, e.liveness, e.verified, e.now, n);
      } else {
        NotFromNowhere(t, e, u, n);
        var m :| m in Contents(t.buckets) && m.id == x;
        EventWorsens(t, e, u, m, n);
      }
    }
  }

  lemma NotFromNowhere(t: Table, e: Event, u: Table, n: Node)
    requires Inv(t) && Happens(t, e, u) && !e.Heard? && n in Contents(u.buckets)
    ensures Held(t, n.id)
  {
    match e
    case Renamed(id, now) => RenameTouchesNone(t, id, now, n);
    case Silent(i, a, now) =>
      WithContents(t.buckets, i, a, Suspected(t.buckets[i].nodes[a], now));
      NotTheNew(Contents(t.buckets), t.buckets[i].nodes[a], Suspected(t.buckets[i].nodes[a], now), n);
    case Unanswered(addr) =>
      if !NoneLive(t.buckets, addr) {
        var i: nat, a: nat :| ChargedAt(t.buckets, u.buckets, addr, i, a);
        WithContents(t.buckets, i, a, u.buckets[i].nodes[a]);
        NotTheNew(Contents(t.buckets), t.buckets[i].nodes[a], u.buckets[i].nodes[a], n);
      }
  }

  lemma {:induction false} StaysClear(ts: seq<Table>, es: seq<Event>, k: nat, i: nat, x: Id)
    requires |ts| == |es| + 1 && Run(ts, es) && k <= i < |ts| && Clear(ts[k], x)
    requires forall j | k <= j < i :: !Fails(ts[j], es[j], x)
    ensures Clear(ts[i], x)
    decreases i
  {
    hide *;
    if k == i {
    } else {
      StaysClear(ts, es, k, i - 1, x);
      StepOf(ts, es, i - 1);
      EventClear(ts[i - 1], es[i - 1], ts[i], x);
    }
  }

  /** One unanswered query never makes a node Bad: if its record was clear, as it is when it is new or has
      answered, and no query to it went unanswered since, it is only doubtful afterwards. */
  lemma OneFailureSpares(ts: seq<Table>, es: seq<Event>, k: nat, i: nat, x: Id)
    requires |ts| == |es| + 1 && Run(ts, es) && k <= i < |es| && Clear(ts[k], x) && Fails(ts[i], es[i], x)
    requires forall j | k <= j < i :: !Fails(ts[j], es[j], x)
    ensures AllAre(ts[i + 1], x, Questionable)
  {
    hide *;
    StaysClear(ts, es, k, i, x);
    StepOf(ts, es, i);
    FailingIs(ts[i], es[i], x);
    EventOn(ts[i], es[i], ts[i + 1], x);
  }

  lemma FailingIs(t: Table, e: Event, x: Id)
    requires Fails(t, e, x)
    ensures Held(t, x) && !Answers(e, x)
  {
    var m :| m in Contents(t.buckets) && m.id == x;
  }
}
