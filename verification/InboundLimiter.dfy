/** Limits on inbound queries per source and on reply bytes, in real arithmetic. */
module InboundLimiter {
  import opened Common

  const QUERY_RATE: real := 5.0
  const QUERY_BURST: real := 10.0
  const QUERY_BLOCK: real := 300.0
  const IDLE_KEEP: real := 10.0
  const MAX_TRACKED: nat := 4096
  const EVICT: nat := 512
  const REPLY_BYTES_PER_SEC: real := 32768.0

  datatype Bucket = Bucket(tokens: real, refilled: real, blocked: Option<real>)

  datatype Limiter = Limiter(ips: map<IpAddr, Bucket>, replyTokens: real, replyRefilled: real)

  function MinReal(a: real, b: real): real { if a <= b then a else b }

  function Elapsed(since: real, now: real): real { if now < since then 0.0 else now - since }

  predicate Blocked(b: Bucket, now: real) { b.blocked.Some? && b.blocked.value > now }

  // ----- the limiter's steps -----

  /** One query against one source's bucket. */
  function Query(b: Bucket, now: real): (bool, Bucket) {
    if b.blocked.Some? && now < b.blocked.value then (false, b)
    else
      var tokens := if b.blocked.Some? then QUERY_BURST else b.tokens;
      var level := MinReal(tokens + Elapsed(b.refilled, now) * QUERY_RATE, QUERY_BURST);
      if level < 1.0 then (false, Bucket(level, now, Some(now + QUERY_BLOCK)))
      else (true, Bucket(level - 1.0, now, None))
  }

  /** Sources worth keeping when room is made: blocked ones, and those heard from in the last ten seconds. */
  predicate Fresh(b: Bucket, now: real) { Blocked(b, now) || Elapsed(b.refilled, now) < IDLE_KEEP }

  function Retained(ips: map<IpAddr, Bucket>, now: real): map<IpAddr, Bucket> {
    map k | k in ips && Fresh(ips[k], now) :: ips[k]
  }

  /** Sources not blocked come before blocked ones, and earlier refilled before later. */
  predicate NotAfter(a: Bucket, b: Bucket, now: real) {
    if Blocked(a, now) == Blocked(b, now) then a.refilled <= b.refilled else Blocked(b, now)
  }

  /** Of the sources known, exactly those blocked and those heard from in the last ten seconds are kept. */
  lemma RetainedExactly(ips: map<IpAddr, Bucket>, now: real, k: IpAddr)
    ensures k in Retained(ips, now)
      <==> k in ips && ((ips[k].blocked.Some? && now < ips[k].blocked.value) || now < ips[k].refilled + 10.0)
    ensures k in Retained(ips, now) ==> Retained(ips, now)[k] == ips[k]
  {
  }

  /** A choice of victims: none unless the table is still full, then 512 that come first. Which of
      several equals go is left open, as it is by the selection the code uses. */
  ghost predicate Victims(kept: map<IpAddr, Bucket>, now: real, out: set<IpAddr>) {
    if |kept| < 4096 then out == {}
    else
      && out <= kept.Keys && |out| == 512
      && forall a, b | a in out && b in kept && b !in out :: NotAfter(kept[a], kept[b], now)
  }

  predicate Crowded(l: Limiter, ip: IpAddr) { |l.ips| >= 4096 && HostPrefix(ip) !in l.ips }

  function Room(l: Limiter, ip: IpAddr, now: real, out: set<IpAddr>): map<IpAddr, Bucket> {
    if Crowded(l, ip) then Retained(l.ips, now) - out else l.ips
  }

  function BucketOf(ips: map<IpAddr, Bucket>, k: IpAddr, now: real): Bucket {
    if k in ips then ips[k] else Bucket(QUERY_BURST, now, None)
  }

  /** `allow` for a query from `ip`, with `out` the sources forcibly forgotten to make room. */
  function Allow(l: Limiter, ip: IpAddr, now: real, out: set<IpAddr>): (bool, Limiter) {
    var k := HostPrefix(ip);
    var ips := Room(l, ip, now, out);
    var r := Query(BucketOf(ips, k, now), now);
    (r.0, l.(ips := ips[k := r.1]))
  }

  ghost predicate Choice(l: Limiter, ip: IpAddr, now: real, out: set<IpAddr>) {
    if Crowded(l, ip) then Victims(Retained(l.ips, now), now, out) else out == {}
  }

  function TakeReply(l: Limiter, bytes: nat, now: real): (bool, Limiter) {
    var level := MinReal(l.replyTokens + Elapsed(l.replyRefilled, now) * REPLY_BYTES_PER_SEC, REPLY_BYTES_PER_SEC);
    if level < bytes as real then (false, l.(replyTokens := level, replyRefilled := now))
    else (true, l.(replyTokens := level - bytes as real, replyRefilled := now))
  }

  function StartLimiter(now: real): Limiter { Limiter(map[], REPLY_BYTES_PER_SEC, now) }

  // ----- the plain token bucket -----

  /** Rate 5, burst 10, charged for granted queries only: `level` was left at time `at`. */
  datatype Plain = Plain(level: real, at: real)

  function LevelAt(p: Plain, now: real): real {
    MinReal(p.level + Elapsed(p.at, now) * 5.0, 10.0)
  }

  function Charge(p: Plain, now: real): Plain { Plain(LevelAt(p, now) - 1.0, now) }

  predicate PlainOk(p: Plain, now: real) { 0.0 <= p.level <= 10.0 && p.at <= now }

  /** The limiter's bucket for a source stands exactly where the plain bucket does; a source the
      limiter does not know has a full plain bucket. */
  predicate Matches(b: Option<Bucket>, p: Plain, now: real) {
    && PlainOk(p, now)
    && match b
       case None => LevelAt(p, now) == 10.0
       case Some(x) =>
         && p.at <= x.refilled <= now && 0.0 <= x.tokens <= 10.0
         && LevelAt(p, x.refilled) == x.tokens
         && (x.blocked.Some? ==> x.blocked.value == x.refilled + 300.0)
  }

  function Held(ips: map<IpAddr, Bucket>, k: IpAddr): Option<Bucket> { if k in ips then Some(ips[k]) else None }

  lemma LevelLater(p: Plain, t: real, now: real)
    requires PlainOk(p, t) && t <= now
    ensures LevelAt(p, now) == MinReal(LevelAt(p, t) + (now - t) * 5.0, 10.0)
    ensures 0.0 <= LevelAt(p, t) <= LevelAt(p, now) <= 10.0
  {
  }

  /** Waiting changes nothing about the match. */
  lemma MatchesLater(b: Option<Bucket>, p: Plain, t: real, now: real)
    requires Matches(b, p, t) && t <= now
    ensures Matches(b, p, now)
  {
    LevelLater(p, t, now);
  }

  /** Forgetting a source that is neither blocked nor recent loses nothing: its plain bucket is full. */
  lemma ForgettingIsFree(b: Bucket, p: Plain, now: real)
    requires Matches(Some(b), p, now) && !Fresh(b, now)
    ensures Matches(None, p, now)
  {
    LevelLater(p, b.refilled, now);
  }

  /** A query is granted exactly when the plain bucket would grant it and the source is not blocked; one
      refused otherwise blocks the source for five minutes, and during a block nothing changes;
      the reset to a full bucket after a block adds nothing to the plain bucket. */
  lemma QueryConforms(b: Option<Bucket>, p: Plain, now: real)
    requires Matches(b, p, now)
    ensures var x := if b.Some? then b.value else Bucket(10.0, now, None);
            var r := Query(x, now);
            && (r.0 <==> LevelAt(p, now) >= 1.0 && !Blocked(x, now))
            && (Blocked(x, now) ==> r.1 == x)
            && (!Blocked(x, now) ==> r.1.blocked == if r.0 then None else Some(now + 300.0))
            && Matches(Some(r.1), if r.0 then Charge(p, now) else p, now)
  {
    if b.Some? {
      LevelLater(p, b.value.refilled, now);
    }
  }

  /** A clock that goes back adds nothing to a bucket, and takes nothing from it. */
  lemma BackwardAddsNothing(b: Bucket, l: Limiter, bytes: nat, now: real)
    requires now <= b.refilled && b.blocked.None? && b.tokens <= 10.0
    requires now <= l.replyRefilled && l.replyTokens <= 32768.0
    ensures Query(b, now).0 <==> b.tokens >= 1.0
    ensures Query(b, now).1.tokens == if b.tokens >= 1.0 then b.tokens - 1.0 else b.tokens
    ensures TakeReply(l, bytes, now).0 <==> l.replyTokens >= bytes as real
  {
  }

  /** A query touches the bucket of its own source only; another is forgotten only to make room for a new
      source among 4096, and only if idle or forced out. */
  lemma OthersUntouched(l: Limiter, ip: IpAddr, now: real, out: set<IpAddr>, k: IpAddr)
    requires Choice(l, ip, now, out) && k in l.ips && k != HostPrefix(ip)
    ensures var m := Allow(l, ip, now, out).1;
            && (k in m.ips ==> m.ips[k] == l.ips[k])
            && (|l.ips| < 4096 || HostPrefix(ip) in l.ips ==> k in m.ips)
            && (k in Retained(l.ips, now) && k !in out ==> k in m.ips)
  {
    hide HostPrefix, Query;
  }

  /** A plain bucket charged `n` times at one moment. */
  function ChargeTimes(p: Plain, now: real, n: nat): Plain {
    if n == 0 then p else Charge(ChargeTimes(p, now, n - 1), now)
  }

  lemma {:induction false} ChargedAtOnce(p: Plain, now: real, n: nat)
    requires PlainOk(p, now) && n as real <= LevelAt(p, now)
    ensures LevelAt(ChargeTimes(p, now, n), now) == LevelAt(p, now) - n as real
    ensures n > 0 ==> ChargeTimes(p, now, n) == Plain(LevelAt(p, now) - n as real, now)
  {
    if n == 0 {
    } else {
      ChargedAtOnce(p, now, n - 1);
    }
  }

  // ----- a bucket left to itself -----

  /** A plain bucket that answers the queries itself, those the limiter blocks among them. */
  function Own(q: Plain, now: real): (bool, Plain) {
    if LevelAt(q, now) >= 1.0 then (true, Charge(q, now)) else (false, q)
  }

  predicate Ordered(ts: seq<real>, from: real) {
    ts == [] || (from <= ts[0] && Ordered(ts[1..], ts[0]))
  }

  /** Until the limiter refuses, whatever it grants at the times `ts` the other bucket grants too. */
  predicate Covered(b: Bucket, q: Plain, ts: seq<real>)
    decreases |ts|
  {
    if ts == [] || !Query(b, ts[0]).0 then true
    else Own(q, ts[0]).0 && Covered(Query(b, ts[0]).1, Own(q, ts[0]).1, ts[1..])
  }

  lemma {:induction false} MatchedCovers(b: Bucket, q: Plain, t: real, ts: seq<real>)
    requires Matches(Some(b), q, t) && Ordered(ts, t)
    ensures Covered(b, q, ts)
    decreases |ts|
  {
    if ts == [] {
    } else {
      MatchesLater(Some(b), q, t, ts[0]);
      QueryConforms(Some(b), q, ts[0]);
      if Query(b, ts[0]).0 {
        MatchedCovers(Query(b, ts[0]).1, Charge(q, ts[0]), ts[0], ts[1..]);
      }
    }
  }

  function Repeat(t: real, n: nat): seq<real> { if n == 0 then [] else [t] + Repeat(t, n - 1) }

  lemma {:induction false} RepeatOrdered(t: real, n: nat)
    ensures Ordered(Repeat(t, n), t)
  {
    if n == 0 {
    } else {
      RepeatOrdered(t, n - 1);
    }
  }

  /** A limiter's bucket with `n` tokens outlasts a bucket with fewer. */
  lemma {:induction false} BurstUncovered(q: Plain, t: real, n: nat)
    requires n <= 10 && PlainOk(q, t) && LevelAt(q, t) < n as real
    ensures !Covered(Bucket(n as real, t, None), q, Repeat(t, n))
    decreases n
  {
    if n == 0 {
      LevelLater(q, t, t);
      assert false;
    } else if LevelAt(q, t) >= 1.0 {
      BurstUncovered(Charge(q, t), t, n - 1);
      assert Query(Bucket(n as real, t, None), t) == (true, Bucket((n - 1) as real, t, None));
    }
  }

  /** When a block has ended, the limiter grants nothing that a bucket left to itself refuses, until
      its next refusal and whatever the times, exactly if that bucket is full at the end of the block. */
  lemma FullCoversExactly(b: Bucket, q: Plain, u: real)
    requires b.blocked.Some? && b.blocked.value <= u && b.refilled <= u && PlainOk(q, u)
    ensures (forall ts | Ordered(ts, u) :: Covered(b, q, ts)) <==> LevelAt(q, u) == 10.0
  {
    if LevelAt(q, u) == 10.0 {
      forall ts | Ordered(ts, u)
        ensures Covered(b, q, ts)
      {
        FullCovers(b, q, u, ts);
      }
    } else {
      var ts := BurstAfterBlock(b, q, u);
      assert Ordered(ts, u) && !Covered(b, q, ts);
    }
  }

  /** Ten queries at the moment a block ends are all granted; a bucket that is not full refuses one. */
  lemma BurstAfterBlock(b: Bucket, q: Plain, u: real) returns (ts: seq<real>)
    requires b.blocked.Some? && b.blocked.value <= u && b.refilled <= u && PlainOk(q, u)
    requires LevelAt(q, u) != 10.0
    ensures Ordered(ts, u) && !Covered(b, q, ts)
  {
    ts := [u] + Repeat(u, 9);
    RepeatOrdered(u, 9);
    assert ts[1..] == Repeat(u, 9) && Query(b, ts[0]) == (true, Bucket(9.0, u, None));
    if LevelAt(q, u) >= 1.0 {
      BurstUncovered(Charge(q, u), u, 9);
    }
  }

  lemma FullCovers(b: Bucket, q: Plain, u: real, ts: seq<real>)
    requires b.blocked.Some? && b.blocked.value <= u && b.refilled <= u && PlainOk(q, u)
    requires LevelAt(q, u) == 10.0 && Ordered(ts, u)
    ensures Covered(b, q, ts)
  {
    if ts != [] {
      LevelLater(q, u, ts[0]);
      assert Query(b, ts[0]) == (true, Bucket(9.0, ts[0], None));
      MatchedCovers(Query(b, ts[0]).1, Charge(q, ts[0]), ts[0], ts[1..]);
    }
  }

  /** Whatever the limiter grants at the times `ts`, through any number of blocks, the other bucket grants. */
  predicate AllCovered(b: Bucket, q: Plain, ts: seq<real>)
    decreases |ts|
  {
    ts == []
    || ((Query(b, ts[0]).0 ==> Own(q, ts[0]).0) && AllCovered(Query(b, ts[0]).1, Own(q, ts[0]).1, ts[1..]))
  }

  /** The first query after a block comes at least two seconds after the query before it. */
  predicate Pauses(b: Bucket, last: real, ts: seq<real>)
    decreases |ts|
  {
    ts == []
    || ((b.blocked.Some? && b.blocked.value <= ts[0] ==> last + 2.0 <= ts[0])
        && Pauses(Query(b, ts[0]).1, ts[0], ts[1..]))
  }

  /** While no block stands or has just ended, the two buckets agree. */
  predicate Agrees(b: Bucket, q: Plain, t: real) {
    && PlainOk(q, t) && b.refilled <= t
    && (b.blocked.None? ==> q.at <= b.refilled && LevelAt(q, b.refilled) == b.tokens)
  }

  /** A source that pauses two seconds before it asks again after a block is granted, over a whole
      run of queries and blocks, nothing that a bucket left to itself would refuse. */
  lemma {:induction false} PausersCovered(b: Bucket, q: Plain, last: real, ts: seq<real>)
    requires Agrees(b, q, last) && Ordered(ts, last) && Pauses(b, last, ts)
    ensures AllCovered(b, q, ts)
    decreases |ts|
  {
    if ts == [] {
    } else {
      AgreesStep(b, q, last, ts[0]);
      PausersCovered(Query(b, ts[0]).1, Own(q, ts[0]).1, ts[0], ts[1..]);
    }
  }

  lemma AgreesStep(b: Bucket, q: Plain, last: real, now: real)
    requires Agrees(b, q, last) && last <= now
    requires b.blocked.Some? && b.blocked.value <= now ==> last + 2.0 <= now
    ensures Query(b, now).0 ==> Own(q, now).0
    ensures Agrees(Query(b, now).1, Own(q, now).1, now)
  {
    LevelLater(q, last, now);
    if b.blocked.None? {
      LevelLater(q, b.refilled, now);
    }
  }

  /** It does grant more: a source that asks ten times shortly before its block ends empties its own
      bucket, which then refuses, at the end of the block, a query the limiter grants. */
  lemma ChargingBlockedQueriesDiffers()
    ensures var b, p := Bucket(0.5, 0.0, Some(300.0)), Plain(0.5, 0.0);
            var q := Charge(ChargeTimes(p, 299.8, 10), 300.0);
            && Matches(Some(b), p, 0.0)
            && LevelAt(ChargeTimes(p, 299.8, 9), 299.8) >= 1.0 && Blocked(b, 299.8)
            && Query(b, 300.0).0 && Query(Query(b, 300.0).1, 300.0).0
            && LevelAt(q, 300.0) < 1.0
  {
    hide ChargeTimes;
    assert LevelAt(Plain(0.5, 0.0), 299.8) == 10.0;
    ChargedAtOnce(Plain(0.5, 0.0), 299.8, 9);
    ChargedAtOnce(Plain(0.5, 0.0), 299.8, 10);
    assert ChargeTimes(Plain(0.5, 0.0), 299.8, 10) == Plain(0.0, 299.8);
  }

  // ----- the whole table, over whole runs -----

  predicate Tracked(l: Limiter) { |l.ips| <= 4096 }

  lemma RoomTracked(l: Limiter, ip: IpAddr, now: real, out: set<IpAddr>)
    requires Tracked(l) && Choice(l, ip, now, out)
    ensures Tracked(Allow(l, ip, now, out).1)
  {
    var ips := Room(l, ip, now, out);
    var kept := Retained(l.ips, now);
    assert kept.Keys <= l.ips.Keys;
    if Crowded(l, ip) {
      SmallerKeys(kept.Keys, l.ips.Keys);
      assert ips.Keys == kept.Keys - out;
      if |kept| >= 4096 {
        assert |kept.Keys - out| == |kept.Keys| - |out|;
      } else {
        assert ips == kept;
      }
      assert |ips| < 4096;
    }
    KeyAdded(ips, HostPrefix(ip), Query(BucketOf(ips, HostPrefix(ip), now), now).1);
  }

  lemma {:induction false} SmallerKeys<T>(a: set<T>, b: set<T>)
    requires a <= b
    ensures |a| <= |b|
  {
    assert b == a + (b - a);
  }

  lemma KeyAdded<K, V>(m: map<K, V>, k: K, v: V)
    ensures |m[k := v]| == if k in m then |m| else |m| + 1
  {
    assert m[k := v].Keys == m.Keys + {k};
    if k in m {
      assert m.Keys + {k} == m.Keys;
    }
  }

  datatype Call = Call(ip: IpAddr, now: real, out: set<IpAddr>)

  ghost predicate Next(l: Limiter, c: Call, m: Limiter) {
    Choice(l, c.ip, c.now, c.out) && m == Allow(l, c.ip, c.now, c.out).1
  }

  /** A run of queries with times that do not go back. */
  ghost predicate Run(ls: seq<Limiter>, cs: seq<Call>, start: real) {
    && |ls| == |cs| + 1 && ls[0].ips == map[]
    && (forall i | 0 <= i < |cs| :: Next(ls[i], cs[i], ls[i + 1]))
    && (forall i | 0 <= i < |cs| :: start <= cs[i].now)
    && (forall i, j | 0 <= i < j < |cs| :: cs[i].now <= cs[j].now)
  }

  predicate Granted(l: Limiter, c: Call) { Allow(l, c.ip, c.now, c.out).0 }

  /** The plain bucket of source `k` after the first `n` calls, charged for that source's grants. */
  function PlainOf(ls: seq<Limiter>, cs: seq<Call>, start: real, k: IpAddr, n: nat): Plain
    requires n <= |cs| && |ls| == |cs| + 1
  {
    if n == 0 then Plain(10.0, start)
    else
      var p := PlainOf(ls, cs, start, k, n - 1);
      if HostPrefix(cs[n - 1].ip) == k && Granted(ls[n - 1], cs[n - 1]) then Charge(p, cs[n - 1].now) else p
  }

  predicate NeverForced(cs: seq<Call>, k: IpAddr) { forall i | 0 <= i < |cs| :: k !in cs[i].out }

  function TimeBefore(cs: seq<Call>, start: real, n: nat): real
    requires n <= |cs|
  {
    if n == 0 then start else cs[n - 1].now
  }

  /** In every run the table stays within its bound, and a source never forcibly forgotten is matched
      by the plain bucket charged for its grants. */
  lemma {:induction false} RunConforms(ls: seq<Limiter>, cs: seq<Call>, start: real, k: IpAddr, n: nat)
    requires Run(ls, cs, start) && n <= |cs|
    ensures Tracked(ls[n])
    ensures NeverForced(cs, k) ==> Matches(Held(ls[n].ips, k), PlainOf(ls, cs, start, k, n), TimeBefore(cs, start, n))
  {
    if n == 0 {
    } else {
      RunConforms(ls, cs, start, k, n - 1);
      var l, c := ls[n - 1], cs[n - 1];
      assert Next(l, c, ls[n]);
      RoomTracked(l, c.ip, c.now, c.out);
      if NeverForced(cs, k) {
        assert TimeBefore(cs, start, n - 1) <= c.now;
        StepConforms(l, c, k, PlainOf(ls, cs, start, k, n - 1), TimeBefore(cs, start, n - 1));
      }
    }
  }

  lemma StepConforms(l: Limiter, c: Call, k: IpAddr, p: Plain, t: real)
    requires Matches(Held(l.ips, k), p, t) && t <= c.now && k !in c.out
    ensures var r := Allow(l, c.ip, c.now, c.out);
      && (HostPrefix(c.ip) == k && r.0 ==> LevelAt(p, c.now) >= 1.0)
      && Matches(Held(r.1.ips, k), if HostPrefix(c.ip) == k && r.0 then Charge(p, c.now) else p, c.now)
  {
    hide Matches, Query, LevelAt, HostPrefix;
    MatchesLater(Held(l.ips, k), p, t, c.now);
    var ips := Room(l, c.ip, c.now, c.out);
    if k in l.ips && k !in ips {
      ForgettingIsFree(l.ips[k], p, c.now);
    }
    if HostPrefix(c.ip) == k {
      QueryConforms(Held(ips, k), p, c.now);
    }
  }

  /** A query of `k`'s is granted only if its plain bucket holds a token. */
  lemma GrantsConform(ls: seq<Limiter>, cs: seq<Call>, start: real, k: IpAddr, n: nat)
    requires Run(ls, cs, start) && NeverForced(cs, k) && n < |cs|
    requires HostPrefix(cs[n].ip) == k && Granted(ls[n], cs[n])
    ensures LevelAt(PlainOf(ls, cs, start, k, n), cs[n].now) >= 1.0
  {
    RunConforms(ls, cs, start, k, n);
    assert Next(ls[n], cs[n], ls[n + 1]) && TimeBefore(cs, start, n) <= cs[n].now;
    StepConforms(ls[n], cs[n], k, PlainOf(ls, cs, start, k, n), TimeBefore(cs, start, n));
  }

  /** Grants to `k` among the calls from `i` up to `j`. */
  function Grants(ls: seq<Limiter>, cs: seq<Call>, k: IpAddr, i: nat, j: nat): nat
    requires i <= j <= |cs| && |ls| == |cs| + 1
  {
    if i == j then 0
    else Grants(ls, cs, k, i, j - 1) + if HostPrefix(cs[j - 1].ip) == k && Granted(ls[j - 1], cs[j - 1]) then 1 else 0
  }

  /** Over any stretch of calls a source is granted at most ten queries and five more per second. */
  lemma {:induction false} GrantsBounded(ls: seq<Limiter>, cs: seq<Call>, start: real, k: IpAddr, i: nat, j: nat)
    requires Run(ls, cs, start) && NeverForced(cs, k) && i < j <= |cs|
    ensures PlainOk(PlainOf(ls, cs, start, k, j), cs[j - 1].now)
    ensures Grants(ls, cs, k, i, j) as real + LevelAt(PlainOf(ls, cs, start, k, j), cs[j - 1].now)
         <= 10.0 + 5.0 * (cs[j - 1].now - cs[i].now)
    ensures Grants(ls, cs, k, i, j) as real <= 10.0 + 5.0 * (cs[j - 1].now - cs[i].now)
  {
    var n := j - 1;
    var now := cs[n].now;
    var p := PlainOf(ls, cs, start, k, n);
    RunConforms(ls, cs, start, k, n);
    RunConforms(ls, cs, start, k, j);
    if HostPrefix(cs[n].ip) == k && Granted(ls[n], cs[n]) {
      GrantsConform(ls, cs, start, k, n);
    }
    assert TimeBefore(cs, start, n) <= now;
    hide Matches, HostPrefix, Granted, Run, LevelAt;
    MatchedOk(Held(ls[n].ips, k), p, TimeBefore(cs, start, n));
    MatchedOk(Held(ls[j].ips, k), PlainOf(ls, cs, start, k, j), now);
    ChargeLevel(p, TimeBefore(cs, start, n), now);
    if i < n {
      GrantsBounded(ls, cs, start, k, i, n);
      LevelLater(p, cs[n - 1].now, now);
    } else {
      assert Grants(ls, cs, k, i, n) == 0;
    }
  }

  lemma MatchedOk(b: Option<Bucket>, p: Plain, now: real)
    requires Matches(b, p, now)
    ensures PlainOk(p, now)
  {
  }

  lemma ChargeLevel(p: Plain, t: real, now: real)
    requires PlainOk(p, t) && t <= now
    ensures LevelAt(Charge(p, now), now) == LevelAt(p, now) - 1.0
    ensures 0.0 <= LevelAt(p, now) <= 10.0
  {
  }

  // ----- who is forgotten -----

  /** A blocked source is forgotten only when no source that is not blocked is left to forget. */
  lemma BlockedGoLast(kept: map<IpAddr, Bucket>, now: real, out: set<IpAddr>, a: IpAddr, b: IpAddr)
    requires Victims(kept, now, out) && a in out && a in kept && Blocked(kept[a], now)
    requires b in kept && b !in out
    ensures Blocked(kept[b], now)
  {
    assert NotAfter(kept[a], kept[b], now);
  }

  lemma {:induction false} First(ips: map<IpAddr, Bucket>, s: set<IpAddr>, now: real) returns (k: IpAddr)
    requires s != {} && s <= ips.Keys
    ensures k in s && forall j | j in s :: NotAfter(ips[k], ips[j], now)
  {
    var x :| x in s;
    var rest := s - {x};
    assert s == rest + {x};
    if rest == {} {
      k := x;
    } else {
      var y := First(ips, rest, now);
      k := if NotAfter(ips[y], ips[x], now) then y else x;
    }
  }

  // ----- reply bytes -----

  datatype Send = Send(bytes: nat, now: real)

  /** The limiter after the first `n` replies asked for. */
  function Sent(l: Limiter, sends: seq<Send>, n: nat): Limiter
    requires n <= |sends|
  {
    if n == 0 then l else TakeReply(Sent(l, sends, n - 1), sends[n - 1].bytes, sends[n - 1].now).1
  }

  /** Bytes granted to the replies from `i` up to `j`. */
  function GrantedBytes(l: Limiter, sends: seq<Send>, i: nat, j: nat): nat
    requires i <= j <= |sends|
  {
    if i == j then 0
    else
      GrantedBytes(l, sends, i, j - 1)
      + if TakeReply(Sent(l, sends, j - 1), sends[j - 1].bytes, sends[j - 1].now).0 then sends[j - 1].bytes else 0
  }

  predicate ReplyOk(l: Limiter, now: real) {
    0.0 <= l.replyTokens <= 32768.0 && l.replyRefilled <= now
  }

  predicate Forward(sends: seq<Send>, start: real) {
    && (forall i | 0 <= i < |sends| :: start <= sends[i].now)
    && (forall i, j | 0 <= i < j < |sends| :: sends[i].now <= sends[j].now)
  }

  /** Over any stretch of time, at most 32 KiB and 32 KiB more per second are sent. */
  lemma {:induction false} ReplyBytesBounded(l: Limiter, sends: seq<Send>, start: real, i: nat, j: nat)
    requires ReplyOk(l, start) && Forward(sends, start) && i < j <= |sends|
    ensures ReplyOk(Sent(l, sends, j), sends[j - 1].now) && Sent(l, sends, j).replyRefilled == sends[j - 1].now
    ensures GrantedBytes(l, sends, i, j) as real + Sent(l, sends, j).replyTokens
         <= 32768.0 * (1.0 + (sends[j - 1].now - sends[i].now))
    ensures GrantedBytes(l, sends, i, j) as real <= 32768.0 * (1.0 + (sends[j - 1].now - sends[i].now))
    decreases j
  {
    var n := j - 1;
    if n == 0 {
    } else {
      ReplyBytesBounded(l, sends, start, if i < n then i else n - 1, n);
    }
    if i == n {
      assert GrantedBytes(l, sends, i, n) == 0;
    }
  }

  predicate GrantedSend(l: Limiter, sends: seq<Send>, k: nat)
    requires k < |sends|
  {
    TakeReply(Sent(l, sends, k), sends[k].bytes, sends[k].now).0
  }

  /** What is left for the reply `n`: full, with what has flowed in since the one before. */
  function Left(l: Limiter, sends: seq<Send>, n: nat): real
    requires n < |sends|
  {
    var s := Sent(l, sends, n);
    MinReal(s.replyTokens + Elapsed(s.replyRefilled, sends[n].now) * 32768.0, 32768.0)
  }

  /** What the replies since the `i`-th leave of 32 KiB and 32 KiB more per second. */
  function Rest(l: Limiter, sends: seq<Send>, i: nat, n: nat): real
    requires i <= n < |sends|
  {
    32768.0 * (1.0 + (sends[n].now - sends[i].now)) - GrantedBytes(l, sends, i, n) as real
  }

  lemma LeftBelow(l: Limiter, sends: seq<Send>, start: real, i: nat, n: nat)
    requires ReplyOk(l, start) && Forward(sends, start) && i <= n < |sends|
    ensures Left(l, sends, n) <= Rest(l, sends, i, n)
  {
    if i < n {
      ReplyBytesBounded(l, sends, start, i, n);
    } else {
      assert GrantedBytes(l, sends, i, n) == 0;
    }
  }

  /** Some stretch of replies leaves no more than what is left. */
  lemma {:induction false} LeftReached(l: Limiter, sends: seq<Send>, start: real, n: nat) returns (i: nat)
    requires l == StartLimiter(start) && Forward(sends, start) && n < |sends|
    ensures i <= n && Left(l, sends, n) == Rest(l, sends, i, n)
  {
    if n == 0 || Left(l, sends, n) == 32768.0 {
      i := n;
      assert GrantedBytes(l, sends, n, n) == 0;
    } else {
      i := LeftReached(l, sends, start, n - 1);
      RestTurn(l, sends, i, n);
      ReplyBytesBounded(l, sends, start, i, n);
    }
  }

  lemma RestTurn(l: Limiter, sends: seq<Send>, i: nat, n: nat)
    requires i < n < |sends|
    ensures GrantedBytes(l, sends, i, n)
         == GrantedBytes(l, sends, i, n - 1) + if GrantedSend(l, sends, n - 1) then sends[n - 1].bytes else 0
    ensures Sent(l, sends, n).replyTokens
         == Left(l, sends, n - 1) - if GrantedSend(l, sends, n - 1) then sends[n - 1].bytes as real else 0.0
  {
  }

  /** The reply `n` and those granted since the `i`-th stay within 32 KiB and 32 KiB more per second. */
  predicate WithinRate(l: Limiter, sends: seq<Send>, i: nat, n: nat)
    requires i <= n < |sends|
  {
    GrantedBytes(l, sends, i, n) as real + sends[n].bytes as real <= 32768.0 * (1.0 + (sends[n].now - sends[i].now))
  }

  lemma RateIsRest(l: Limiter, sends: seq<Send>, i: nat, n: nat)
    requires i <= n < |sends|
    ensures WithinRate(l, sends, i, n) <==> sends[n].bytes as real <= Rest(l, sends, i, n)
  {
    hide GrantedBytes;
  }

  lemma SendIsLeft(l: Limiter, sends: seq<Send>, n: nat)
    requires n < |sends|
    ensures GrantedSend(l, sends, n) <==> sends[n].bytes as real <= Left(l, sends, n)
  {
    hide Sent;
  }

  /** A reply is sent exactly if, with it, no stretch of the replies before it exceeds 32 KiB and 32 KiB
      more per second. */
  lemma ReplyGrantedExactly(sends: seq<Send>, start: real, n: nat)
    requires Forward(sends, start) && n < |sends|
    ensures GrantedSend(StartLimiter(start), sends, n)
       <==> forall i | 0 <= i <= n :: WithinRate(StartLimiter(start), sends, i, n)
  {
    var l := StartLimiter(start);
    var i := LeftReached(l, sends, start, n);
    hide *;
    SendIsLeft(l, sends, n);
    RateIsRest(l, sends, i, n);
    forall k | 0 <= k <= n
      ensures GrantedSend(l, sends, n) ==> WithinRate(l, sends, k, n)
    {
      StartOk(start);
      LeftBelow(l, sends, start, k, n);
      RateIsRest(l, sends, k, n);
    }
  }

  lemma StartOk(start: real)
    ensures ReplyOk(StartLimiter(start), start)
  {
  }

  lemma {:induction false} QuietBound(l: Limiter, sends: seq<Send>, start: real, i: nat, m: nat, now: real)
    requires ReplyOk(l, start) && Forward(sends, start) && i <= m <= |sends| && i < |sends|
    requires forall k | i <= k < m && GrantedSend(l, sends, k) :: sends[k].now + 1.0 <= now
    ensures GrantedBytes(l, sends, i, m) == 0 || GrantedBytes(l, sends, i, m) as real <= 32768.0 * (now - sends[i].now)
    decreases m
  {
    if i == m {
    } else if GrantedSend(l, sends, m - 1) {
      ReplyBytesBounded(l, sends, start, i, m);
    } else {
      QuietBound(l, sends, start, i, m - 1, now);
    }
  }

  /** A reply of at most 32 KiB is sent whenever nothing was sent in the second before. */
  lemma QuietSecondGranted(sends: seq<Send>, start: real, n: nat)
    requires Forward(sends, start) && n < |sends| && sends[n].bytes <= 32768
    requires forall k | 0 <= k < n && GrantedSend(StartLimiter(start), sends, k) :: sends[k].now + 1.0 <= sends[n].now
    ensures GrantedSend(StartLimiter(start), sends, n)
  {
    var l := StartLimiter(start);
    ReplyGrantedExactly(sends, start, n);
    hide GrantedSend, GrantedBytes;
    forall i | 0 <= i <= n
      ensures WithinRate(l, sends, i, n)
    {
      QuietBound(l, sends, start, i, n, sends[n].now);
    }
  }
}
