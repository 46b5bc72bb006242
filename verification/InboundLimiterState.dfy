/** The inbound limiter in place. */
module InboundLimiterState {
  import opened Common
  import opened InboundLimiter

  class QueryLimiter {
    var ips: map<IpAddr, Bucket>
    var replyTokens: real
    var replyRefilled: real

    ghost function Now(): Limiter
      reads this
    {
      Limiter(ips, replyTokens, replyRefilled)
    }

    ghost predicate Valid()
      reads this
    {
      Tracked(Now())
    }

    constructor (now: real)
      ensures Valid() && Now() == StartLimiter(now)
    {
      ips, replyTokens, replyRefilled := map[], REPLY_BYTES_PER_SEC, now;
    }

    /** Whether a query from `ip` is answered; `out` are the sources forgotten against their will. */
    method Admit(ip: IpAddr, now: real) returns (granted: bool, ghost out: set<IpAddr>)
      requires Valid()
      modifies this
      ensures Valid() && Choice(old(Now()), ip, now, out)
      ensures (granted, Now()) == Allow(old(Now()), ip, now, out)
    {
      hide Retained, Victims, HostPrefix;
      var k := HostPrefix(ip);
      out := {};
      if |ips| >= MAX_TRACKED && k !in ips {
        out := MakeRoom(now);
      }
      RoomTracked(old(Now()), ip, now, out);
      var b := if k in ips then ips[k] else Bucket(QUERY_BURST, now, None);
      if b.blocked.Some? {
        if now < b.blocked.value {
          granted := false;
          ips := ips[k := b];
          return;
        }
        b := b.(blocked := None, tokens := QUERY_BURST);
      }
      var elapsed := Elapsed(b.refilled, now);
      b := b.(refilled := now);
      b := b.(tokens := MinReal(b.tokens + elapsed * QUERY_RATE, QUERY_BURST));
      if b.tokens < 1.0 {
        granted := false;
        ips := ips[k := b.(blocked := Some(now + QUERY_BLOCK))];
        return;
      }
      granted := true;
      ips := ips[k := b.(tokens := b.tokens - 1.0)];
    }

    /** Drop the sources that are neither blocked nor recent; if that is not enough, 512 more. */
    method MakeRoom(now: real) returns (ghost out: set<IpAddr>)
      modifies `ips
      ensures Victims(Retained(old(ips), now), now, out)
      ensures ips == Retained(old(ips), now) - out
    {
      ips := map k | k in ips && Fresh(ips[k], now) :: ips[k];
      var kept := ips;
      out := {};
      if |ips| < MAX_TRACKED {
        return;
      }
      var evict := if EVICT < |ips| then EVICT else |ips|;
      var gone: set<IpAddr> := {};
      for i := 0 to evict
        invariant gone <= kept.Keys && |gone| == i && |kept| >= MAX_TRACKED
        invariant forall a, b | a in gone && b in kept && b !in gone :: NotAfter(kept[a], kept[b], now)
      {
        var rest := kept.Keys - gone;
        assert |rest| == |kept.Keys| - |gone|;
        ghost var first := First(kept, rest, now);
        var k :| k in rest && forall j | j in rest :: NotAfter(kept[k], kept[j], now);
        gone := gone + {k};
      }
      out := gone;
      ips := kept - gone;
    }

    method TakeReplyBudget(bytes: nat, now: real) returns (granted: bool)
      modifies `replyTokens, `replyRefilled
      ensures (granted, Now()) == TakeReply(old(Now()), bytes, now)
    {
      var elapsed := Elapsed(replyRefilled, now);
      replyRefilled := now;
      replyTokens := MinReal(replyTokens + elapsed * REPLY_BYTES_PER_SEC, REPLY_BYTES_PER_SEC);
      if replyTokens < bytes as real {
        return false;
      }
      replyTokens := replyTokens - bytes as real;
      granted := true;
    }
  }
}
