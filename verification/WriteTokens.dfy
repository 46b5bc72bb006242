/** Announce tokens: two secrets, the newer one replaced every five minutes. */
module WriteTokens {
  import opened Common

  /** Nanoseconds of the process clock. */
  type Time = nat

  const ROTATION: Time := 300_000_000_000

  /** Secrets are numbered in the order they are drawn; `drawn` is the number of the next one. */
  datatype Tokens = Tokens(current: nat, previous: nat, rotated: Time, drawn: nat)

  /** The shortened hash of a secret and an address; the port takes no part. */
  type Digest = (nat, IpAddr) -> Bytes

  function Started(now: Time): Tokens { Tokens(0, 0, now, 1) }

  function Rotate(s: Tokens, now: Time): Tokens {
    var elapsed := if now < s.rotated then 0 else now - s.rotated;
    if elapsed < ROTATION then s
    else if elapsed >= 2 * ROTATION then Tokens(s.drawn, s.drawn + 1, now, s.drawn + 2)
    else Tokens(s.drawn, s.current, s.rotated + ROTATION, s.drawn + 1)
  }

  predicate Accepts(s: Tokens, digest: Digest, ip: IpAddr, token: Bytes) {
    token == digest(s.current, ip) || token == digest(s.previous, ip)
  }

  /** Every call, whatever it asks, first rotates. */
  function RotateAll(s: Tokens, times: seq<Time>): Tokens {
    if times == [] then s else Rotate(RotateAll(s, times[..|times| - 1]), times[|times| - 1])
  }

  predicate Inv(s: Tokens, now: Time) {
    s.current < s.drawn && s.previous < s.drawn && s.rotated <= now
  }

  predicate InOrder(times: seq<Time>, from: Time, to: Time) {
    && from <= to
    && (forall i | 0 <= i < |times| :: from <= times[i] <= to)
    && (forall i, j | 0 <= i < j < |times| :: times[i] <= times[j])
  }

  lemma RotateKeeps(s: Tokens, now: Time)
    requires Inv(s, now)
    ensures Inv(Rotate(s, now), now) && now < Rotate(s, now).rotated + ROTATION
    ensures s.drawn <= Rotate(s, now).drawn
  {
  }

  /** What has become of the secret `c`, current in the period that began at `r`, by the time `now`. */
  predicate Fate(s: Tokens, c: nat, r: Time, now: Time) {
    && c < s.drawn && s.rotated <= now < s.rotated + ROTATION
    && (now < r + ROTATION ==> s.current == c && s.rotated == r)
    && (r + ROTATION <= now < r + 2 * ROTATION ==> s.previous == c && s.current != c && s.rotated == r + ROTATION)
    && (r + 2 * ROTATION <= now ==> s.current != c && s.previous != c)
  }

  lemma {:induction false} FateAfter(s: Tokens, c: nat, r: Time, t: Time, times: seq<Time>, u: Time)
    requires Fate(s, c, r, t) && Inv(s, t) && InOrder(times, t, u) && r <= t
    ensures Fate(Rotate(RotateAll(s, times), u), c, r, u) && Inv(RotateAll(s, times), u)
    decreases |times|
  {
    if times == [] {
    } else {
      var n := |times| - 1;
      FateAfter(s, c, r, t, times[..n], times[n]);
      RotateKeeps(RotateAll(s, times[..n]), times[n]);
    }
  }

  /** The presented token is the one that this other secret, or this secret for another address, gives. */
  predicate Collides(digest: Digest, secret: nat, asker: IpAddr, c: nat, ip: IpAddr) {
    (secret, asker) != (c, ip) && digest(secret, asker) == digest(c, ip)
  }

  /** A token handed out at `t`, in the rotation period that began at `r`, is accepted at a later `u`,
      whatever calls came in between, exactly from its own address and before `r` plus ten minutes, or
      where the hash gives the same token for another of the two secrets then in use. `r` is at most
      `t` and more than `t` less five minutes, so a token lives over five minutes and at most ten. */
  lemma TokenLifetime(s: Tokens, t: Time, digest: Digest, ip: IpAddr, asker: IpAddr, times: seq<Time>, u: Time)
    requires Inv(s, t) && InOrder(times, t, u)
    ensures var issued := Rotate(s, t);
            var c, r := issued.current, issued.rotated;
            var now := Rotate(RotateAll(issued, times), u);
            && r <= t < r + 300_000_000_000
            && (Accepts(now, digest, asker, digest(c, ip)) <==>
                  || (asker == ip && u < r + 2 * 300_000_000_000)
                  || Collides(digest, now.current, asker, c, ip)
                  || Collides(digest, now.previous, asker, c, ip))
  {
    var issued := Rotate(s, t);
    RotateKeeps(s, t);
    FateAfter(issued, issued.current, issued.rotated, t, times, u);
  }

  /** Until `r` plus ten minutes a token is accepted from its own address, whatever the hash. */
  lemma TokenAccepted(s: Tokens, t: Time, digest: Digest, ip: IpAddr, times: seq<Time>, u: Time)
    requires Inv(s, t) && InOrder(times, t, u) && u < Rotate(s, t).rotated + 2 * 300_000_000_000
    ensures Accepts(Rotate(RotateAll(Rotate(s, t), times), u), digest, ip, digest(Rotate(s, t).current, ip))
  {
    TokenLifetime(s, t, digest, ip, ip, times, u);
  }

  /** From then on the secret it was made with is out of use. */
  lemma TokenExpires(s: Tokens, t: Time, times: seq<Time>, u: Time)
    requires Inv(s, t) && InOrder(times, t, u) && Rotate(s, t).rotated + 2 * 300_000_000_000 <= u
    ensures var issued := Rotate(s, t);
            var now := Rotate(RotateAll(issued, times), u);
            now.current != issued.current && now.previous != issued.current
  {
    var issued := Rotate(s, t);
    RotateKeeps(s, t);
    FateAfter(issued, issued.current, issued.rotated, t, times, u);
  }

  class TokenState {
    const digest: Digest
    var current: nat
    var previous: nat
    var rotated: Time
    /** How many secrets have been drawn. */
    ghost var drawn: nat
    ghost var clock: Time

    ghost function Now(): Tokens
      reads this
    {
      Tokens(current, previous, rotated, drawn)
    }

    ghost predicate Valid()
      reads this
    {
      Inv(Now(), clock)
    }

    constructor (digest: Digest, now: Time)
      ensures Valid() && Now() == Started(now) && clock == now && this.digest == digest
    {
      this.digest, current, previous, rotated, drawn, clock := digest, 0, 0, now, 1, now;
    }

    /** `a` and `b` are two fresh random secrets, of which as many are used as are needed. */
    method RotateIfNeeded(now: Time, a: nat, b: nat)
      requires Valid() && clock <= now && a == drawn && b == drawn + 1
      modifies this
      ensures Valid() && clock == now && Now() == Rotate(old(Now()), now)
    {
      var elapsed := now - rotated;
      clock := now;
      if elapsed < ROTATION {
        return;
      }
      if elapsed >= 2 * ROTATION {
        current, previous, rotated, drawn := a, b, now, drawn + 2;
        return;
      }
      previous := current;
      current := a;
      drawn := drawn + 1;
      rotated := rotated + ROTATION;
    }

    method TokenFor(ip: IpAddr, now: Time, a: nat, b: nat) returns (token: Bytes)
      requires Valid() && clock <= now && a == drawn && b == drawn + 1
      modifies this
      ensures Valid() && clock == now && Now() == Rotate(old(Now()), now)
      ensures token == digest(Now().current, ip)
    {
      RotateIfNeeded(now, a, b);
      token := digest(current, ip);
    }

    method IsValid(ip: IpAddr, token: Bytes, now: Time, a: nat, b: nat) returns (ok: bool)
      requires Valid() && clock <= now && a == drawn && b == drawn + 1
      modifies this
      ensures Valid() && clock == now && Now() == Rotate(old(Now()), now)
      ensures ok <==> Accepts(Now(), digest, ip, token)
    {
      RotateIfNeeded(now, a, b);
      ok := token == digest(current, ip) || token == digest(previous, ip);
    }
  }
}
