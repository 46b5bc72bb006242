/** Small types shared by the models of the BitTorrent engine. */
module Common {

  datatype Option<+T> = None | Some(value: T)

  /** A byte of a buffer, a file or a datagram. */
  type Byte = x: int | 0 <= x < 256

  type Bytes = seq<Byte>

  function Min(a: int, b: int): (r: int) { if a <= b then a else b }

  function Max(a: int, b: int): (r: int) { if a <= b then b else a }

  predicate Distinct<T(==)>(s: seq<T>) { forall i, j | 0 <= i < j < |s| :: s[i] != s[j] }

  /** An address in canonical or IPv4-mapped form, as 32-bit or 128-bit numbers. */
  datatype IpAddr = V4(v4: nat) | V6(v6: nat)

  const V4_COUNT: nat := 0x1_0000_0000
  const V6_COUNT: nat := 0x1_0000_0000_0000_0000_0000_0000_0000_0000
  const MAPPED_BASE: nat := 0xffff_0000_0000

  predicate ValidIp(ip: IpAddr) {
    match ip
    case V4(a) => a < V4_COUNT
    case V6(a) => a < V6_COUNT
  }

  /** `::ffff:a.b.c.d` stands for `a.b.c.d`; every other address stands for itself. */
  function Canonical(ip: IpAddr): (r: IpAddr)
    ensures r.V4? && ip.V6? ==> ip.v6 == 0xffff_0000_0000 + r.v4 && r.v4 < 0x1_0000_0000
    ensures r.V6? ==> r == ip && !(0xffff_0000_0000 <= r.v6 < 0x1_0000_0000_0000)
    ensures ip.V4? ==> r == ip
    ensures ValidIp(ip) ==> ValidIp(r)
  {
    match ip
    case V4(_) => ip
    case V6(a) => if MAPPED_BASE <= a < MAPPED_BASE + V4_COUNT then V4(a - MAPPED_BASE) else ip
  }

  const HOST_SPAN: nat := 0x1_0000_0000_0000_0000

  /** One host: the whole IPv4 address, or the first 64 bits of an IPv6 address. */
  function HostPrefix(ip: IpAddr): IpAddr {
    match ip
    case V4(_) => ip
    case V6(a) => V6(a - a % HOST_SPAN)
  }

  // ----- bits of an address -----

  function Pow2(n: nat): (p: nat)
    ensures p > 0
  {
    if n == 0 then 1 else 2 * Pow2(n - 1)
  }

  /** Bit `i` of a number, counted from the least significant. */
  predicate Bit(a: nat, i: nat) { a / Pow2(i) % 2 == 1 }

  /** Two `width`-bit numbers agree in their first `bits` bits. */
  predicate SameBits(a: nat, b: nat, bits: nat, width: nat) {
    forall i: nat | width - bits <= i < width :: Bit(a, i) == Bit(b, i)
  }

  /** Agreeing in the first bits is having the same quotient by what the remaining bits count. */
  lemma {:induction false} SameBitsExactly(a: nat, b: nat, bits: nat, width: nat)
    requires bits <= width && a < Pow2(width) && b < Pow2(width)
    ensures SameBits(a, b, bits, width) <==> a / Pow2(width - bits) == b / Pow2(width - bits)
  {
    if bits == 0 {
      Small(a, Pow2(width));
      Small(b, Pow2(width));
    } else {
      var low := width - bits;
      SameBitsExactly(a, b, bits - 1, width);
      Halved(a, low);
      Halved(b, low);
      assert SameBits(a, b, bits, width) <==> Bit(a, low) == Bit(b, low) && SameBits(a, b, bits - 1, width);
    }
  }

  lemma Small(a: nat, p: nat)
    requires a < p
    ensures a / p == 0
  {
  }

  lemma Halved(a: nat, i: nat)
    ensures a / Pow2(i) == 2 * (a / Pow2(i + 1)) + if Bit(a, i) then 1 else 0
  {
    QuotientOfQuotient(a, Pow2(i));
  }

  lemma QuotientOfQuotient(a: nat, p: nat)
    requires p > 0
    ensures a / p / 2 == a / (2 * p)
  {
    var q, r := a / p, a % p;
    assert a == p * q + r;
    var h := q / 2;
    assert q == 2 * h + q % 2;
    Distributes(p, h, q % 2);
    QuotientIs(a, 2 * p, h, p * (q % 2) + r);
  }

  lemma Distributes(p: nat, h: nat, b: nat)
    ensures p * (2 * h + b) == 2 * p * h + p * b
  {
  }

  lemma QuotientIs(a: nat, d: nat, q: nat, r: nat)
    requires a == d * q + r && r < d
    ensures a / d == q
  {
    var x := a / d;
    assert a == d * x + a % d;
    if x < q {
      Product(d, x + 1, q);
    } else if q < x {
      Product(d, q + 1, x);
    }
  }

  lemma Product(d: nat, x: nat, y: nat)
    requires x <= y
    ensures d * x <= d * y
  {
  }

  /** Two addresses share a host exactly when they are the same IPv4 address, or IPv6 addresses whose
      first 64 bits agree. */
  lemma SameHostExactly(a: IpAddr, b: IpAddr)
    requires ValidIp(a) && ValidIp(b)
    ensures HostPrefix(a) == HostPrefix(b)
      <==> a == b || (a.V6? && b.V6? && SameBits(a.v6, b.v6, 64, 128))
  {
    Powers();
    if a.V6? && b.V6? {
      SameBitsExactly(a.v6, b.v6, 64, 128);
      WithoutRest(a.v6, HOST_SPAN);
      WithoutRest(b.v6, HOST_SPAN);
    }
  }

  lemma WithoutRest(a: nat, span: nat)
    requires span > 0
    ensures a - a % span == span * (a / span)
  {
  }

  lemma Powers()
    ensures Pow2(8) == 0x100 && Pow2(32) == 0x1_0000_0000 && Pow2(64) == 0x1_0000_0000_0000_0000
    ensures Pow2(80) == 0x1_0000_0000_0000_0000_0000 && Pow2(128) == 0x1_0000_0000_0000_0000_0000_0000_0000_0000
  {
    Eight();
    hide Pow2;
    PowSum(8, 8);
    PowSum(16, 16);
    PowSum(32, 32);
    PowSum(64, 16);
    PowSum(64, 64);
  }

  lemma Eight()
    ensures Pow2(8) == 0x100
  {
  }

  lemma {:induction false} PowSum(a: nat, b: nat)
    ensures Pow2(a + b) == Pow2(a) * Pow2(b)
  {
    if b == 0 {
    } else {
      PowSum(a, b - 1);
    }
  }
}
