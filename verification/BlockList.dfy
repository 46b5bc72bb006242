/** Blocked addresses: exact rules, prefixes merged into sorted ranges and searched by halving, and bans. */
module BlockList {
  import opened Common

  const MAX_BANNED: nat := 4096
  const U32_COUNT: nat := 0x1_0000_0000

  /** A line of the list once its text is read; lines that are no address are `Unreadable`. */
  datatype Rule = Exact(ip: IpAddr) | Cidr(ip: IpAddr, bits: nat) | Unreadable

  /** A network and the number of addresses in it, which is what its mask leaves free. */
  datatype Prefix = Prefix4(network: nat, span: nat) | Prefix6(network: nat, span: nat)

  datatype Range = Range(start: nat, end: nat)

  datatype Prepared = Prepared(exact: set<IpAddr>, prefixes: seq<Prefix>, v4: seq<Range>, v6: seq<Range>)

  // ----- what a list means, rule by rule -----

  /** The first `bits` bits of two `width`-bit addresses agree (section 3.1 of RFC 4632). */
  predicate SamePrefix(a: nat, b: nat, bits: nat, width: nat)
    requires bits <= width
  {
    a / Pow2(width - bits) == b / Pow2(width - bits)
  }

  /** An IPv4 prefix covers an address in either form; an IPv6 prefix covers only the IPv6 form. */
  predicate RuleCovers(r: Rule, ip: IpAddr) {
    match r
    case Exact(e) => Canonical(e) == Canonical(ip)
    case Cidr(V4(n), bits) => bits <= 32 && Canonical(ip).V4? && SamePrefix(n, Canonical(ip).v4, bits, 32)
    case Cidr(V6(n), bits) => bits <= 128 && ip.V6? && SamePrefix(n, ip.v6, bits, 128)
    case Unreadable => false
  }

  /** A prefix rule covers the addresses of its own kind whose first bits are those of the rule. */
  lemma CidrExactly(n: IpAddr, bits: nat, ip: IpAddr)
    requires ValidIp(n) && ValidIp(ip)
    ensures n.V4? ==>
      (RuleCovers(Cidr(n, bits), ip) <==>
         bits <= 32 && Canonical(ip).V4? && SameBits(n.v4, Canonical(ip).v4, bits, 32))
    ensures n.V6? ==>
      (RuleCovers(Cidr(n, bits), ip) <==> bits <= 128 && ip.V6? && SameBits(n.v6, ip.v6, bits, 128))
  {
    Powers();
    if n.V4? && bits <= 32 && Canonical(ip).V4? {
      SameBitsExactly(n.v4, Canonical(ip).v4, bits, 32);
    }
    if n.V6? && bits <= 128 && ip.V6? {
      SameBitsExactly(n.v6, ip.v6, bits, 128);
    }
  }

  predicate Listed(rules: seq<Rule>, ip: IpAddr) { exists i :: 0 <= i < |rules| && RuleCovers(rules[i], ip) }

  // ----- prefixes -----

  /** `addr & mask`: the address with its free bits cleared. */
  function Network(a: nat, span: nat): nat
    requires span > 0
  {
    NonNegative(a / span, span);
    a / span * span
  }

  lemma NonNegative(q: nat, span: nat)
    ensures q * span >= 0
  {
  }

  function ParsePrefix(ip: IpAddr, bits: nat): Option<Prefix> {
    match ip
    case V4(a) => if bits > 32 then None else Some(Prefix4(Network(a, Pow2(32 - bits)), Pow2(32 - bits)))
    case V6(a) => if bits > 128 then None else Some(Prefix6(Network(a, Pow2(128 - bits)), Pow2(128 - bits)))
  }

  /** From the network to `network | !mask`. */
  function RangeOf(p: Prefix): Range { Range(p.network, if p.span == 0 then p.network else p.network + p.span - 1) }

  predicate InRange(r: Range, v: nat) { r.start <= v <= r.end }

  lemma PrefixRange(a: nat, v: nat, span: nat)
    requires span > 0
    ensures Network(a, span) <= v <= Network(a, span) + span - 1 <==> a / span == v / span
  {
    var q, u := a / span, v / span;
    assert v == u * span + v % span;
    if q < u {
      TimesAbove(q, u, span);
    } else if u < q {
      TimesAbove(u, q, span);
    }
  }

  lemma {:induction false} TimesAbove(q: nat, u: nat, span: nat)
    requires q < u
    ensures q * span + span <= u * span
  {
    assert u * span == (u - 1) * span + span;
    if q < u - 1 {
      TimesAbove(q, u - 1, span);
    }
  }

  // ----- merging -----

  predicate Before(a: Range, b: Range) { a.start < b.start || (a.start == b.start && a.end <= b.end) }

  function InsertRange(s: seq<Range>, r: Range): seq<Range> {
    if s == [] || Before(r, s[0]) then [r] + s else [s[0]] + InsertRange(s[1..], r)
  }

  function SortRanges(s: seq<Range>): seq<Range> {
    if s == [] then [] else InsertRange(SortRanges(s[..|s| - 1]), s[|s| - 1])
  }

  predicate InOrder(s: seq<Range>) { forall i, j | 0 <= i < j < |s| :: s[i].start <= s[j].start }

  predicate Sane(s: seq<Range>) { forall i | 0 <= i < |s| :: s[i].start <= s[i].end }

  predicate Covers(s: seq<Range>, v: nat) { exists i :: 0 <= i < |s| && InRange(s[i], v) }

  function MergeInto(out: seq<Range>, r: Range): seq<Range> {
    if out != [] && r.start <= out[|out| - 1].end then
      out[|out| - 1 := Range(out[|out| - 1].start, Max(out[|out| - 1].end, r.end))]
    else out + [r]
  }

  function MergeSorted(s: seq<Range>): seq<Range> {
    if s == [] then [] else MergeInto(MergeSorted(s[..|s| - 1]), s[|s| - 1])
  }

  function Merge(s: seq<Range>): seq<Range> { MergeSorted(SortRanges(s)) }

  /** Ranges in ascending order with gaps between them. */
  predicate Separate(s: seq<Range>) {
    Sane(s) && forall i, j | 0 <= i < j < |s| :: s[i].end < s[j].start
  }

  lemma {:induction false} InsertMembers(s: seq<Range>, r: Range)
    ensures multiset(InsertRange(s, r)) == multiset(s) + multiset{r}
  {
    if s != [] && !Before(r, s[0]) {
      InsertMembers(s[1..], r);
      assert s == [s[0]] + s[1..];
    }
  }

  lemma {:induction false} InsertKeeps(s: seq<Range>, r: Range)
    requires InOrder(s)
    ensures InOrder(InsertRange(s, r))
  {
    if s != [] && !Before(r, s[0]) {
      InsertKeeps(s[1..], r);
      InsertMembers(s[1..], r);
      var t := InsertRange(s[1..], r);
      forall i | 0 <= i < |t|
        ensures s[0].start <= t[i].start
      {
        assert t[i] in multiset(t);
        assert t[i] == r || t[i] in s[1..];
      }
    }
  }

  lemma {:induction false} SortKeeps(s: seq<Range>)
    ensures InOrder(SortRanges(s)) && multiset(SortRanges(s)) == multiset(s)
  {
    if s == [] {
    } else {
      SortKeeps(s[..|s| - 1]);
      InsertKeeps(SortRanges(s[..|s| - 1]), s[|s| - 1]);
      InsertMembers(SortRanges(s[..|s| - 1]), s[|s| - 1]);
      assert s == s[..|s| - 1] + [s[|s| - 1]];
    }
  }

  lemma SameMembers(s: seq<Range>, t: seq<Range>)
    requires multiset(s) == multiset(t)
    ensures forall v :: Covers(s, v) <==> Covers(t, v)
    ensures Sane(s) <==> Sane(t)
  {
    assert forall r :: r in s <==> r in multiset(s);
    assert forall r :: r in t <==> r in multiset(t);
    forall v
      ensures Covers(s, v) <==> Covers(t, v)
    {
      if Covers(s, v) {
        var i :| 0 <= i < |s| && InRange(s[i], v);
        assert s[i] in t;
      }
      if Covers(t, v) {
        var i :| 0 <= i < |t| && InRange(t[i], v);
        assert t[i] in s;
      }
    }
    if Sane(s) {
      forall i | 0 <= i < |t| ensures t[i].start <= t[i].end { assert t[i] in s; }
    }
    if Sane(t) {
      forall i | 0 <= i < |s| ensures s[i].start <= s[i].end { assert s[i] in t; }
    }
  }

  lemma {:induction false} MergeSortedCovers(s: seq<Range>)
    requires InOrder(s) && Sane(s)
    ensures Separate(MergeSorted(s))
    ensures |MergeSorted(s)| > 0 <==> |s| > 0
    ensures s != [] ==> MergeSorted(s)[|MergeSorted(s)| - 1].start <= s[|s| - 1].start
    ensures forall v :: Covers(MergeSorted(s), v) <==> Covers(s, v)
  {
    if s == [] {
    } else {
      var front, r := s[..|s| - 1], s[|s| - 1];
      MergeSortedCovers(front);
      assert s == front + [r];
      forall v
        ensures Covers(s, v) <==> Covers(front, v) || InRange(r, v)
      {
        CoversSnoc(front, r, v);
      }
      var out := MergeSorted(front);
      hide MergeSorted, Covers;
      if out != [] {
        assert front[|front| - 1].start <= r.start;
      }
      MergeIntoCovers(out, r);
      MergeUnfold(s);
    }
  }

  lemma MergeUnfold(s: seq<Range>)
    requires s != []
    ensures MergeSorted(s) == MergeInto(MergeSorted(s[..|s| - 1]), s[|s| - 1])
  {
  }

  lemma CoversSnoc(s: seq<Range>, r: Range, v: nat)
    ensures Covers(s + [r], v) <==> Covers(s, v) || InRange(r, v)
  {
    if Covers(s, v) {
      var i :| 0 <= i < |s| && InRange(s[i], v);
      assert (s + [r])[i] == s[i];
    }
    if InRange(r, v) {
      assert (s + [r])[|s|] == r;
    }
  }

  lemma MergeIntoCovers(out: seq<Range>, r: Range)
    requires Separate(out) && r.start <= r.end
    requires out != [] ==> out[|out| - 1].start <= r.start
    ensures Separate(MergeInto(out, r)) && MergeInto(out, r) != []
    ensures MergeInto(out, r)[|MergeInto(out, r)| - 1].start <= r.start
    ensures forall v :: Covers(MergeInto(out, r), v) <==> Covers(out, v) || InRange(r, v)
  {
    forall v
      ensures Covers(MergeInto(out, r), v) <==> Covers(out, v) || InRange(r, v)
    {
      MergeIntoAt(out, r, v);
    }
    hide Covers, InRange;
  }

  lemma MergeIntoAt(out: seq<Range>, r: Range, v: nat)
    requires Separate(out) && r.start <= r.end
    requires out != [] ==> out[|out| - 1].start <= r.start
    ensures Covers(MergeInto(out, r), v) <==> Covers(out, v) || InRange(r, v)
  {
    hide Covers;
    if out != [] && r.start <= out[|out| - 1].end {
      var front, last := out[..|out| - 1], out[|out| - 1];
      var grown := Range(last.start, Max(last.end, r.end));
      assert out == front + [last] && MergeInto(out, r) == front + [grown];
      CoversSnoc(front, last, v);
      CoversSnoc(front, grown, v);
    } else {
      CoversSnoc(out, r, v);
    }
  }

  /** Sorting and merging covers the same values and leaves ranges with gaps between them. */
  lemma MergeCovers(s: seq<Range>)
    requires Sane(s)
    ensures Separate(Merge(s))
    ensures forall v :: Covers(Merge(s), v) <==> Covers(s, v)
  {
    SortKeeps(s);
    SameMembers(s, SortRanges(s));
    MergeSortedCovers(SortRanges(s));
  }

  method MergeRanges(ranges: seq<Range>) returns (out: seq<Range>)
    ensures out == Merge(ranges)
  {
    var sorted := SortRanges(ranges);
    out := [];
    for i := 0 to |sorted|
      invariant out == MergeSorted(sorted[..i])
    {
      assert sorted[..i + 1][..i] == sorted[..i];
      var r := sorted[i];
      if out != [] && r.start <= out[|out| - 1].end {
        out := out[|out| - 1 := Range(out[|out| - 1].start, Max(out[|out| - 1].end, r.end))];
      } else {
        out := out + [r];
      }
    }
    assert sorted[..|sorted|] == sorted;
  }

  /** How many ranges start at or below the value, found by halving. */
  method PartitionPoint(ranges: seq<Range>, value: nat) returns (idx: nat)
    requires Separate(ranges)
    ensures idx <= |ranges|
    ensures forall i | 0 <= i < idx :: ranges[i].start <= value
    ensures forall i | idx <= i < |ranges| :: value < ranges[i].start
  {
    idx := 0;
    var high := |ranges|;
    while idx < high
      invariant idx <= high <= |ranges|
      invariant forall i | 0 <= i < idx :: ranges[i].start <= value
      invariant forall i | high <= i < |ranges| :: value < ranges[i].start
    {
      var mid := (idx + high) / 2;
      if ranges[mid].start <= value {
        assert forall i | 0 <= i < mid :: ranges[i].end < ranges[mid].start;
        idx := mid + 1;
      } else {
        assert forall i | mid < i < |ranges| :: ranges[mid].end < ranges[i].start;
        high := mid;
      }
    }
  }

  method RangeContains(ranges: seq<Range>, value: nat) returns (b: bool)
    requires Separate(ranges)
    ensures b <==> Covers(ranges, value)
  {
    var idx := PartitionPoint(ranges, value);
    b := idx > 0 && value <= ranges[idx - 1].end;
    if b {
      assert InRange(ranges[idx - 1], value);
    }
    if idx > 0 {
      var last := ranges[idx - 1];
      assert forall i | 0 <= i < idx - 1 :: ranges[i].end < last.start;
    }
    assert forall i | 0 <= i < |ranges| && InRange(ranges[i], value) :: i == idx - 1;
  }

  // ----- preparing a list -----

  function RangesFor(ps: seq<Prefix>, six: bool): seq<Range> {
    if ps == [] then []
    else
      var p := ps[|ps| - 1];
      RangesFor(ps[..|ps| - 1], six) + if p.Prefix6? == six then [RangeOf(p)] else []
  }

  function PrefixesOf(rules: seq<Rule>): seq<Prefix> {
    if rules == [] then []
    else
      var r := rules[|rules| - 1];
      var p := if r.Cidr? then ParsePrefix(r.ip, r.bits) else None;
      PrefixesOf(rules[..|rules| - 1]) + if p.Some? then [p.value] else []
  }

  function ExactOf(rules: seq<Rule>): set<IpAddr> {
    set i | 0 <= i < |rules| && rules[i].Exact? :: Canonical(rules[i].ip)
  }

  function Prepare(rules: seq<Rule>): Prepared {
    var ps := PrefixesOf(rules);
    Prepared(ExactOf(rules), ps, Merge(RangesFor(ps, false)), Merge(RangesFor(ps, true)))
  }

  method ParseRules(rules: seq<Rule>) returns (p: Prepared)
    ensures p == Prepare(rules)
  {
    var exact: set<IpAddr> := {};
    var prefixes: seq<Prefix> := [];
    for i := 0 to |rules|
      invariant exact == ExactOf(rules[..i]) && prefixes == PrefixesOf(rules[..i])
    {
      assert rules[..i + 1][..i] == rules[..i];
      ExactSnoc(rules, i);
      match rules[i]
      case Exact(ip) => exact := exact + {Canonical(ip)};
      case Cidr(ip, bits) =>
        var q := ParsePrefix(ip, bits);
        if q.Some? {
          prefixes := prefixes + [q.value];
        }
      case Unreadable =>
    }
    assert rules[..|rules|] == rules;
    var four: seq<Range> := [];
    var six: seq<Range> := [];
    for i := 0 to |prefixes|
      invariant four == RangesFor(prefixes[..i], false) && six == RangesFor(prefixes[..i], true)
    {
      assert prefixes[..i + 1][..i] == prefixes[..i];
      if prefixes[i].Prefix4? {
        four := four + [RangeOf(prefixes[i])];
      } else {
        six := six + [RangeOf(prefixes[i])];
      }
    }
    assert prefixes[..|prefixes|] == prefixes;
    var v4 := MergeRanges(four);
    var v6 := MergeRanges(six);
    p := Prepared(exact, prefixes, v4, v6);
  }

  lemma ExactSnoc(rules: seq<Rule>, i: nat)
    requires i < |rules|
    ensures ExactOf(rules[..i + 1])
         == ExactOf(rules[..i]) + if rules[i].Exact? then {Canonical(rules[i].ip)} else {}
  {
    var a, b := rules[..i], rules[..i + 1];
    forall x | x in ExactOf(b)
      ensures x in ExactOf(a) + if rules[i].Exact? then {Canonical(rules[i].ip)} else {}
    {
      var k :| 0 <= k < |b| && b[k].Exact? && Canonical(b[k].ip) == x;
      if k < i {
        assert a[k] == b[k];
      }
    }
    forall x | x in ExactOf(a)
      ensures x in ExactOf(b)
    {
      var k :| 0 <= k < |a| && a[k].Exact? && Canonical(a[k].ip) == x;
      assert b[k] == a[k];
    }
    if rules[i].Exact? {
      assert b[i] == rules[i];
    }
  }

  /** The prepared ranges cover an address exactly when some prefix rule does. */
  predicate PrefixCovered(rules: seq<Rule>, v: nat, six: bool) {
    exists i :: 0 <= i < |rules| && CidrHolds(rules[i], v, six)
  }

  predicate CidrHolds(r: Rule, v: nat, six: bool) {
    && r.Cidr? && r.ip.V6? == six
    && (if six then r.bits <= 128 && SamePrefix(r.ip.v6, v, r.bits, 128)
        else r.bits <= 32 && SamePrefix(r.ip.v4, v, r.bits, 32))
  }

  lemma {:induction false} RangesCover(rules: seq<Rule>, v: nat, six: bool)
    ensures Sane(RangesFor(PrefixesOf(rules), six))
    ensures Covers(RangesFor(PrefixesOf(rules), six), v) <==> PrefixCovered(rules, v, six)
  {
    if rules == [] {
    } else {
      var front, r := rules[..|rules| - 1], rules[|rules| - 1];
      assert rules == front + [r];
      RangesCover(front, v, six);
      hide *;
      PrefixCoveredSnoc(front, r, v);
      RangesSnoc(front, r, six);
      RuleRangeIs(r, v, six);
      CoversAppend(RangesFor(PrefixesOf(front), six), RuleRange(r, six), v);
    }
  }

  function RuleRange(r: Rule, six: bool): seq<Range> {
    var p := if r.Cidr? then ParsePrefix(r.ip, r.bits) else None;
    if p.Some? && p.value.Prefix6? == six then [RangeOf(p.value)] else []
  }

  lemma CoversAppend(s: seq<Range>, t: seq<Range>, v: nat)
    ensures Covers(s + t, v) <==> Covers(s, v) || Covers(t, v)
    ensures Sane(s) && Sane(t) ==> Sane(s + t)
  {
    if Covers(s, v) {
      var i :| 0 <= i < |s| && InRange(s[i], v);
      assert (s + t)[i] == s[i];
    }
    if Covers(t, v) {
      var i :| 0 <= i < |t| && InRange(t[i], v);
      assert (s + t)[|s| + i] == t[i];
    }
  }

  lemma RangesSnoc(rules: seq<Rule>, r: Rule, six: bool)
    ensures RangesFor(PrefixesOf(rules + [r]), six) == RangesFor(PrefixesOf(rules), six) + RuleRange(r, six)
  {
    var p := if r.Cidr? then ParsePrefix(r.ip, r.bits) else None;
    var ps := PrefixesOf(rules);
    assert (rules + [r])[..|rules|] == rules;
    hide ParsePrefix;
    if p.Some? {
      assert PrefixesOf(rules + [r]) == ps + [p.value] && (ps + [p.value])[..|ps|] == ps;
    } else {
      assert PrefixesOf(rules + [r]) == ps;
    }
  }

  lemma RuleRangeIs(r: Rule, v: nat, six: bool)
    ensures Sane(RuleRange(r, six))
    ensures Covers(RuleRange(r, six), v) <==> CidrHolds(r, v, six)
  {
    if r.Cidr? && ParsePrefix(r.ip, r.bits).Some? {
      OneRange(r, v);
      hide CidrHolds, ParsePrefix, RangeOf;
      if r.ip.V6? == six {
        assert RuleRange(r, six)[0] == RangeOf(ParsePrefix(r.ip, r.bits).value);
      }
    }
  }

  lemma PrefixCoveredSnoc(rules: seq<Rule>, r: Rule, v: nat)
    ensures forall six :: PrefixCovered(rules + [r], v, six) <==> PrefixCovered(rules, v, six) || CidrHolds(r, v, six)
  {
    hide CidrHolds;
    forall six
      ensures PrefixCovered(rules + [r], v, six) <==> PrefixCovered(rules, v, six) || CidrHolds(r, v, six)
    {
      if PrefixCovered(rules, v, six) {
        var i :| 0 <= i < |rules| && CidrHolds(rules[i], v, six);
        assert (rules + [r])[i] == rules[i];
      }
      if CidrHolds(r, v, six) {
        assert (rules + [r])[|rules|] == r;
      }
    }
  }

  lemma OneRange(r: Rule, v: nat)
    requires r.Cidr? && ParsePrefix(r.ip, r.bits).Some?
    ensures var p := ParsePrefix(r.ip, r.bits).value;
      && p.Prefix4? == r.ip.V4? && RangeOf(p).start <= RangeOf(p).end
      && (InRange(RangeOf(p), v) <==> CidrHolds(r, v, r.ip.V6?))
      && !CidrHolds(r, v, !r.ip.V6?)
  {
    match r.ip
    case V4(a) => PrefixRange(a, v, Pow2(32 - r.bits));
    case V6(a) => PrefixRange(a, v, Pow2(128 - r.bits));
  }

  // ----- looking an address up -----

  /** The look-up as it is made, on the prepared form. */
  ghost predicate LooksUp(p: Prepared, ip: IpAddr) {
    || Canonical(ip) in p.exact
    || (match ip
        case V4(a) => Covers(p.v4, a)
        case V6(a) => (Canonical(ip).V4? && Covers(p.v4, Canonical(ip).v4)) || Covers(p.v6, a))
  }

  /** Looking up the prepared form finds exactly what scanning the rules one by one finds. */
  lemma LooksUpExactly(rules: seq<Rule>, ip: IpAddr)
    ensures LooksUp(Prepare(rules), ip) <==> Listed(rules, ip)
    ensures Separate(Prepare(rules).v4) && Separate(Prepare(rules).v6)
  {
    var p := Prepare(rules);
    var v4 := if Canonical(ip).V4? then Canonical(ip).v4 else 0;
    var v6 := if ip.V6? then ip.v6 else 0;
    RangesCover(rules, v4, false);
    RangesCover(rules, v6, true);
    MergeCovers(RangesFor(PrefixesOf(rules), false));
    MergeCovers(RangesFor(PrefixesOf(rules), true));
    assert Covers(p.v4, v4) <==> PrefixCovered(rules, v4, false);
    assert Covers(p.v6, v6) <==> PrefixCovered(rules, v6, true);
    ByKind(rules, ip, v4, v6);
  }

  lemma ByKind(rules: seq<Rule>, ip: IpAddr, v4: nat, v6: nat)
    requires Canonical(ip).V4? ==> v4 == Canonical(ip).v4
    requires ip.V6? ==> v6 == ip.v6
    ensures Listed(rules, ip) <==>
            || Canonical(ip) in ExactOf(rules)
            || (Canonical(ip).V4? && PrefixCovered(rules, v4, false))
            || (ip.V6? && PrefixCovered(rules, v6, true))
  {
    hide SamePrefix, Canonical;
    if Listed(rules, ip) {
      var i :| 0 <= i < |rules| && RuleCovers(rules[i], ip);
      assert rules[i].Cidr? ==> CidrHolds(rules[i], if rules[i].ip.V6? then v6 else v4, rules[i].ip.V6?);
    }
    if Canonical(ip) in ExactOf(rules) {
      var i :| 0 <= i < |rules| && rules[i].Exact? && Canonical(rules[i].ip) == Canonical(ip);
      assert RuleCovers(rules[i], ip);
    }
    if Canonical(ip).V4? && PrefixCovered(rules, v4, false) {
      var i :| 0 <= i < |rules| && CidrHolds(rules[i], v4, false);
      assert RuleCovers(rules[i], ip);
    }
    if ip.V6? && PrefixCovered(rules, v6, true) {
      var i :| 0 <= i < |rules| && CidrHolds(rules[i], v6, true);
      assert RuleCovers(rules[i], ip);
    }
  }

  // ----- bans -----

  /** Banned addresses in the order they were banned, after one more. */
  function BanStep(order: seq<IpAddr>, ip: IpAddr): seq<IpAddr> {
    if Canonical(ip) in order then order
    else
      var grown := order + [Canonical(ip)];
      if |grown| > MAX_BANNED then grown[1..] else grown
  }

  function BanAll(order: seq<IpAddr>, ips: seq<IpAddr>): seq<IpAddr>
    decreases |ips|
  {
    if ips == [] then order else BanAll(BanStep(order, ips[0]), ips[1..])
  }

  /** A ban outlasts any calls that, with the bans behind it, number fewer than 4096. */
  lemma {:induction false} BanLasts(order: seq<IpAddr>, k: nat, later: seq<IpAddr>)
    requires |order| <= 4096 && k < |order| && |order| - 1 - k + |later| < 4096
    ensures order[k] in BanAll(order, later)
    decreases |later|
  {
    if later == [] {
    } else {
      var next := BanStep(order, later[0]);
      var at := if Canonical(later[0]) !in order && |order| == MAX_BANNED then k - 1 else k;
      assert next[at] == order[k];
      BanLasts(next, at, later[1..]);
    }
  }

  /** The addresses that calls to ban `ips` add, because they are not banned at that moment. */
  function Added(order: seq<IpAddr>, ips: seq<IpAddr>): set<IpAddr>
    decreases |ips|
  {
    if ips == [] then {}
    else
      (if Canonical(ips[0]) in order then {} else {Canonical(ips[0])}) + Added(BanStep(order, ips[0]), ips[1..])
  }

  function Members<T>(s: seq<T>): set<T> { set x | x in s }

  /** The addresses banned after the one at `k`. */
  function Behind(order: seq<IpAddr>, k: nat): set<IpAddr>
    requires k < |order|
  {
    Members(order[k + 1..])
  }

  predicate Renews(ips: seq<IpAddr>, x: IpAddr) { exists i :: 0 <= i < |ips| && Canonical(ips[i]) == x }

  /** A ban that is not renewed stands exactly as long as fewer than 4096 other addresses have been
      banned after it, however often the calls repeat themselves. */
  lemma {:induction false} BanLastsExactly(order: seq<IpAddr>, k: nat, later: seq<IpAddr>)
    requires Distinct(order) && |order| <= 4096 && k < |order| && !Renews(later, order[k])
    ensures order[k] in BanAll(order, later) <==> |Behind(order, k) + Added(order, later)| < 4096
    decreases |later|
  {
    BehindCount(order, k);
    if later == [] {
      assert Behind(order, k) + Added(order, later) == Behind(order, k);
    } else {
      var c, next, rest := Canonical(later[0]), BanStep(order, later[0]), later[1..];
      RenewsTail(later, order[k]);
      CallTurn(order, later);
      hide *;
      if c in order {
        KnownTurn(order, later[0]);
        BanLastsExactly(order, k, rest);
      } else if |order| == MAX_BANNED && k == 0 {
        LastTurn(order, later[0]);
        AtLeast(Behind(order, k) + {c}, Added(next, rest));
        StaysOut(next, order[k], rest);
      } else {
        var at := BanTurn(order, k, later[0]);
        BanLastsExactly(next, at, rest);
        AtLeast(Behind(order, k) + {c}, Added(next, rest));
      }
      Regroup(Behind(order, k), {c}, Added(next, rest));
    }
  }

  lemma CallTurn(order: seq<IpAddr>, later: seq<IpAddr>)
    requires later != []
    ensures var c, next := Canonical(later[0]), BanStep(order, later[0]);
            && BanAll(order, later) == BanAll(next, later[1..])
            && (c in order ==> Added(order, later) == Added(next, later[1..]))
            && (c !in order ==> Added(order, later) == {c} + Added(next, later[1..]))
  {
    hide Canonical, BanStep;
  }

  lemma Regroup<T>(a: set<T>, b: set<T>, c: set<T>)
    ensures a + b + c == a + (b + c)
  {
  }

  lemma KnownTurn(order: seq<IpAddr>, ip: IpAddr)
    requires Canonical(ip) in order
    ensures BanStep(order, ip) == order
  {
  }

  lemma BanTurn(order: seq<IpAddr>, k: nat, ip: IpAddr) returns (at: nat)
    requires Distinct(order) && |order| <= MAX_BANNED && k < |order| && Canonical(ip) !in order
    requires |order| < MAX_BANNED || k > 0
    ensures var next := BanStep(order, ip);
            && Distinct(next) && at < |next| <= MAX_BANNED && next[at] == order[k]
            && Behind(next, at) == Behind(order, k) + {Canonical(ip)}
  {
    at := if |order| == MAX_BANNED then k - 1 else k;
    assert BanStep(order, ip)[at + 1..] == order[k + 1..] + [Canonical(ip)];
  }

  /** The ban that makes the 4096th after the oldest one. */
  lemma LastTurn(order: seq<IpAddr>, ip: IpAddr)
    requires Distinct(order) && |order| == MAX_BANNED && Canonical(ip) !in order
    ensures |Behind(order, 0) + {Canonical(ip)}| == MAX_BANNED
    ensures order[0] !in BanStep(order, ip)
  {
    BehindCount(order, 0);
    assert Canonical(ip) !in Behind(order, 0);
  }

  lemma BehindCount(order: seq<IpAddr>, k: nat)
    requires Distinct(order) && k < |order|
    ensures |Behind(order, k)| == |order| - 1 - k
  {
    BansCount(Behind(order, k), order[k + 1..]);
  }

  lemma AtLeast<T>(a: set<T>, b: set<T>)
    ensures |a| <= |a + b|
  {
    assert a + b == a + (b - a);
  }

  lemma RenewsTail(ips: seq<IpAddr>, x: IpAddr)
    requires ips != []
    ensures Renews(ips, x) <==> Canonical(ips[0]) == x || Renews(ips[1..], x)
  {
    var rest := ips[1..];
    assert forall i | 0 <= i < |rest| :: rest[i] == ips[i + 1];
    if i :| 0 <= i < |ips| && Canonical(ips[i]) == x {
      assert i > 0 ==> Canonical(rest[i - 1]) == x;
    }
  }

  /** An address that is gone and not banned again stays gone. */
  lemma {:induction false} StaysOut(order: seq<IpAddr>, x: IpAddr, later: seq<IpAddr>)
    requires x !in order && !Renews(later, x)
    ensures x !in BanAll(order, later)
    decreases |later|
  {
    if later == [] {
    } else {
      RenewsTail(later, x);
      hide Renews, Canonical;
      StaysOut(BanStep(order, later[0]), x, later[1..]);
    }
  }

  /** The set of banned addresses and the queue that orders them. */
  predicate BansOk(banned: set<IpAddr>, order: seq<IpAddr>) {
    && Distinct(order) && |order| <= 4096
    && (forall x | x in banned :: x in order) && (forall i | 0 <= i < |order| :: order[i] in banned)
  }

  lemma {:induction false} BansCount(banned: set<IpAddr>, order: seq<IpAddr>)
    requires Distinct(order)
    requires (forall x | x in banned :: x in order) && (forall i | 0 <= i < |order| :: order[i] in banned)
    ensures |banned| == |order|
  {
    if order == [] {
      assert banned == {};
    } else {
      var front, last := order[..|order| - 1], order[|order| - 1];
      assert order == front + [last];
      BansCount(banned - {last}, front);
    }
  }

  lemma BanKnown(banned: set<IpAddr>, order: seq<IpAddr>, c: IpAddr)
    requires BansOk(banned, order)
    ensures c in order <==> c in banned
  {
  }

  lemma BanKeeps(banned: set<IpAddr>, order: seq<IpAddr>, c: IpAddr)
    requires BansOk(banned, order) && c !in banned
    ensures c !in order && |banned + {c}| == |order + [c]|
    ensures |order| < MAX_BANNED ==> BansOk(banned + {c}, order + [c])
    ensures |order| == MAX_BANNED ==> BansOk(banned + {c} - {(order + [c])[0]}, (order + [c])[1..])
  {
    BanKnown(banned, order, c);
    BansCount(banned, order);
    var grown := order + [c];
    assert grown == [grown[0]] + grown[1..];
    if |order| == MAX_BANNED {
      var out := banned + {c} - {grown[0]};
      forall i | 0 <= i < |grown[1..]|
        ensures grown[1..][i] in out
      {
        assert grown[1..][i] == grown[i + 1] && grown[0] == order[0];
      }
      forall x | x in out
        ensures x in grown[1..]
      {
        if x == c {
          assert grown[1..][|order| - 1] == c;
        } else {
          var k: nat :| k < |order| && order[k] == x;
          assert grown[k] == x && grown[1..][k - 1] == x;
        }
      }
    }
  }

  class List {
    var exact: set<IpAddr>
    var prefixes: seq<Prefix>
    var v4: seq<Range>
    var v6: seq<Range>
    var banned: set<IpAddr>
    var banOrder: seq<IpAddr>
    var banRevision: nat
    var revision: nat
    /** The rules the prepared fields were made from. */
    ghost var rules: seq<Rule>

    ghost predicate Valid()
      reads this
    {
      && Prepared(exact, prefixes, v4, v6) == Prepare(rules)
      && BansOk(banned, banOrder)
      && banRevision < U32_COUNT && revision < U32_COUNT
    }

    constructor ()
      ensures Valid() && rules == [] && banOrder == []
    {
      exact, prefixes, v4, v6, banned, banOrder, banRevision, revision := {}, [], [], [], {}, [], 0, 0;
      rules := [];
    }

    /** Whether an address is blocked: by some rule, or by a ban on its canonical form. */
    method Contains(ip: IpAddr) returns (b: bool)
      requires Valid()
      ensures b <==> Listed(rules, ip) || Canonical(ip) in banOrder
    {
      LooksUpExactly(rules, ip);
      hide Prepare, Listed, Separate, Covers, Canonical, Distinct;
      if exact == {} && prefixes == [] && banned == {} {
        NothingListed(rules);
        return false;
      }
      var canonical := Canonical(ip);
      if canonical in exact || canonical in banned {
        return true;
      }
      match ip
      case V4(a) =>
        CanonicalV4(a);
        b := RangeContains(v4, a);
      case V6(a) =>
        if canonical.V4? {
          b := RangeContains(v4, canonical.v4);
          if b {
            return;
          }
        }
        b := RangeContains(v6, a);
    }

    /** Ban an address; beyond 4096 the oldest ban is lifted. */
    method Ban(ip: IpAddr) returns (added: bool)
      requires Valid()
      modifies `banned, `banOrder, `banRevision
      ensures Valid() && banOrder == BanStep(old(banOrder), ip)
      ensures added <==> Canonical(ip) !in old(banOrder)
      ensures banRevision == (old(banRevision) + if added then 1 else 0) % 0x1_0000_0000
    {
      hide Prepare, Canonical, Distinct;
      var canonical := Canonical(ip);
      if canonical in banned {
        BanKnown(banned, banOrder, canonical);
        return false;
      }
      BanKeeps(banned, banOrder, canonical);
      hide BansOk;
      banned := banned + {canonical};
      banOrder := banOrder + [canonical];
      if |banned| > MAX_BANNED {
        var oldest := banOrder[0];
        banOrder := banOrder[1..];
        banned := banned - {oldest};
      }
      banRevision := (banRevision + 1) % U32_COUNT;
      added := true;
    }

    /** Put another list in place; bans stay. */
    method Replace(entries: seq<Rule>) returns (ruleCount: nat)
      requires Valid()
      modifies `exact, `prefixes, `v4, `v6, `revision, `rules
      ensures Valid() && rules == entries
      ensures revision == (old(revision) + 1) % 0x1_0000_0000
      ensures ruleCount == (|ExactOf(entries)| + |PrefixesOf(entries)|) % 0x1_0000_0000
    {
      PrepareFields(entries);
      hide BansOk, Prepare, ExactOf, PrefixesOf;
      var p := ParseRules(entries);
      exact, prefixes, v4, v6, rules := p.exact, p.prefixes, p.v4, p.v6, entries;
      revision := (revision + 1) % U32_COUNT;
      ruleCount := (|exact| + |prefixes|) % U32_COUNT;
    }
  }

  lemma PrepareFields(rules: seq<Rule>)
    ensures Prepare(rules).exact == ExactOf(rules) && Prepare(rules).prefixes == PrefixesOf(rules)
  {
  }

  lemma CanonicalV4(a: nat)
    ensures Canonical(V4(a)) == V4(a)
  {
  }

  /** With no exact rule and no prefix, nothing is listed. */
  lemma NothingListed(rules: seq<Rule>)
    requires Prepare(rules).exact == {} && Prepare(rules).prefixes == []
    ensures forall ip :: !Listed(rules, ip)
  {
    forall ip
      ensures !Listed(rules, ip)
    {
      LooksUpExactly(rules, ip);
    }
  }
}
