/** Metadata under one budget. */
module MetadataBudget {
  /* Metadata of several torrents fetched block by block under one byte budget. A block that does not
   fit empties the heaviest other incomplete assembly, again and again, until it fits or nothing is left. */

  import opened Common

  const PIECE: nat := 16384

  datatype Assembly = Assembly(size: nat, pieces: seq<Option<Bytes>>, held: nat)

  /** `order` lists every assembly made and not yet pruned, oldest first; dropped ones leave `assemblies`. */
  datatype Share = Share(
    limit: nat,
    used: nat,
    assemblies: map<nat, Assembly>,
    order: seq<nat>,
    current: Option<nat>,
    next: nat)

  function PieceCount(size: nat): nat { (size + PIECE - 1) / PIECE }

  function PieceLen(size: nat, idx: nat): (len: nat)
    requires idx < PieceCount(size)
    ensures 1 <= len <= PIECE && idx * PIECE + len <= size
    ensures idx + 1 == PieceCount(size) <==> idx * PIECE + len == size
  {
    if idx + 1 == PieceCount(size) then size - idx * PIECE else PIECE
  }

  function Empty(size: nat): Assembly { Assembly(size, seq(PieceCount(size), _ => None), 0) }

  predicate Complete(a: Assembly) { forall i | 0 <= i < |a.pieces| :: a.pieces[i].Some? }

  function Evictable(a: Assembly): nat { if a.held >= a.size then 0 else a.held }

  function StoredBytes(pieces: seq<Option<Bytes>>): nat {
    if pieces == [] then 0
    else
      var last := pieces[|pieces| - 1];
      StoredBytes(pieces[..|pieces| - 1]) + (if last.Some? then |last.value| else 0)
  }

  function HeldBy(m: map<nat, Assembly>, h: nat): nat { if h in m then m[h].held else 0 }

  function Total(m: map<nat, Assembly>, order: seq<nat>): nat {
    if order == [] then 0 else Total(m, order[..|order| - 1]) + HeldBy(m, order[|order| - 1])
  }

  // ----- what each section does -----

  predicate Wanted(a: Assembly, idx: nat) { idx < |a.pieces| && a.pieces[idx].None? }

  function Put(a: Assembly, idx: nat, block: Bytes): Assembly
    requires idx < |a.pieces|
  {
    a.(pieces := a.pieces[idx := Some(block)], held := a.held + |block|)
  }

  function TryStore(s: Share, h: nat, idx: nat, block: Bytes): (bool, Share)
    requires h in s.assemblies
  {
    if !Wanted(s.assemblies[h], idx) then (true, s)
    else if s.used + |block| > s.limit then (false, s)
    else (true, s.(used := s.used + |block|, assemblies := s.assemblies[h := Put(s.assemblies[h], idx, block)]))
  }

  function Cleared(a: Assembly): Assembly { a.(pieces := seq(|a.pieces|, _ => None), held := 0) }

  function Reset(s: Share, h: nat): Share
    requires h in s.assemblies
  {
    s.(used := Max(0, s.used - s.assemblies[h].held), assemblies := s.assemblies[h := Cleared(s.assemblies[h])])
  }

  predicate Candidate(m: map<nat, Assembly>, h: nat, x: nat) { x in m && x != h && Evictable(m[x]) > 0 }

  /** The last of the heaviest assemblies, other than `h`, that may be emptied. */
  function HeaviestOther(m: map<nat, Assembly>, order: seq<nat>, h: nat): (r: Option<nat>)
    ensures r.Some? ==> r.value in order && Candidate(m, h, r.value)
    ensures r.Some? ==> forall y | y in order && Candidate(m, h, y) :: Evictable(m[y]) <= Evictable(m[r.value])
    ensures r.None? ==> forall y | y in order :: !Candidate(m, h, y)
  {
    if order == [] then None
    else
      var front := order[..|order| - 1];
      var x := order[|order| - 1];
      assert order == front + [x];
      var best := HeaviestOther(m, front, h);
      if Candidate(m, h, x) && (best.None? || Evictable(m[x]) >= Evictable(m[best.value])) then Some(x) else best
  }

  /** Of several equally heavy assemblies, the one made last is taken. */
  lemma {:induction false} HeaviestIsLast(m: map<nat, Assembly>, order: seq<nat>, h: nat)
    ensures var r := HeaviestOther(m, order, h);
            r.Some? ==> exists k :: 0 <= k < |order| && order[k] == r.value && LaterLighter(m, order, h, k)
  {
    var r := HeaviestOther(m, order, h);
    if order != [] && r.Some? {
      var n := |order| - 1;
      var front := order[..n];
      HeaviestIsLast(m, front, h);
      var best := HeaviestOther(m, front, h);
      if best.Some? && best == r && !(Candidate(m, h, order[n]) && Evictable(m[order[n]]) >= Evictable(m[r.value])) {
        var k :| 0 <= k < |front| && front[k] == r.value && LaterLighter(m, front, h, k);
        assert order[k] == front[k];
        assert forall j | k < j < n :: order[j] == front[j];
        assert LaterLighter(m, order, h, k);
      } else {
        assert LaterLighter(m, order, h, n);
      }
    }
  }

  predicate LaterLighter(m: map<nat, Assembly>, order: seq<nat>, h: nat, k: nat)
    requires k < |order|
  {
    order[k] in m && forall j | k < j < |order| && Candidate(m, h, order[j]) ::
      Evictable(m[order[j]]) < Evictable(m[order[k]])
  }

  /** `MetadataShare::store` as one step. */
  function Store(s: Share, h: nat, idx: nat, block: Bytes): (bool, Share)
    requires h in s.assemblies
    decreases Total(s.assemblies, s.order)
  {
    var r := TryStore(s, h, idx, block);
    if r.0 then r
    else
      var victim := HeaviestOther(s.assemblies, s.order, h);
      if victim.None? then (false, s)
      else
        TotalFalls(s.assemblies, s.order, victim.value);
        Store(Reset(s, victim.value), h, idx, block)
  }

  /** A fetch hands over only a block of a piece it asked for, and only at that piece's length. */
  function Deliver(s: Share, h: nat, idx: nat, block: Bytes): (bool, Share)
    requires h in s.assemblies && idx < |s.assemblies[h].pieces|
    requires |s.assemblies[h].pieces| == PieceCount(s.assemblies[h].size)
  {
    if |block| == PieceLen(s.assemblies[h].size, idx) then Store(s, h, idx, block) else (true, s)
  }

  function Live(m: map<nat, Assembly>, order: seq<nat>): seq<nat> {
    if order == [] then []
    else
      var x := order[|order| - 1];
      Live(m, order[..|order| - 1]) + if x in m then [x] else []
  }

  function AddPrivate(s: Share, size: nat): Share {
    s.(assemblies := s.assemblies[s.next := Empty(size)], order := Live(s.assemblies, s.order) + [s.next],
       next := s.next + 1)
  }

  /** The assembly a new fetch works on: the shared one if sizes agree, else one of its own. */
  function Attach(s: Share, size: nat): (nat, Share) {
    if s.current.Some? && s.current.value in s.assemblies && s.assemblies[s.current.value].size == size then
      (s.current.value, s)
    else if s.current.Some? then (s.next, AddPrivate(s, size))
    else (s.next, AddPrivate(s, size).(current := Some(s.next)))
  }

  /** The last fetch using an assembly ends: its reservation goes back. */
  function Drop(s: Share, h: nat): Share
    requires h in s.assemblies
  {
    s.(used := Max(0, s.used - s.assemblies[h].held), assemblies := s.assemblies - {h})
  }

  // ----- the invariant -----

  predicate WellFormed(a: Assembly) {
    |a.pieces| == PieceCount(a.size) && a.held == StoredBytes(a.pieces)
  }

  /** Every stored block has its piece's length. */
  predicate Full(a: Assembly) {
    |a.pieces| == PieceCount(a.size)
    && forall i | 0 <= i < |a.pieces| :: a.pieces[i].Some? ==> |a.pieces[i].value| == PieceLen(a.size, i)
  }

  predicate Registered(s: Share) {
    && Distinct(s.order)
    && (forall h | h in s.assemblies :: h in s.order)
    && (forall h | h in s.order :: h < s.next)
    && (s.current.Some? ==> s.current.value in s.assemblies)
  }

  /** The counter is the sum of the stored block bytes of the live assemblies, within the limit. */
  predicate Balanced(s: Share) {
    && s.used == Total(s.assemblies, s.order) <= s.limit
    && forall h | h in s.assemblies :: WellFormed(s.assemblies[h]) && Full(s.assemblies[h])
  }

  predicate Inv(s: Share) { Registered(s) && Balanced(s) }

  // ----- sums -----

  lemma {:induction false} TotalFalls(m: map<nat, Assembly>, order: seq<nat>, x: nat)
    requires x in order && x in m && m[x].held > 0
    ensures Total(m[x := Cleared(m[x])], order) < Total(m, order)
  {
    var front, last := order[..|order| - 1], order[|order| - 1];
    assert order == front + [last];
    if x in front {
      TotalFalls(m, front, x);
    } else {
      TotalSame(m, m[x := Cleared(m[x])], front);
    }
  }

  lemma {:induction false} TotalSame(m: map<nat, Assembly>, n: map<nat, Assembly>, order: seq<nat>)
    requires forall h | h in order :: HeldBy(m, h) == HeldBy(n, h)
    ensures Total(m, order) == Total(n, order)
  {
    if order == [] {
    } else {
      var front, last := order[..|order| - 1], order[|order| - 1];
      assert order == front + [last];
      TotalSame(m, n, front);
    }
  }

  /** Changing what one registered assembly holds changes the total by that much. */
  lemma {:induction false} TotalChange(m: map<nat, Assembly>, n: map<nat, Assembly>, order: seq<nat>, x: nat)
    requires Distinct(order) && x in order && forall h | h in order && h != x :: HeldBy(m, h) == HeldBy(n, h)
    ensures Total(n, order) == Total(m, order) - HeldBy(m, x) + HeldBy(n, x)
    ensures Total(m, order) >= HeldBy(m, x)
  {
    var front, last := order[..|order| - 1], order[|order| - 1];
    assert order == front + [last];
    if last == x {
      TotalSame(m, n, front);
    } else {
      TotalChange(m, n, front, x);
    }
  }

  lemma {:induction false} StoredPut(pieces: seq<Option<Bytes>>, idx: nat, block: Bytes)
    requires idx < |pieces| && pieces[idx].None?
    ensures StoredBytes(pieces[idx := Some(block)]) == StoredBytes(pieces) + |block|
  {
    var n := |pieces| - 1;
    var q := pieces[idx := Some(block)];
    if idx == n {
      assert q[..n] == pieces[..n];
    } else {
      assert q[..n] == pieces[..n][idx := Some(block)];
      StoredPut(pieces[..n], idx, block);
    }
  }

  lemma {:induction false} StoredNone(n: nat)
    ensures StoredBytes(seq<Option<Bytes>>(n, _ => None)) == 0
  {
    if n == 0 {
    } else {
      assert seq<Option<Bytes>>(n, _ => None)[..n - 1] == seq<Option<Bytes>>(n - 1, _ => None);
      StoredNone(n - 1);
    }
  }

  lemma {:induction false} StoredUpTo(a: Assembly, k: nat)
    requires Full(a) && k <= |a.pieces|
    ensures StoredBytes(a.pieces[..k]) <= Min(k * PIECE, a.size)
    ensures StoredBytes(a.pieces[..k]) == Min(k * PIECE, a.size) <==> forall i | 0 <= i < k :: a.pieces[i].Some?
  {
    if k == 0 {
    } else {
      StoredUpTo(a, k - 1);
      assert a.pieces[..k][..k - 1] == a.pieces[..k - 1];
      var len := PieceLen(a.size, k - 1);
      assert a.pieces[..k][k - 1] == a.pieces[k - 1];
      assert Min(k * PIECE, a.size) == Min((k - 1) * PIECE, a.size) + len;
    }
  }

  /** With full-length blocks, what an assembly holds reaches its size exactly when it is complete. */
  lemma HeldMeansComplete(a: Assembly)
    requires WellFormed(a) && Full(a)
    ensures a.held <= a.size
    ensures a.held == a.size <==> Complete(a)
    ensures Evictable(a) == if Complete(a) then 0 else a.held
  {
    StoredUpTo(a, |a.pieces|);
    assert a.pieces[..|a.pieces|] == a.pieces;
  }

  // ----- each step keeps the invariant -----

  lemma ResetKeeps(s: Share, h: nat)
    requires Inv(s) && h in s.assemblies
    ensures Inv(Reset(s, h))
    ensures Reset(s, h).used == s.used - s.assemblies[h].held
  {
    var t := Reset(s, h);
    TotalChange(s.assemblies, t.assemblies, s.order, h);
    StoredNone(|s.assemblies[h].pieces|);
    assert Registered(t);
  }

  lemma TryStoreKeeps(s: Share, h: nat, idx: nat, block: Bytes)
    requires Inv(s) && h in s.assemblies
    requires Wanted(s.assemblies[h], idx) ==> |block| == PieceLen(s.assemblies[h].size, idx)
    ensures Inv(TryStore(s, h, idx, block).1)
  {
    var a := s.assemblies[h];
    if Wanted(a, idx) && s.used + |block| <= s.limit {
      var t := TryStore(s, h, idx, block).1;
      StoredPut(a.pieces, idx, block);
      TotalChange(s.assemblies, t.assemblies, s.order, h);
      assert Registered(t);
    }
  }

  /** What a store leaves of the other assemblies, and what it does to the one it stores into. */
  predicate Outcome(s: Share, h: nat, idx: nat, block: Bytes, ok: bool, t: Share)
    requires h in s.assemblies
  {
    && t.assemblies.Keys == s.assemblies.Keys
    && t == s.(used := t.used, assemblies := t.assemblies)
    && t.assemblies[h] == (if ok && Wanted(s.assemblies[h], idx) then Put(s.assemblies[h], idx, block) else s.assemblies[h])
    && forall x | x in s.assemblies && x != h :: Kept(s, t, x) || (Emptied(s, t, x) && Evictable(s.assemblies[x]) > 0)
  }

  predicate Kept(s: Share, t: Share, x: nat)
    requires x in s.assemblies && x in t.assemblies
  {
    t.assemblies[x] == s.assemblies[x]
  }

  predicate Emptied(s: Share, t: Share, x: nat)
    requires x in s.assemblies && x in t.assemblies
  {
    t.assemblies[x] == Cleared(s.assemblies[x])
  }

  lemma {:induction false} StoreOutcome(s: Share, h: nat, idx: nat, block: Bytes)
    requires h in s.assemblies
    ensures var r := Store(s, h, idx, block); Outcome(s, h, idx, block, r.0, r.1)
    decreases Total(s.assemblies, s.order)
  {
    var victim := HeaviestOther(s.assemblies, s.order, h);
    if !TryStore(s, h, idx, block).0 && victim.Some? {
      TotalFalls(s.assemblies, s.order, victim.value);
      StoreOutcome(Reset(s, victim.value), h, idx, block);
    }
  }

  /** Stored bytes stay equal to the counter and within the limit, and a complete assembly other than
      the one stored into is never emptied. */
  lemma {:induction false} StoreKeeps(s: Share, h: nat, idx: nat, block: Bytes)
    requires Inv(s) && h in s.assemblies
    requires Wanted(s.assemblies[h], idx) ==> |block| == PieceLen(s.assemblies[h].size, idx)
    ensures Inv(Store(s, h, idx, block).1)
    ensures Store(s, h, idx, block).1.assemblies.Keys == s.assemblies.Keys
    ensures forall x | x in s.assemblies && x != h && Complete(s.assemblies[x]) ::
      Store(s, h, idx, block).1.assemblies[x] == s.assemblies[x]
    decreases Total(s.assemblies, s.order)
  {
    StoreOutcome(s, h, idx, block);
    forall x | x in s.assemblies && Complete(s.assemblies[x])
      ensures Evictable(s.assemblies[x]) == 0
    {
      HeldMeansComplete(s.assemblies[x]);
    }
    var victim := HeaviestOther(s.assemblies, s.order, h);
    TryStoreKeeps(s, h, idx, block);
    if !TryStore(s, h, idx, block).0 && victim.Some? {
      TotalFalls(s.assemblies, s.order, victim.value);
      ResetKeeps(s, victim.value);
      StoreKeeps(Reset(s, victim.value), h, idx, block);
    }
  }

  // ----- when a store fails, and which assemblies it empties -----

  /** Bytes no eviction for `h` can free: its own, and those of complete assemblies. */
  function Pinned(m: map<nat, Assembly>, order: seq<nat>, h: nat): nat {
    if order == [] then 0
    else
      var x := order[|order| - 1];
      Pinned(m, order[..|order| - 1], h) + if x in m && (x == h || Complete(m[x])) then m[x].held else 0
  }

  predicate AllFull(m: map<nat, Assembly>) { forall x | x in m :: WellFormed(m[x]) && Full(m[x]) }

  lemma {:induction false} PinnedAgainstTotal(m: map<nat, Assembly>, order: seq<nat>, h: nat)
    requires AllFull(m)
    ensures Pinned(m, order, h) <= Total(m, order)
    ensures (forall x | x in order :: !Candidate(m, h, x)) ==> Pinned(m, order, h) == Total(m, order)
  {
    if order == [] {
    } else {
      var front, last := order[..|order| - 1], order[|order| - 1];
      assert order == front + [last];
      PinnedAgainstTotal(m, front, h);
      if last in m {
        HeldMeansComplete(m[last]);
      }
      if forall x | x in order :: !Candidate(m, h, x) {
        assert last in order && !Candidate(m, h, last);
      }
    }
  }

  lemma {:induction false} PinnedStays(m: map<nat, Assembly>, order: seq<nat>, h: nat, x: nat)
    requires AllFull(m) && Candidate(m, h, x)
    ensures Pinned(m[x := Cleared(m[x])], order, h) == Pinned(m, order, h)
  {
    if order == [] {
    } else {
      PinnedStays(m, order[..|order| - 1], h, x);
      HeldMeansComplete(m[x]);
    }
  }

  /** A store fails exactly when its block is still wanted and would not fit beside the bytes this
      assembly and the complete ones hold; it then has emptied every other incomplete assembly. */
  lemma {:induction false} StoreFailsExactly(s: Share, h: nat, idx: nat, block: Bytes)
    requires Inv(s) && h in s.assemblies
    requires Wanted(s.assemblies[h], idx) ==> |block| == PieceLen(s.assemblies[h].size, idx)
    ensures !Store(s, h, idx, block).0 <==>
            Wanted(s.assemblies[h], idx) && Pinned(s.assemblies, s.order, h) + |block| > s.limit
    ensures !Store(s, h, idx, block).0 ==>
            Store(s, h, idx, block).1.used == Pinned(s.assemblies, s.order, h)
    decreases Total(s.assemblies, s.order)
  {
    PinnedAgainstTotal(s.assemblies, s.order, h);
    var victim := HeaviestOther(s.assemblies, s.order, h);
    if !TryStore(s, h, idx, block).0 && victim.Some? {
      var t := Reset(s, victim.value);
      TotalFalls(s.assemblies, s.order, victim.value);
      ResetKeeps(s, victim.value);
      PinnedStays(s.assemblies, s.order, h, victim.value);
      StoreFailsExactly(t, h, idx, block);
    }
  }

  /** A block off the wire. One whose length is not its piece's, or whose piece is held, changes nothing.
      Any other is in its place afterwards, counted, unless it would not fit beside the bytes that may not
      be emptied; the fetch is told so, and then nothing of its own assembly changes. */
  lemma DeliverExactly(s: Share, h: nat, idx: nat, block: Bytes)
    requires Inv(s) && h in s.assemblies && idx < |s.assemblies[h].pieces|
    ensures var a := s.assemblies[h];
            var (ok, t) := Deliver(s, h, idx, block);
            var wanted := |block| == Min(16384, a.size - 16384 * idx) && a.pieces[idx].None?;
            && h in t.assemblies
            && (!wanted ==> ok && t == s)
            && (wanted ==> (ok <==> Pinned(s.assemblies, s.order, h) + |block| <= s.limit))
            && (wanted && ok ==>
                  t.assemblies[h] == a.(pieces := a.pieces[idx := Some(block)], held := a.held + |block|))
            && (!ok ==> t.assemblies[h] == a)
  {
    if |block| == PieceLen(s.assemblies[h].size, idx) {
      StoreFailsExactly(s, h, idx, block);
      StoreOutcome(s, h, idx, block);
      if !Wanted(s.assemblies[h], idx) {
        assert Store(s, h, idx, block) == (true, s);
      }
    }
  }

  /** If a block did not fit beside `w` more bytes, and no candidate is heavier than `w`, then even at
      the end there is no room for those `w` bytes. */
  lemma {:induction false} NoRoomToSpare(s: Share, h: nat, idx: nat, block: Bytes, w: nat)
    requires Inv(s) && h in s.assemblies && Wanted(s.assemblies[h], idx)
    requires s.used + w + |block| > s.limit
    requires forall x | Candidate(s.assemblies, h, x) :: Evictable(s.assemblies[x]) <= w
    ensures Store(s, h, idx, block).0 ==> Store(s, h, idx, block).1.used + w > s.limit
    decreases Total(s.assemblies, s.order)
  {
    var victim := HeaviestOther(s.assemblies, s.order, h);
    if !TryStore(s, h, idx, block).0 && victim.Some? {
      TotalFalls(s.assemblies, s.order, victim.value);
      ResetKeeps(s, victim.value);
      var u := Reset(s, victim.value);
      assert forall x | Candidate(u.assemblies, h, x) :: Candidate(s.assemblies, h, x);
      NoRoomToSpare(u, h, idx, block, w);
    }
  }

  lemma {:induction false} VictimsNeeded(s: Share, h: nat, idx: nat, block: Bytes, x: nat)
    requires Inv(s) && h in s.assemblies && x in s.assemblies && x != h
    ensures x in Store(s, h, idx, block).1.assemblies
    ensures Store(s, h, idx, block).0 && !Kept(s, Store(s, h, idx, block).1, x) ==>
            Store(s, h, idx, block).1.used + s.assemblies[x].held > s.limit
    decreases Total(s.assemblies, s.order)
  {
    StoreOutcome(s, h, idx, block);
    var victim := HeaviestOther(s.assemblies, s.order, h);
    if !TryStore(s, h, idx, block).0 && victim.Some? {
      var v := victim.value;
      var u := Reset(s, v);
      TotalFalls(s.assemblies, s.order, v);
      ResetKeeps(s, v);
      if x == v {
        forall y | Candidate(u.assemblies, h, y)
          ensures Evictable(u.assemblies[y]) <= s.assemblies[v].held
        {
          assert Candidate(s.assemblies, h, y);
        }
        NoRoomToSpare(u, h, idx, block, s.assemblies[v].held);
      } else {
        VictimsNeeded(u, h, idx, block, x);
      }
    }
  }

  lemma {:induction false} VictimsHeaviest(s: Share, h: nat, idx: nat, block: Bytes, x: nat, y: nat)
    requires Inv(s) && h in s.assemblies && x in s.assemblies && y in s.assemblies && x != h && y != h
    requires x in Store(s, h, idx, block).1.assemblies && y in Store(s, h, idx, block).1.assemblies
    requires !Kept(s, Store(s, h, idx, block).1, x) && Kept(s, Store(s, h, idx, block).1, y)
    ensures Evictable(s.assemblies[y]) <= Evictable(s.assemblies[x])
    decreases Total(s.assemblies, s.order)
  {
    var victim := HeaviestOther(s.assemblies, s.order, h);
    if !TryStore(s, h, idx, block).0 && victim.Some? {
      var v := victim.value;
      var u := Reset(s, v);
      TotalFalls(s.assemblies, s.order, v);
      ResetKeeps(s, v);
      StoreOutcome(u, h, idx, block);
      if x != v {
        VictimsHeaviest(u, h, idx, block, x, y);
      } else if Evictable(s.assemblies[y]) > 0 {
        assert Candidate(s.assemblies, h, y);
      }
    }
  }

  /** Nothing is emptied for a block that fits. A store that succeeds empties the heaviest assemblies
      first, and none that it could have spared. */
  lemma EvictsOnlyAsNeeded(s: Share, h: nat, idx: nat, block: Bytes)
    requires Inv(s) && h in s.assemblies
    ensures Store(s, h, idx, block).1.assemblies.Keys == s.assemblies.Keys
    ensures s.used + |block| <= s.limit ==>
            forall x | x in s.assemblies && x != h :: Kept(s, Store(s, h, idx, block).1, x)
    ensures Store(s, h, idx, block).0 ==>
            forall x | x in s.assemblies && x != h && !Kept(s, Store(s, h, idx, block).1, x) ::
              Store(s, h, idx, block).1.used + s.assemblies[x].held > s.limit
    ensures forall x, y | x in s.assemblies && y in s.assemblies && x != h && y != h
              && !Kept(s, Store(s, h, idx, block).1, x) && Kept(s, Store(s, h, idx, block).1, y) ::
              Evictable(s.assemblies[y]) <= Evictable(s.assemblies[x])
  {
    StoreOutcome(s, h, idx, block);
    if s.used + |block| <= s.limit {
      assert Store(s, h, idx, block) == TryStore(s, h, idx, block);
    }
    hide Store, Inv, Kept, Evictable, TryStore, Total;
    forall x | x in s.assemblies && x != h && Store(s, h, idx, block).0 && !Kept(s, Store(s, h, idx, block).1, x)
      ensures Store(s, h, idx, block).1.used + s.assemblies[x].held > s.limit
    {
      VictimsNeeded(s, h, idx, block, x);
    }
    forall x, y | x in s.assemblies && y in s.assemblies && x != h && y != h
      && !Kept(s, Store(s, h, idx, block).1, x) && Kept(s, Store(s, h, idx, block).1, y)
      ensures Evictable(s.assemblies[y]) <= Evictable(s.assemblies[x])
    {
      VictimsHeaviest(s, h, idx, block, x, y);
    }
  }

  // ----- putting the pieces together -----

  /** The pieces one after another, or nothing while one is missing. */
  function Assemble(pieces: seq<Option<Bytes>>): Option<Bytes> {
    if pieces == [] then Some([])
    else
      var front := Assemble(pieces[..|pieces| - 1]);
      var last := pieces[|pieces| - 1];
      if front.None? || last.None? then None else Some(front.value + last.value)
  }

  lemma {:induction false} AssembleUpTo(a: Assembly, k: nat)
    requires Full(a) && k <= |a.pieces| && forall i | 0 <= i < k :: a.pieces[i].Some?
    ensures Assemble(a.pieces[..k]).Some? && |Assemble(a.pieces[..k]).value| == Min(k * PIECE, a.size)
    ensures forall i | 0 <= i < k :: PieceAt(a, i, Assemble(a.pieces[..k]).value)
  {
    if k == 0 {
    } else {
      AssembleUpTo(a, k - 1);
      assert a.pieces[..k][..k - 1] == a.pieces[..k - 1];
      var front := Assemble(a.pieces[..k - 1]).value;
      var out := Assemble(a.pieces[..k]).value;
      var len := PieceLen(a.size, k - 1);
      assert a.pieces[..k][k - 1] == a.pieces[k - 1];
      assert out == front + a.pieces[k - 1].value;
      assert |front| == (k - 1) * PIECE;
      forall i | 0 <= i < k
        ensures PieceAt(a, i, out)
      {
        if i < k - 1 {
          assert PieceAt(a, i, front);
        }
      }
    }
  }

  /** Piece `i` stands at its own offset of the metadata. */
  predicate PieceAt(a: Assembly, i: nat, out: Bytes)
    requires |a.pieces| == PieceCount(a.size) && i < |a.pieces|
  {
    && a.pieces[i].Some?
    && i * PIECE + PieceLen(a.size, i) <= |out|
    && out[i * PIECE..i * PIECE + PieceLen(a.size, i)] == a.pieces[i].value
  }

  lemma {:induction false} AssembleNeedsAll(pieces: seq<Option<Bytes>>)
    ensures Assemble(pieces).Some? <==> forall i | 0 <= i < |pieces| :: pieces[i].Some?
  {
    if pieces == [] {
    } else {
      AssembleNeedsAll(pieces[..|pieces| - 1]);
    }
  }

  /** Metadata comes out exactly when an assembly is complete, which is when it holds its whole size;
      it then has that size, with every block at its own offset. */
  lemma AssembledWhole(a: Assembly)
    requires WellFormed(a) && Full(a)
    ensures Assemble(a.pieces).Some? <==> Complete(a)
    ensures Complete(a) <==> a.held == a.size
    ensures Complete(a) ==>
      |Assemble(a.pieces).value| == a.size && forall i | 0 <= i < |a.pieces| :: PieceAt(a, i, Assemble(a.pieces).value)
  {
    AssembleNeedsAll(a.pieces);
    HeldMeansComplete(a);
    assert a.pieces[..|a.pieces|] == a.pieces;
    if Complete(a) {
      AssembleUpTo(a, |a.pieces|);
    }
  }

  // ----- whole runs -----

  lemma {:induction false} LiveOf(m: map<nat, Assembly>, order: seq<nat>)
    requires Distinct(order)
    ensures Distinct(Live(m, order))
    ensures forall h :: h in Live(m, order) <==> h in order && h in m
  {
    if order == [] {
    } else {
      var front, x := order[..|order| - 1], order[|order| - 1];
      assert order == front + [x];
      LiveOf(m, front);
      assert x !in front;
      if x in m {
        assert Live(m, order) == Live(m, front) + [x];
      } else {
        assert Live(m, order) == Live(m, front);
      }
    }
  }

  lemma {:induction false} LiveTotal(m: map<nat, Assembly>, order: seq<nat>)
    ensures Total(m, Live(m, order)) == Total(m, order)
  {
    if order == [] {
    } else {
      var front, x := order[..|order| - 1], order[|order| - 1];
      LiveTotal(m, front);
      TotalSnoc(m, Live(m, front), x);
      if x !in m {
        assert Live(m, order) == Live(m, front);
      }
    }
  }

  lemma AddPrivateKeeps(s: Share, size: nat)
    requires Inv(s)
    ensures Inv(AddPrivate(s, size)) && s.next !in s.assemblies
  {
    NextUnused(s);
    AddPrivateRegistered(s, size);
    AddPrivateBalanced(s, size);
  }

  lemma AddPrivateRegistered(s: Share, size: nat)
    requires Registered(s) && s.next !in s.order
    ensures Registered(AddPrivate(s, size))
  {
    LiveOf(s.assemblies, s.order);
    hide Live;
  }

  lemma AddPrivateBalanced(s: Share, size: nat)
    requires Inv(s) && s.next !in s.order && s.next !in s.assemblies
    ensures Balanced(AddPrivate(s, size))
  {
    LiveOf(s.assemblies, s.order);
    LiveTotal(s.assemblies, s.order);
    hide Live, Total, WellFormed, Full, Registered;
    var t := AddPrivate(s, size);
    var l := Live(s.assemblies, s.order);
    TotalSame(s.assemblies, t.assemblies, l);
    TotalSnoc(t.assemblies, l, s.next);
    EmptyFits(size);
  }

  lemma NextUnused(s: Share)
    requires Inv(s)
    ensures s.next !in s.order && s.next !in s.assemblies
  {
  }

  lemma EmptyFits(size: nat)
    ensures WellFormed(Empty(size)) && Full(Empty(size))
  {
    StoredNone(PieceCount(size));
  }

  lemma TotalSnoc(m: map<nat, Assembly>, order: seq<nat>, x: nat)
    ensures Total(m, order + [x]) == Total(m, order) + HeldBy(m, x)
  {
    assert (order + [x])[..|order|] == order;
  }

  lemma DropKeeps(s: Share, h: nat)
    requires Inv(s) && h in s.assemblies && s.current != Some(h)
    ensures Inv(Drop(s, h)) && Drop(s, h).used == s.used - s.assemblies[h].held
  {
    TotalChange(s.assemblies, s.assemblies - {h}, s.order, h);
  }

  datatype Op =
    | Attached(size: nat)
    | Refetch(size: nat)
    | Received(h: nat, idx: nat, block: Bytes)
    | Mismatched(h: nat)
    | Dropped(h: nat)

  /** A fetch acts only on an assembly it holds; the shared one is never dropped. */
  predicate Enabled(s: Share, op: Op) {
    match op
    case Attached(_) => true
    case Refetch(_) => true
    case Received(h, idx, _) => h in s.assemblies && idx < |s.assemblies[h].pieces|
    case Mismatched(h) => h in s.assemblies
    case Dropped(h) => h in s.assemblies && s.current != Some(h)
  }

  ghost function Apply(s: Share, op: Op): Share
    requires Inv(s) && Enabled(s, op)
  {
    match op
    case Attached(size) => Attach(s, size).1
    case Refetch(size) => AddPrivate(s, size)
    case Received(h, idx, block) => Deliver(s, h, idx, block).1
    case Mismatched(h) => Reset(s, h)
    case Dropped(h) => Drop(s, h)
  }

  /** One step keeps the invariant, and touches a complete assembly only when its own fetch found a
      mismatch or dropped it. */
  lemma StepKeeps(s: Share, op: Op)
    requires Inv(s) && Enabled(s, op)
    ensures Inv(Apply(s, op)) && Apply(s, op).limit == s.limit
    ensures forall x | x in s.assemblies && Complete(s.assemblies[x]) && op != Mismatched(x) && op != Dropped(x) ::
      x in Apply(s, op).assemblies && Apply(s, op).assemblies[x] == s.assemblies[x]
  {
    match op
    case Attached(size) => AddPrivateKeeps(s, size);
    case Refetch(size) => AddPrivateKeeps(s, size);
    case Received(h, idx, block) =>
      if |block| == PieceLen(s.assemblies[h].size, idx) {
        StoreKeeps(s, h, idx, block);
        StoreOutcome(s, h, idx, block);
      }
    case Mismatched(h) => ResetKeeps(s, h);
    case Dropped(h) => DropKeeps(s, h);
  }

  function Fresh(limit: nat): Share { Share(limit, 0, map[], [], None, 0) }

  ghost predicate Next(s: Share, op: Op, t: Share) { Inv(s) && Enabled(s, op) && t == Apply(s, op) }

  ghost predicate Run(limit: nat, ss: seq<Share>, ops: seq<Op>) {
    && |ss| == |ops| + 1 && ss[0] == Fresh(limit)
    && forall i | 0 <= i < |ops| :: Next(ss[i], ops[i], ss[i + 1])
  }

  /** Over every run the counter equals the stored bytes of the live assemblies and stays in the limit. */
  lemma {:induction false} AlwaysBalanced(limit: nat, ss: seq<Share>, ops: seq<Op>, i: nat)
    requires Run(limit, ss, ops) && i < |ss|
    ensures Inv(ss[i]) && ss[i].limit == limit
    ensures ss[i].used == Total(ss[i].assemblies, ss[i].order) <= limit
  {
    if i == 0 {
    } else {
      AlwaysBalanced(limit, ss, ops, i - 1);
      assert Next(ss[i - 1], ops[i - 1], ss[i]);
      StepKeeps(ss[i - 1], ops[i - 1]);
    }
  }

  // ----- sharing -----

  /** A fetch whose size is that of the shared assembly works on it; any other gets a new and empty one,
      which is the shared one if there was none. */
  lemma AttachExactly(s: Share, size: nat)
    requires Inv(s)
    ensures var (h, t) := Attach(s, size);
            if s.current.Some? && s.assemblies[s.current.value].size == size then h == s.current.value && t == s
            else
              && h !in s.assemblies && t.used == s.used && t.limit == s.limit
              && t.assemblies.Keys == s.assemblies.Keys + {h}
              && (forall x | x in s.assemblies :: t.assemblies[x] == s.assemblies[x])
              && t.assemblies[h].size == size && |t.assemblies[h].pieces| == (size + 16383) / 16384
              && (forall i | 0 <= i < |t.assemblies[h].pieces| :: t.assemblies[h].pieces[i].None?)
              && t.current == (if s.current.None? then Some(h) else s.current)
  {
  }

  lemma {:induction false} CurrentStays(limit: nat, ss: seq<Share>, ops: seq<Op>, i: nat, j: nat)
    requires Run(limit, ss, ops) && i <= j < |ss| && ss[i].current.Some? && ss[i].current.value in ss[i].assemblies
    ensures ss[j].current == ss[i].current && ss[j].current.value in ss[j].assemblies
    ensures ss[j].assemblies[ss[j].current.value].size == ss[i].assemblies[ss[i].current.value].size
    decreases j
  {
    if i == j {
    } else {
      CurrentStays(limit, ss, ops, i, j - 1);
      assert Next(ss[j - 1], ops[j - 1], ss[j]);
      hide Run;
      CurrentKept(ss[j - 1], ops[j - 1]);
    }
  }

  lemma CurrentKept(s: Share, op: Op)
    requires Inv(s) && Enabled(s, op) && s.current.Some?
    ensures var t := Apply(s, op);
            && t.current == s.current && s.current.value in s.assemblies && s.current.value in t.assemblies
            && t.assemblies[s.current.value].size == s.assemblies[s.current.value].size
  {
    match op
    case Received(h, idx, block) => StoreOutcome(s, h, idx, block);
    case Attached(size) => AttachExactly(s, size);
    case _ =>
  }

  /** In every run, fetches of the size the first one had all work on the same assembly. */
  lemma SameSizeShares(limit: nat, ss: seq<Share>, ops: seq<Op>, i: nat, j: nat, size: nat)
    requires Run(limit, ss, ops) && i < j < |ops| && ops[i] == ops[j] == Attached(size)
    requires ss[i].current.None?
    ensures Attach(ss[j], size).0 == Attach(ss[i], size).0
    ensures Attach(ss[j], size).1 == ss[j]
  {
    assert Next(ss[i], ops[i], ss[i + 1]) && Next(ss[j], ops[j], ss[j + 1]);
    AttachExactly(ss[i], size);
    CurrentStays(limit, ss, ops, i + 1, j);
    AttachExactly(ss[j], size);
  }
}
