/** The shared metadata budget in place. */
module MetadataShareState {
  import opened Common
  import opened MetadataBudget

  class ByteBudget {
    const limit: nat
    var used: nat

    constructor (limit: nat)
      ensures this.limit == limit && used == 0
    {
      this.limit, used := limit, 0;
    }

    method Reserve(bytes: nat) returns (granted: bool)
      modifies this
      ensures granted <==> old(used) + bytes <= limit
      ensures used == old(used) + (if granted then bytes else 0)
    {
      granted := used + bytes <= limit;
      if granted {
        used := used + bytes;
      }
    }

    method Release(bytes: nat)
      modifies this
      ensures used == Max(0, old(used) - bytes)
    {
      used := if used >= bytes then used - bytes else 0;
    }
  }

  class MetadataShare {
    const budget: ByteBudget
    var assemblies: map<nat, Assembly>
    var order: seq<nat>
    var current: Option<nat>
    var next: nat

    ghost function Now(): Share
      reads this, budget
    {
      Share(budget.limit, budget.used, assemblies, order, current, next)
    }

    ghost predicate Valid()
      reads this, budget
    {
      Inv(Now())
    }

    constructor (limit: nat)
      ensures Valid() && Now() == Fresh(limit) && fresh(budget)
    {
      budget := new ByteBudget(limit);
      assemblies, order, current, next := map[], [], None, 0;
    }

    /** `Assembly::store`: a piece that is present or out of range needs no room. */
    method StorePiece(h: nat, idx: nat, block: Bytes) returns (ok: bool)
      requires h in assemblies
      modifies `assemblies, budget
      ensures (ok, Now()) == TryStore(old(Now()), h, idx, block)
    {
      var a := assemblies[h];
      if idx < |a.pieces| && a.pieces[idx].None? {
        ok := budget.Reserve(|block|);
        if ok {
          assemblies := assemblies[h := a.(pieces := a.pieces[idx := Some(block)], held := a.held + |block|)];
        }
      } else {
        ok := true;
      }
    }

    method ResetAssembly(h: nat)
      requires h in assemblies
      modifies `assemblies, budget
      ensures Now() == Reset(old(Now()), h)
    {
      var a := assemblies[h];
      budget.Release(a.held);
      assemblies := assemblies[h := a.(pieces := seq(|a.pieces|, _ => None), held := 0)];
    }

    method FindHeaviest(requester: nat) returns (victim: Option<nat>)
      ensures victim == HeaviestOther(assemblies, order, requester)
    {
      victim := None;
      for i := 0 to |order|
        invariant victim == HeaviestOther(assemblies, order[..i], requester)
      {
        assert order[..i + 1][..i] == order[..i];
        var x := order[i];
        if x in assemblies && x != requester {
          var held := Evictable(assemblies[x]);
          if held > 0 && (victim.None? || held >= Evictable(assemblies[victim.value])) {
            victim := Some(x);
          }
        }
      }
      assert order[..|order|] == order;
    }

    /** The eviction loop: ends because every round empties an assembly that held something. */
    method StoreBlock(h: nat, idx: nat, block: Bytes) returns (ok: bool)
      requires h in assemblies
      modifies `assemblies, budget
      ensures (ok, Now()) == Store(old(Now()), h, idx, block)
    {
      ghost var goal := Store(Now(), h, idx, block);
      ok := StorePiece(h, idx, block);
      while !ok
        invariant h in assemblies
        invariant ok ==> goal == (true, Now())
        invariant !ok ==> goal == Store(Now(), h, idx, block) && TryStore(Now(), h, idx, block) == (false, Now())
        decreases if ok then 0 else 1, Total(assemblies, order)
      {
        var victim := FindHeaviest(h);
        if victim.None? {
          return;
        }
        TotalFalls(assemblies, order, victim.value);
        ResetAssembly(victim.value);
        ok := StorePiece(h, idx, block);
      }
    }

    method AddAssembly(size: nat) returns (h: nat)
      modifies `assemblies, `order, `next
      ensures h == old(next) && Now() == AddPrivate(old(Now()), size)
    {
      h := next;
      var live: seq<nat> := [];
      for i := 0 to |order|
        invariant Now() == old(Now()) && live == Live(assemblies, order[..i])
      {
        assert order[..i + 1][..i] == order[..i];
        if order[i] in assemblies {
          live := live + [order[i]];
        }
      }
      assert order[..|order|] == order;
      order := live + [h];
      assemblies := assemblies[h := Empty(size)];
      next := next + 1;
    }

    method AttachTo(size: nat) returns (h: nat)
      requires Valid()
      modifies `assemblies, `order, `next, `current
      ensures Valid() && (h, Now()) == Attach(old(Now()), size)
      ensures h in assemblies && assemblies[h].size == size
    {
      AddPrivateKeeps(Now(), size);
      if current.Some? {
        if assemblies[current.value].size == size {
          return current.value;
        }
        h := AddAssembly(size);
      } else {
        h := AddAssembly(size);
        current := Some(h);
      }
    }

    /** A block off the wire; `ok` is false exactly when the budget is exhausted beyond eviction. */
    method Receive(h: nat, idx: nat, block: Bytes) returns (ok: bool)
      requires Valid() && h in assemblies && idx < |assemblies[h].pieces|
      modifies `assemblies, budget
      ensures Valid() && (ok, Now()) == Deliver(old(Now()), h, idx, block)
      ensures var a := old(assemblies[h]);
              var wanted := |block| == Min(16384, a.size - 16384 * idx) && a.pieces[idx].None?;
              && h in assemblies
              && (ok <==> !wanted || Pinned(old(assemblies), old(order), h) + |block| <= budget.limit)
              && assemblies[h].pieces == if wanted && ok then a.pieces[idx := Some(block)] else a.pieces
    {
      DeliverExactly(Now(), h, idx, block);
      StepKeeps(Now(), Received(h, idx, block));
      hide Store, Inv, Pinned;
      ok := true;
      if |block| == PieceLen(assemblies[h].size, idx) {
        ok := StoreBlock(h, idx, block);
      }
    }

    method Forget(h: nat)
      requires Valid() && h in assemblies && current != Some(h)
      modifies `assemblies, budget
      ensures Valid() && Now() == Drop(old(Now()), h)
    {
      DropKeeps(Now(), h);
      budget.Release(assemblies[h].held);
      assemblies := assemblies - {h};
    }

    method Metadata(h: nat) returns (out: Option<Bytes>)
      requires Valid() && h in assemblies
      ensures out == Assemble(assemblies[h].pieces)
      ensures out.Some? <==> Complete(assemblies[h])
      ensures out.Some? ==> |out.value| == assemblies[h].size
    {
      AssembledWhole(assemblies[h]);
      var pieces := assemblies[h].pieces;
      AssembleNeedsAll(pieces);
      var bytes: Bytes := [];
      for i := 0 to |pieces|
        invariant Assemble(pieces[..i]) == Some(bytes)
      {
        assert pieces[..i + 1][..i] == pieces[..i];
        if pieces[i].None? {
          return None;
        }
        bytes := bytes + pieces[i].value;
      }
      assert pieces[..|pieces|] == pieces;
      out := Some(bytes);
    }
  }
}
