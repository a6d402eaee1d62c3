// CDynamicRapidPool of include/dmrapidpool.h: one pool that is always there and up to I more, each
// created when all before it are used up.

module DynamicPool {
  import opened TimerElements
  import opened RapidPool

  /** Cells in n pools of the given size. */
  function Capacity(size: nat, n: nat): (r: nat) {
    size * n
  }

  lemma CapacityGrows(size: nat, m: nat, n: nat)
    requires m <= n
    ensures Capacity(size, m) <= Capacity(size, n)
  {
    assert size * (n - m) >= 0;
  }

  lemma SubsetSize(a: set<TimerElement>, b: set<TimerElement>)
    requires a <= b
    ensures |a| <= |b|
  {
    assert b == a + (b - a);
  }

  /** The cells are those of the pools; each is in the pool its header names. */
  ghost predicate CellsOf(pools: seq<Pool>, cells: set<TimerElement>, size: nat) {
    && (forall c {:trigger c.dwIndex} :: c in cells ==> c.dwIndex < |pools| && c in pools[c.dwIndex].all)
    && (forall i, c :: 0 <= i < |pools| && c in pools[i].all ==> c in cells)
    && |cells| == Capacity(size, |pools|)
  }

  ghost predicate UsedOf(pools: seq<Pool>, cells: set<TimerElement>, used: set<TimerElement>)
    reads pools
  {
    && used <= cells
    && forall i, c :: 0 <= i < |pools| && c in pools[i].all ==> (c in used <==> c in pools[i].used)
  }

  /** No cell is in two pools. */
  lemma PoolsApart(pools: seq<Pool>, size: nat, index: nat)
    requires forall i :: 0 <= i < |pools| ==> pools[i].CellsOk() && pools[i].wIndex == i && pools[i].S == size
    requires index < |pools|
    ensures forall i, c :: 0 <= i < |pools| && i != index && c in pools[i].all ==> c !in pools[index].all
  {
    forall i, c | 0 <= i < |pools| && i != index && c in pools[i].all
      ensures c !in pools[index].all
    {
      assert c.dwIndex == i;
    }
  }

  lemma CellsGrow(pools: seq<Pool>, cells: set<TimerElement>, size: nat, p: Pool)
    requires CellsOf(pools, cells, size) && p.CellsOk() && p.wIndex == |pools| && p.S == size
    ensures CellsOf(pools + [p], cells + p.all, size)
  {
    forall c | c in cells
      ensures c !in p.all
    {
      assert c.dwIndex != p.wIndex;
    }
  }

  lemma UsedGrow(pools: seq<Pool>, cells: set<TimerElement>, used: set<TimerElement>, size: nat, p: Pool)
    requires CellsOf(pools, cells, size) && UsedOf(pools, cells, used)
    requires p.CellsOk() && p.wIndex == |pools| && p.used == {}
    ensures UsedOf(pools + [p], cells + p.all, used)
  {
    forall c | c in p.all
      ensures c !in used
    {
      assert c.dwIndex == p.wIndex;
    }
  }

  class GrowingPool {
    const S: nat
    const I: nat
    const first: Pool
    const grow: array<Pool?>
    ghost var pools: seq<Pool>
    ghost var cells: set<TimerElement>
    ghost var used: set<TimerElement>
    // every object the pool may change
    ghost var repr: set<object>

    /** The array holds the grown pools as a prefix, and nothing after them. */
    ghost predicate ArrayOk()
      reads this, grow
    {
      && grow.Length == I < 32767
      && 1 <= |pools| <= I + 1
      && pools[0] == first
      && forall i :: 0 <= i < I ==> grow[i] == if i + 1 < |pools| then pools[i + 1] else null
    }

    ghost predicate ReprOk()
      reads this
    {
      this in repr && grow in repr && (forall p :: p in pools ==> p in repr) && cells <= repr
    }

    ghost predicate PoolsOk()
      reads this, pools
    {
      forall i :: 0 <= i < |pools| ==> pools[i].Valid() && pools[i].wIndex == i && pools[i].S == S
    }

    ghost predicate Valid()
      reads this, grow, pools
    {
      0 < S < 65535 && ReprOk() && ArrayOk() && PoolsOk() && CellsOf(pools, cells, S) && UsedOf(pools, cells, used)
    }

    constructor (size: nat, count: nat)
      requires 0 < size < 65535 && count < 32767
      ensures Valid() && S == size && I == count
      ensures used == {} && fresh(repr)
    {
      S, I := size, count;
      var p := new Pool(size, 0);
      first := p;
      var none := new Pool?[count](_ => null);
      grow := none;
      pools := [p];
      cells := p.all;
      used := {};
      new;
      repr := {this, grow, first} + cells;
    }

    /** Takes an object from a pool known to have one. */
    method FetchFrom(p: Pool, ghost index: nat) returns (obj: TimerElement)
      requires Valid() && index < |pools| && p == pools[index] && !p.Empty()
      modifies p, `used, p.all - p.used
      ensures Valid()
      ensures obj in p.all && obj in cells && obj.IsReset() && obj !in old(used)
      ensures used == old(used) + {obj}
    {
      PoolsApart(pools, S, index);
      assert p.used <= p.all && p.nFreeCount > 0;
      hide Pool.Valid, Pool.CellsOk, CellsOf;
      var o := p.FetchObj();
      obj := o;
      used := used + {obj};
    }

    /** Puts a new pool, all of whose cells are unused, into the array. */
    method Attach(i: nat, p: Pool)
      requires Valid() && i + 1 == |pools| <= I
      requires p.Valid() && p.wIndex == i + 1 && p.S == S && p.used == {}
      modifies `pools, `cells, `repr, grow
      ensures Valid() && pools == old(pools) + [p] && repr == old(repr) + {p} + p.all
      ensures cells == old(cells) + p.all
    {
      CellsGrow(pools, cells, S, p);
      UsedGrow(pools, cells, used, S, p);
      hide CellsOf, Pool.Valid;
      grow[i] := p;
      pools := pools + [p];
      cells := cells + p.all;
      repr := repr + {p} + p.all;
    }

    /** Fills the next place of the array with a new pool and takes an object from it. */
    method FetchNew(i: nat) returns (obj: TimerElement)
      requires Valid() && i + 1 == |pools| <= I
      modifies `pools, `cells, `used, `repr, grow
      ensures Valid()
      ensures old(cells) <= cells && fresh(cells - old(cells))
      ensures |pools| == i + 2 && old(pools) <= pools && fresh(pools[i + 1])
      ensures old(repr) <= repr && fresh(repr - old(repr))
      ensures obj in cells && obj.IsReset() && fresh(obj)
      ensures used == old(used) + {obj}
    {
      hide Pool.Valid, PoolsOk, CellsOf, UsedOf, Capacity;
      var p := new Pool(S, i + 1);
      Attach(i, p);
      obj := FetchFrom(p, i + 1);
    }

    /**
     * Hands out a cell that is not in use, growing when every existing pool is used up; it fails only
     * when all S * (I + 1) cells are in use.
     */
    method FetchObj() returns (obj: TimerElement?)
      requires Valid()
      modifies this, grow, pools, cells - used
      ensures Valid()
      ensures old(cells) <= cells && fresh(cells - old(cells))
      ensures old(repr) <= repr && fresh(repr - old(repr))
      ensures obj == null ==> cells == old(cells) && used == old(used)
      ensures obj != null ==>
        && obj in cells && obj !in old(used) && obj.IsReset()
        && used == old(used) + {obj}
      ensures obj == null <==> |old(used)| == Capacity(S, I + 1)
    {
      assert used <= cells;
      assert forall i, c :: 0 <= i < |pools| && c in pools[i].all - pools[i].used ==> c in cells - used;
      hide Pool.Valid, PoolsOk, CellsOf, UsedOf, Capacity;
      if !first.Empty() {
        obj := FetchFrom(first, 0);
        RoomLeft(old(used), obj);
        return;
      }
      for i := 0 to I
        invariant i < |pools|
        invariant forall k :: 0 <= k <= i ==> pools[k].nFreeCount == 0
      {
        if grow[i] == null {
          obj := FetchNew(i);
          RoomLeft(old(used), obj);
          return;
        } else if !grow[i].Empty() {
          obj := FetchFrom(grow[i], i + 1);
          RoomLeft(old(used), obj);
          return;
        }
      }
      AllUsed();
      return null;
    }

    lemma Parts()
      requires Valid()
      ensures used <= cells <= repr && ReprOk()
    {
    }

    /** Every pool satisfies the assertion of its destructor exactly if nothing is in use. */
    lemma FullPools()
      requires Valid()
      ensures (forall p :: p in pools ==> p.IsFull()) <==> used == {}
    {
      assert forall i :: 0 <= i < |pools| ==> pools[i].Valid();
      hide Pool.Valid, CellsOf, ReprOk, ArrayOk, Capacity;
      forall i | 0 <= i < |pools|
        ensures pools[i].IsFull() <==> pools[i].used == {}
      {
        pools[i].FreeCount();
      }
      UsedInPools();
    }

    lemma UsedInPools()
      requires Valid()
      ensures used == {} <==> forall i :: 0 <= i < |pools| ==> pools[i].used == {}
    {
      hide ReprOk, ArrayOk, Capacity;
      forall i, c | 0 <= i < |pools| && c in pools[i].used
        ensures c in used
      {
        assert c in pools[i].all;
      }
      forall c | c in used
        ensures c.dwIndex < |pools| && c in pools[c.dwIndex].used
      {
        HomeOf(c);
      }
    }

    lemma AllUsed()
      requires Valid() && |pools| == I + 1
      requires forall k :: 0 <= k <= I ==> pools[k].nFreeCount == 0
      ensures |used| == Capacity(S, I + 1)
    {
      forall c | c in cells
        ensures c in used
      {
        pools[c.dwIndex].EmptyMeansAllUsed();
      }
      assert used == cells;
    }

    lemma RoomLeft(before: set<TimerElement>, obj: TimerElement)
      requires Valid() && before <= cells && obj in cells - before
      ensures |before| < Capacity(S, I + 1)
    {
      hide PoolsOk, UsedOf;
      SubsetSize(before, cells - {obj});
      CapacityGrows(S, |pools|, I + 1);
    }

    method ReleaseTo(p: Pool, ghost index: nat, obj: TimerElement)
      requires Valid() && index < |pools| && p == pools[index] && obj in p.all && obj in used
      modifies p, `used, obj
      ensures Valid() && obj.IsReset() && used == old(used) - {obj} && p.free == old(p.free) + [obj.position]
    {
      PoolsApart(pools, S, index);
      hide Pool.Valid, Pool.CellsOk, CellsOf;
      p.ReleaseObj(obj);
      used := used - {obj};
    }

    lemma HomeOf(obj: TimerElement)
      requires Valid() && obj in used
      ensures obj.dwIndex < |pools| && obj in pools[obj.dwIndex].all
    {
    }

    /** Gives an object back to the pool its header names; null is ignored. */
    method ReleaseObj(obj: TimerElement?)
      requires Valid() && (obj != null ==> obj in used)
      modifies pools, `used, obj
      ensures Valid() && repr == old(repr)
      ensures obj == null ==> used == old(used) && forall p :: p in pools ==> unchanged(p)
      ensures obj != null ==> obj.IsReset() && used == old(used) - {obj}
      ensures obj != null ==> pools[obj.dwIndex].free == old(pools[obj.dwIndex].free) + [obj.position]
    {
      hide CellsOf, UsedOf, PoolsOk;
      if obj == null {
        return;
      }
      HomeOf(obj);
      var p := first;
      if obj.dwIndex != 0 {
        p := grow[obj.dwIndex - 1];
      }
      ReleaseTo(p, obj.dwIndex, obj);
    }
  }
}
