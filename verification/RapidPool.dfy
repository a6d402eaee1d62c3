// The free-list allocator of include/dmrapidpool.h.

module RapidPool {
  import opened TimerElements

  lemma {:induction false} SetOfSeq(s: seq<TimerElement>)
    requires forall i, j :: 0 <= i < j < |s| ==> s[i].position != s[j].position
    ensures |set c | c in s| == |s|
  {
    if s != [] {
      var t := s[..|s| - 1];
      SetOfSeq(t);
      assert (set c | c in s) == (set c | c in t) + {s[|s| - 1]};
    }
  }

  /**
   * CDMRapidPool: S cells, the unused ones threaded through dwFlag from wFirstFlag.  The two header
   * fields that change are kept beside the cells, at the same positions.
   */
  class Pool {
    const S: nat
    const wIndex: nat
    const cells: seq<TimerElement>
    var dwUse: seq<bool>
    var dwFlag: seq<nat>
    var wFirstFlag: nat
    var nFreeCount: int
    // the unused slots, the next one to hand out last, and where in that stack each of them is
    ghost var free: seq<nat>
    ghost var rank: seq<nat>

    ghost const all: set<TimerElement>
    ghost var used: set<TimerElement>

    ghost predicate CellsOk() {
      && 0 < S < 65535 && |cells| == S
      && (forall i :: 0 <= i < S ==> cells[i].position == i && cells[i] in all)
      && (forall c {:trigger c.dwIndex} :: c in all ==> c.dwIndex == wIndex)
      && (forall c {:trigger c.position} :: c in all ==> c.position < S && cells[c.position] == c)
      && |all| == S
    }

    ghost predicate Valid()
      reads this
    {
      && CellsOk()
      && |dwUse| == S && |dwFlag| == S
      && used <= all
      && (forall i {:trigger dwUse[i]} :: 0 <= i < S ==> (dwUse[i] <==> cells[i] in used))
      && nFreeCount == |free|
      && wFirstFlag == Top(|free|)
      && |rank| == S
      && (forall k :: 0 <= k < |free| ==> 0 <= free[k] < S && !dwUse[free[k]] && rank[free[k]] == k)
      && (forall i {:trigger dwUse[i]} :: 0 <= i < S && !dwUse[i] ==> rank[i] < |free| && free[rank[i]] == i)
      && (|free| > 0 ==> dwFlag[free[0]] == S)
      && (forall k, l {:trigger free[k], free[l]} :: 0 <= k && l == k + 1 < |free| ==>
            dwFlag[free[l]] == free[k])
    }

    /** The uppermost of the n slots at the bottom of the stack; below them all comes S. */
    ghost function Top(n: nat): nat
      requires n <= |free|
      reads `free
    {
      if n > 0 then free[n - 1] else S
    }

    constructor (size: nat, index: nat)
      requires 0 < size < 65535
      ensures Valid() && S == size && wIndex == index
      ensures nFreeCount == size && used == {} && fresh(all)
    {
      S, wIndex := size, index;
      var made := MakeCells(size, index);
      cells := made;
      wFirstFlag, nFreeCount := 0, size;
      dwUse := seq(size, i => false);
      dwFlag := seq(size, i => i + 1);
      free := seq(size, i => size - 1 - i);
      rank := seq(size, i => size - 1 - i);
      all := set c | c in made;
      used := {};
    }

    static method MakeCells(size: nat, index: nat) returns (made: seq<TimerElement>)
      ensures |made| == size && |set c | c in made| == size && fresh(made)
      ensures forall k :: 0 <= k < size ==> made[k].position == k && made[k].dwIndex == index && made[k] in made
    {
      made := [];
      for i := 0 to size
        invariant |made| == i
        invariant forall k :: 0 <= k < i ==>
          fresh(made[k]) && made[k].dwIndex == index && made[k].position == k
      {
        var c := new TimerElement(index, i);
        made := made + [c];
      }
      assert forall k :: 0 <= k < size ==> made[k] in made;
      SetOfSeq(made);
    }

    predicate Empty()
      reads `nFreeCount
    {
      nFreeCount == 0
    }

    predicate IsFull()
      reads `nFreeCount
    {
      nFreeCount == S
    }

    /** Hands out the head of the free list, constructed afresh. */
    method FetchObj() returns (obj: TimerElement?)
      requires Valid()
      modifies this, all - used
      ensures Valid()
      ensures obj == null <==> old(nFreeCount) == 0
      ensures obj == null ==> used == old(used)
      ensures obj != null ==>
        && obj in all && obj !in old(used) && obj.IsReset()
        && used == old(used) + {obj}
        && obj.position == old(wFirstFlag) && old(free) == free + [obj.position]
    {
      if nFreeCount <= 0 {
        return null;
      }
      var p := cells[wFirstFlag];
      assert p in all - used;
      dwUse := dwUse[wFirstFlag := true];
      wFirstFlag := dwFlag[wFirstFlag];
      nFreeCount := nFreeCount - 1;
      p.Reset();
      free := free[..|free| - 1];
      used := used + {p};
      return p;
    }

    method ReleaseObj(obj: TimerElement)
      requires Valid() && obj in used
      modifies this, obj
      ensures Valid() && obj.IsReset()
      ensures used == old(used) - {obj}
      ensures free == old(free) + [obj.position]
    {
      var at := obj.position;
      dwFlag := dwFlag[at := wFirstFlag];
      wFirstFlag := at;
      nFreeCount := nFreeCount + 1;
      dwUse := dwUse[at := false];
      obj.Reset();
      rank := rank[at := |free|];
      free := free + [at];
      used := used - {obj};
    }

    lemma EmptyMeansAllUsed()
      requires Valid() && nFreeCount == 0
      ensures used == all
    {
      forall c | c in all
        ensures c in used
      {
        assert dwUse[c.position];
      }
    }

    /** Conservation: a cell is either handed out or counted as free. */
    lemma FreeCount()
      requires Valid()
      ensures nFreeCount == S - |used|
    {
      var slots, at := free, cells;
      var unused: seq<TimerElement> :=
        seq(|slots|, k requires 0 <= k < |slots| && 0 <= slots[k] < |at| => at[slots[k]]);
      forall c | c in all - used
        ensures c in unused
      {
        assert !dwUse[c.position];
        assert unused[rank[c.position]] == c;
      }
      forall c | c in unused
        ensures c in all - used
      {
        var k :| 0 <= k < |slots| && unused[k] == c;
        assert !dwUse[slots[k]];
      }
      assert forall k :: 0 <= k < |slots| ==> unused[k].position == slots[k] && rank[slots[k]] == k;
      SetOfSeq(unused);
      var rest := all - used;
      assert (set c | c in unused) == rest;
      assert all == used + rest && used * rest == {};
      assert |all| == |used| + |rest|;
    }

    /** The slot reached from wFirstFlag by following dwFlag n times. */
    ghost function Walk(n: nat): nat
      reads this
    {
      if n == 0 then wFirstFlag
      else if Walk(n - 1) < |dwFlag| then dwFlag[Walk(n - 1)] else Walk(n - 1)
    }

    lemma {:induction false} WalkIsFree(n: nat)
      requires Valid() && n <= |free|
      ensures Walk(n) == Top(|free| - n)
    {
      if n > 0 {
        WalkIsFree(n - 1);
        var l := |free| - n;
        assert l > 0 ==> dwFlag[free[l]] == free[l - 1];
      }
    }

    /** Slot i is met on the first nFreeCount hops. */
    ghost predicate OnWalk(i: nat)
      reads this
    {
      exists n: nat :: n < nFreeCount && Walk(n) == i
    }

    lemma WalkMeets(i: nat)
      requires Valid() && i < S && !dwUse[i]
      ensures OnWalk(i)
    {
      WalkIsFree(|free| - 1 - rank[i]);
    }

    /**
     * The walk along dwFlag takes nFreeCount hops through distinct unused slots, meets every unused slot,
     * and then reaches S; every link fits 16 bits.
     */
    lemma FreeListWalk()
      requires Valid()
      ensures 0 <= nFreeCount && Walk(nFreeCount) == S
      ensures forall n: nat :: n <= nFreeCount ==> Walk(n) < 65536
      ensures forall n: nat :: n < nFreeCount ==> Walk(n) < S && !dwUse[Walk(n)]
      ensures forall m: nat, n: nat :: m < n < nFreeCount ==> Walk(m) != Walk(n)
      ensures forall i :: 0 <= i < S && !dwUse[i] ==> OnWalk(i)
    {
      forall n: nat | n <= nFreeCount
        ensures Walk(n) == Top(|free| - n)
      {
        WalkIsFree(n);
      }
      forall i | 0 <= i < S && !dwUse[i]
        ensures OnWalk(i)
      {
        WalkMeets(i);
      }
    }
  }
}
