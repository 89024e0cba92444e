/**
 * The fixed buffer pool (memory_pool.hpp): a ring of `N` slot handles. A
 * slot either holds a buffer (`Some`) or is empty (`None`); `Take` hands out
 * the buffer at `tail`, `Give` puts a returned buffer back at `head`.
 */
module MemoryPool {
  import opened Wrappers

  /** Buffers in the pool the engine uses, and the byte size of each. */
  const MAX_NUMBER_OF_MESSAGE := 500
  const MAX_MESSAGE_SIZE := 261

  /** A pool buffer, named by the slot it is created in. */
  type BufId = nat

  class Pool {
    /** PoolSize: the number of slots, and of buffers. */
    const N: nat
    const slots: array<Option<BufId>>
    var size: nat
    var head: nat
    var tail: nat

    /** The buffers `Take` can hand out, the one at `tail` first. */
    ghost var Free: seq<BufId>
    /** Successful takes and gives over the pool's lifetime. */
    ghost var takes: nat
    ghost var gives: nat

    /** How far slot `i` lies after `tail` around the ring. */
    function Offset(i: nat): nat
      reads this
      requires i < N && tail < N
    {
      if i >= tail then i - tail else i + N - tail
    }

    /**
     * The occupied slots are exactly the `size` consecutive slots starting at
     * `tail`, holding `Free` in order, and `head` is the slot after them; every
     * buffer not in the pool has been taken and not yet given back.
     */
    ghost predicate Valid()
      reads this, slots
    {
      && slots.Length == N
      && size <= N
      && |Free| == size
      && (N == 0 ==> head == 0 && tail == 0)
      && (N > 0 ==> tail < N && head == (if tail + size < N then tail + size else tail + size - N))
      && (forall i :: 0 <= i < N ==>
            (Offset(i) < size ==> slots[i] == Some(Free[Offset(i)])) &&
            (Offset(i) >= size ==> slots[i] == None))
      && takes - gives == N - size
    }

    /** `_next_index`: the ring successor of a slot index. */
    function NextIndex(index: nat): (r: nat)
      reads this
      requires N > 0
      ensures r < N
      ensures index < N ==> r == (if index == N - 1 then 0 else index + 1)
    {
      (index + 1) % N
    }

    /** A fresh pool: every slot holds its own buffer, `size == N`, `head == tail == 0`. */
    constructor (n: nat)
      ensures Valid() && N == n && fresh(slots)
      ensures size == n && head == 0 && tail == 0
      ensures forall i :: 0 <= i < n ==> slots[i] == Some(i)
      ensures Free == seq(n, i => i)
      ensures takes == 0 && gives == 0
    {
      N := n;
      var a := new Option<BufId>[n];
      var k := 0;
      while k < n
        invariant k <= n
        invariant forall i :: 0 <= i < k ==> a[i] == Some(i)
      {
        a[k] := Some(k);
        k := k + 1;
      }
      slots := a;
      size, head, tail := n, 0, 0;
      Free := seq(n, i => i);
      takes, gives := 0, 0;
    }

    /**
     * `_take`: nothing when the pool is empty; otherwise the buffer at `tail`,
     * whose slot becomes empty, and `tail` moves one slot on.
     */
    method Take() returns (b: Option<BufId>)
      requires Valid()
      modifies this, slots
      ensures Valid() && gives == old(gives)
      ensures old(size) == 0 ==>
        && b == None
        && size == 0 && head == old(head) && tail == old(tail)
        && slots[..] == old(slots[..]) && Free == old(Free) && takes == old(takes)
      ensures old(size) > 0 ==>
        && b == old(slots[tail]) && b == Some(old(Free)[0])
        && slots[..] == old(slots[..])[old(tail) := None]
        && tail == NextIndex(old(tail)) && head == old(head) && size == old(size) - 1
        && Free == old(Free)[1..] && takes == old(takes) + 1
    {
      if size == 0 {
        return None;
      }
      TailHoldsOldest(this);
      var ref := slots[tail];
      slots[tail] := None;
      tail := NextIndex(tail);
      size := size - 1;
      Free := Free[1..];
      takes := takes + 1;
      b := ref;
      forall i | 0 <= i < N
        ensures (Offset(i) < size ==> slots[i] == Some(Free[Offset(i)])) &&
                (Offset(i) >= size ==> slots[i] == None)
      {
        var j := if i >= old(tail) then i - old(tail) else i + N - old(tail);
        assert j == old(Offset(i));
      }
    }

    /**
     * `_give`: aborts (and so changes nothing) when the pool is already full
     * or the slot at `head` is occupied; otherwise stores the buffer at `head`
     * and moves `head` one slot on.
     */
    method Give(b: BufId) returns (aborted: bool)
      requires Valid()
      modifies this, slots
      ensures Valid() && takes == old(takes)
      ensures aborted == old(size >= N || slots[head].Some?)
      ensures aborted <==> old(|Free|) == N
      ensures aborted ==>
        && size == old(size) && head == old(head) && tail == old(tail)
        && slots[..] == old(slots[..]) && Free == old(Free) && gives == old(gives)
      ensures !aborted ==>
        && slots[..] == old(slots[..])[old(head) := Some(b)]
        && head == NextIndex(old(head)) && tail == old(tail) && size == old(size) + 1
        && Free == old(Free) + [b] && gives == old(gives) + 1
    {
      if size < N {
        HeadEmptyUnlessFull(this);
      }
      if size >= N || slots[head].Some? {
        return true;
      }
      aborted := false;
      slots[head] := Some(b);
      head := NextIndex(head);
      size := size + 1;
      Free := Free + [b];
      gives := gives + 1;
      forall i | 0 <= i < N
        ensures (Offset(i) < size ==> slots[i] == Some(Free[Offset(i)])) &&
                (Offset(i) >= size ==> slots[i] == None)
      {
        assert Offset(i) == old(Offset(i));
      }
    }

    /** AutoGiver: releasing a null handle does nothing; any other handle is given back. */
    method Release(ptr: Option<BufId>) returns (aborted: bool)
      requires Valid()
      modifies this, slots
      ensures Valid() && takes == old(takes)
      ensures ptr.None? ==> !aborted && unchanged(this) && slots[..] == old(slots[..])
      ensures ptr.Some? ==> (aborted <==> old(|Free|) == N)
      ensures ptr.Some? && !aborted ==> Free == old(Free) + [ptr.value] && gives == old(gives) + 1
      ensures ptr.Some? && aborted ==> Free == old(Free) && gives == old(gives)
    {
      if ptr.None? {
        return false;
      }
      aborted := Give(ptr.value);
    }
  }

  /** A non-empty pool holds its oldest free buffer at `tail`, so `_take` never finds a null slot. */
  lemma TailHoldsOldest(p: Pool)
    requires p.Valid() && p.size > 0
    ensures p.slots[p.tail] == Some(p.Free[0])
  {
    assert p.Offset(p.tail) == 0;
  }

  /** Below capacity the slot at `head` is empty: `_give`'s occupied-slot test fires exactly when the pool is full. */
  lemma HeadEmptyUnlessFull(p: Pool)
    requires p.Valid() && p.N > 0
    ensures p.slots[p.head].Some? <==> p.size == p.N
  {
    if p.size < p.N {
      assert p.Offset(p.head) == p.size;
    } else {
      assert p.head == p.tail;
      assert p.Offset(p.head) == 0;
    }
  }

  /** `head` is `(tail + size) % N`. */
  lemma HeadFollowsOccupiedRun(p: Pool)
    requires p.Valid() && p.N > 0
    ensures p.head == (p.tail + p.size) % p.N
  {
  }

  /** Outstanding buffers are takes minus gives; with all `N` out, the pool is empty. */
  lemma Conservation(p: Pool)
    requires p.Valid()
    ensures p.N - |p.Free| == p.takes - p.gives
    ensures p.takes - p.gives == p.N ==> p.size == 0
  {
  }
}
