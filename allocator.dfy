/** The BuddyAllocator class of buddy_allocator.cc: a 2^logSize-byte arena
    handed out in power-of-two chunks, with one set of free and one set of
    used chunk offsets per order.  Allocate and Free update the sets in place
    and are proved to compute what Operations.Allocation and
    Operations.Release specify, keeping the allocator's invariant. */
module Allocator {
  import opened Wrappers
  import opened Powers
  import opened Blocks
  import opened Bookkeeping
  import opened Operations

  /** The lowest order at or above k whose free set is not empty, found by
      scanning upwards. */
  method FindFree(free: seq<set<int>>, k: nat) returns (j: Option<nat>)
    ensures j == FirstFree(free, k)
  {
    var i := k;
    while i < |free| && free[i] == {}
      invariant k <= i
      invariant forall m :: k <= m < i && m < |free| ==> free[m] == {}
      decreases |free| - i
    {
      i := i + 1;
    }
    j := if i < |free| then Some(i) else None;
  }

  /** The order at which `o` is in use, found by scanning upwards from 0. */
  method FindUsed(used: seq<set<int>>, o: int) returns (j: Option<nat>)
    ensures j == UsedOrder(used, o, 0)
  {
    var i := 0;
    while i < |used| && o !in used[i]
      invariant 0 <= i <= |used|
      invariant forall m :: 0 <= m < i ==> o !in used[m]
    {
      i := i + 1;
    }
    j := if i < |used| then Some(i) else None;
  }

  /** The split cascade: the chunk at `o`, of order j, is halved down to
      order k; each halving lists the upper half as free. */
  method Carve(free: seq<set<int>>, j: nat, k: nat, o: int) returns (r: seq<set<int>>)
    requires k <= j < |free|
    ensures r == Split(free, j, k, o)
  {
    r := free;
    var i := j;
    while i > k
      invariant k <= i <= j && |r| == |free|
      invariant Split(r, i, k, o) == Split(free, j, k, o)
    {
      r := r[i - 1 := r[i - 1] + {o + Pow2(i - 1)}];
      i := i - 1;
    }
  }

  /** The merge cascade: the chunk at `c`, of order k, absorbs its buddy
      while the buddy is free, and the merged chunk is listed free. */
  method Merge(free: seq<set<int>>, n: nat, k: nat, c: int) returns (r: seq<set<int>>)
    requires |free| == n + 1 && k <= n
    ensures r == Coalesce(free, n, k, c)
  {
    r := free;
    var i, p := k, c;
    while i < n && Buddy(p, i) in r[i]
      invariant k <= i <= n && |r| == n + 1
      invariant Coalesce(r, n, i, p) == Coalesce(free, n, k, c)
      decreases n - i
    {
      r := r[i := r[i] - {Buddy(p, i)}];
      p := Parent(p, i);
      i := i + 1;
    }
    r := r[i := r[i] + {p}];
  }

  class BuddyAllocator {
    /** The arena; its contents are never read or written by the allocator. */
    const buffer: array<char>
    /** log2 of the arena size, which is also the highest order. */
    const logSize: nat
    /** The address of the arena's first byte; addresses are base + offset. */
    const base: int
    /** used[k]: offsets of the chunks of 2^k bytes that are in use. */
    var used: seq<set<int>>
    /** free[k]: offsets of the chunks of 2^k bytes that are free. */
    var free: seq<set<int>>

    ghost predicate Valid()
      reads this
    {
      buffer.Length == Pow2(logSize) && Inv(logSize, free, used)
    }

    /** An allocator whose whole arena is one free chunk.  `logSize` is at
        most 30 so that the arena size fits a 32-bit int; `base` stands for
        the address of the buffer's first byte. */
    constructor (logSize: nat, base: int)
      requires logSize <= 30
      ensures Valid()
      ensures this.logSize == logSize && this.base == base && fresh(buffer)
      ensures free == InitialFree(logSize) && used == InitialUsed(logSize)
    {
      buffer := new char[Pow2(logSize)](_ => '0');
      this.logSize := logSize;
      this.base := base;
      used := InitialUsed(logSize);
      free := InitialFree(logSize);
      InitialInv(logSize);
    }

    /** Allocates a chunk of at least numBytes bytes and returns its address,
        or None (the null pointer) when the request exceeds the arena or no
        free chunk is large enough; a failed request changes nothing. */
    method Allocate(numBytes: int) returns (addr: Option<int>)
      requires Valid() && numBytes >= 1
      modifies this
      ensures Valid()
      ensures match Allocation(logSize, old(free), old(used), numBytes)
        case None => addr == None && free == old(free) && used == old(used)
        case Some(g) => addr == Some(base + g.offset) && free == g.free && used == g.used
    {
      var k := Order(numBytes);
      if k > logSize {
        return None;
      }
      var j := FindFree(free, k);
      if j == None {
        return None;
      }
      var o := Least(free[j.value]);
      AllocateKeeps(logSize, free, used, j.value, k, o);
      free := Carve(free[j.value := free[j.value] - {o}], j.value, k, o);
      used := used[k := used[k] + {o}];
      addr := Some(base + o);
    }

    /** Frees the chunk at `addr`, merging it with its buddy while the buddy
        is free.  An address that is not in use changes nothing. */
    method Free(addr: int)
      requires Valid()
      modifies this
      ensures Valid()
      ensures (free, used) == Release(logSize, old(free), old(used), addr - base)
    {
      var o := addr - base;
      var k := FindUsed(used, o);
      if k == None {
        return;
      }
      ReleaseKeeps(logSize, free, used, o);
      used := used[k.value := used[k.value] - {o}];
      free := Merge(free, logSize, k.value, o);
    }
  }
}
