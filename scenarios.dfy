/** The test list of buddy_allocator.cc, stated and proved for the model:
    on a fresh 4096-byte arena, 4096 requests of 1 byte succeed and the next
    fails;
    likewise 1024 requests of 4 bytes, 512 of 5 bytes (served as 8) and one
    of 4096 bytes; freeing every chunk restores the fresh allocator, so the
    list can be repeated with the same outcome. */
module Scenarios {
  import opened Wrappers
  import opened Powers
  import opened Blocks
  import opened Bookkeeping
  import opened Operations
  import opened Allocator

  /** No set below order k holds an offset. */
  predicate EmptyBelow(lists: seq<set<int>>, k: nat)
  {
    forall i :: 0 <= i < k && i < |lists| ==> lists[i] == {}
  }

  /** The arena offsets of the addresses in `addrs`. */
  function Offsets(addrs: seq<int>, base: int): (r: set<int>)
    ensures |r| <= |addrs|
  {
    if addrs == [] then {} else {addrs[0] - base} + Offsets(addrs[1..], base)
  }

  lemma {:induction false} OffsetsAppend(addrs: seq<int>, x: int, base: int)
    ensures Offsets(addrs + [x], base) == Offsets(addrs, base) + {x - base}
  {
    var t := addrs + [x];
    if addrs == [] {
      assert t[1..] == [];
    } else {
      assert t[0] == addrs[0] && t[1..] == addrs[1..] + [x];
      OffsetsAppend(addrs[1..], x, base);
    }
  }

  /** Freeing the first of distinct order-k addresses, when only they are in
      use, leaves the rest of them in use. */
  lemma {:induction false} FreeShrinks(n: nat, free: seq<set<int>>, used: seq<set<int>>, k: nat,
                                       addrs: seq<int>, i: nat, base: int)
    requires Inv(n, free, used) && k <= n && i < |addrs|
    requires used == InitialUsed(n)[k := Offsets(addrs[i..], base)]
    requires |Offsets(addrs[i..], base)| == |addrs| - i
    ensures Release(n, free, used, addrs[i] - base).1 == InitialUsed(n)[k := Offsets(addrs[i + 1..], base)]
    ensures |Offsets(addrs[i + 1..], base)| == |addrs| - i - 1
  {
    var o := addrs[i] - base;
    var rest := Offsets(addrs[i + 1..], base);
    assert addrs[i..][1..] == addrs[i + 1..];
    assert Offsets(addrs[i..], base) == {o} + rest;
    assert o !in rest;
    ReleaseUsed(n, free, used, k, o);
    assert used[k] - {o} == rest;
    assert used[k := used[k] - {o}] == InitialUsed(n)[k := rest];
  }

  /** When only order k holds chunks, they cover |lists[k]| * 2^k bytes. */
  lemma {:induction false} BytesAtOne(lists: seq<set<int>>, k: nat)
    requires k < |lists| && forall i :: 0 <= i < |lists| && i != k ==> lists[i] == {}
    ensures Bytes(lists) == |lists[k]| * Pow2(k)
  {
    var last := |lists| - 1;
    var front := lists[..last];
    if k == last {
      assert forall i :: 0 <= i < |front| ==> front[i] == {};
      BytesZero(front);
    } else {
      assert lists[last] == {};
      BytesAtOne(front, k);
    }
  }

  lemma MulCancel(a: int, b: int, d: int)
    requires d > 0 && a * d == b * d
    ensures a == b
  {
    if a < b {
      MulMonotone(a + 1, b, d);
    } else if b < a {
      MulMonotone(b + 1, a, d);
    }
  }

  /** On an arena whose chunks in use are all of order k and which has
      nothing free below k, a request of order k fails only when the chunks
      in use cover the whole arena. */
  lemma FillFails(n: nat, free: seq<set<int>>, used: seq<set<int>>, numBytes: int, s: set<int>)
    requires Inv(n, free, used) && numBytes >= 1 && Order(numBytes) <= n
    requires EmptyBelow(free, Order(numBytes)) && used == InitialUsed(n)[Order(numBytes) := s]
    requires Allocation(n, free, used, numBytes).None?
    ensures |s| == Pow2(n - Order(numBytes))
  {
    var k := Order(numBytes);
    assert forall i :: 0 <= i < |free| ==> free[i] == {};
    BytesZero(free);
    BytesAtOne(used, k);
    Pow2Add(n - k, k);
    MulCancel(|s|, Pow2(n - k), Pow2(k));
  }

  /** A request of order k that succeeds leaves nothing free below k when
      nothing was free below k before. */
  lemma FillKeepsEmpty(n: nat, free: seq<set<int>>, used: seq<set<int>>, numBytes: int)
    requires Inv(n, free, used) && numBytes >= 1 && EmptyBelow(free, Order(numBytes))
    requires Allocation(n, free, used, numBytes).Some?
    ensures EmptyBelow(Allocation(n, free, used, numBytes).value.free, Order(numBytes))
  {
    var k := Order(numBytes);
    var g := Allocation(n, free, used, numBytes).value;
    var j := FirstFree(free, k).value;
    var taken := free[j := free[j] - {g.offset}];
    assert g.free == Split(taken, j, k, g.offset);
    forall i | 0 <= i < k && i < |g.free|
      ensures g.free[i] == {}
    {
      assert g.free[i] == taken[i] == free[i];
    }
  }

  /** On an arena whose chunks in use are the order-k chunks at the distinct
      addresses `addrs`, a request of order k that succeeds at address x
      hands out an offset not yet in use, so the chunks in use are those at
      addrs + [x], still distinct. */
  lemma FillGrows(n: nat, free: seq<set<int>>, used: seq<set<int>>, numBytes: int,
                  addrs: seq<int>, base: int, x: int)
    requires Inv(n, free, used) && numBytes >= 1 && Order(numBytes) <= n
    requires used == InitialUsed(n)[Order(numBytes) := Offsets(addrs, base)]
    requires |Offsets(addrs, base)| == |addrs|
    requires Allocation(n, free, used, numBytes).Some?
    requires x == base + Allocation(n, free, used, numBytes).value.offset
    ensures Allocation(n, free, used, numBytes).value.used
      == InitialUsed(n)[Order(numBytes) := Offsets(addrs + [x], base)]
    ensures |Offsets(addrs + [x], base)| == |addrs| + 1
  {
    var k := Order(numBytes);
    var s := Offsets(addrs, base);
    var g := Allocation(n, free, used, numBytes).value;
    var o := g.offset;
    assert g.used == used[k := s + {o}];
    assert x - base == o;
    OffsetsAppend(addrs, x, base);
    assert g.used == InitialUsed(n)[k := s + {o}];
    assert o !in s by {
      AllocationFresh(n, free, used, numBytes);
    }
  }

  /** When every chunk in use has order k, there are at most 2^(n-k) of them. */
  lemma ShapeBound(n: nat, free: seq<set<int>>, used: seq<set<int>>, k: nat, s: set<int>)
    requires Inv(n, free, used) && k <= n && used == InitialUsed(n)[k := s]
    ensures |s| <= Pow2(n - k)
  {
    BytesAtOne(used, k);
    FitCount(|s|, k, n);
  }

  /** c chunks of 2^k bytes fit in 2^n bytes only if c <= 2^(n-k). */
  lemma FitCount(c: nat, k: nat, n: nat)
    requires k <= n && c * Pow2(k) <= Pow2(n)
    ensures c <= Pow2(n - k)
  {
    Pow2Add(n - k, k);
    if c > Pow2(n - k) {
      MulMonotone(Pow2(n - k) + 1, c, Pow2(k));
    }
  }

  /** Requests numBytes bytes from a fresh allocator until a request fails,
      returning the addresses handed out.  The arena holds exactly
      2^(logSize - Order(numBytes)) such chunks; the failed request is the
      one after the last. */
  method FillArena(a: BuddyAllocator, numBytes: int) returns (addrs: seq<int>)
    requires a.Valid() && numBytes >= 1 && Order(numBytes) <= a.logSize
    requires a.free == InitialFree(a.logSize) && a.used == InitialUsed(a.logSize)
    modifies a
    ensures a.Valid()
    ensures |addrs| == Pow2(a.logSize - Order(numBytes))
    ensures a.used == InitialUsed(a.logSize)[Order(numBytes) := Offsets(addrs, a.base)]
    ensures |Offsets(addrs, a.base)| == |addrs|
    ensures Allocation(a.logSize, a.free, a.used, numBytes).None?
  {
    var n, k := a.logSize, Order(numBytes);
    assert InitialUsed(n)[k := {}] == InitialUsed(n);
    addrs := [];
    while true
      invariant a.Valid() && EmptyBelow(a.free, k)
      invariant a.used == InitialUsed(n)[k := Offsets(addrs, a.base)]
      invariant |Offsets(addrs, a.base)| == |addrs| <= Pow2(n - k)
      decreases Pow2(n - k) - |addrs|
    {
      ghost var free0, used0 := a.free, a.used;
      ghost var s := Offsets(addrs, a.base);
      var r := a.Allocate(numBytes);
      if r == None {
        FillFails(n, free0, used0, numBytes, s);
        return;
      }
      FillKeepsEmpty(n, free0, used0, numBytes);
      FillGrows(n, free0, used0, numBytes, addrs, a.base, r.value);
      addrs := addrs + [r.value];
      ShapeBound(n, a.free, a.used, k, Offsets(addrs, a.base));
    }
  }

  /** Frees every address in `addrs`, which were handed out at one order
      from an otherwise empty arena; the allocator ends up as fresh. */
  method FreeAll(a: BuddyAllocator, addrs: seq<int>, k: nat)
    requires a.Valid() && k <= a.logSize
    requires a.used == InitialUsed(a.logSize)[k := Offsets(addrs, a.base)]
    requires |Offsets(addrs, a.base)| == |addrs|
    modifies a
    ensures a.Valid()
    ensures a.free == InitialFree(a.logSize) && a.used == InitialUsed(a.logSize)
  {
    var n := a.logSize;
    var i := 0;
    while i < |addrs|
      invariant 0 <= i <= |addrs| && a.Valid()
      invariant a.used == InitialUsed(n)[k := Offsets(addrs[i..], a.base)]
      invariant |Offsets(addrs[i..], a.base)| == |addrs| - i
    {
      FreeShrinks(n, a.free, a.used, k, addrs, i, a.base);
      a.Free(addrs[i]);
      i := i + 1;
    }
    assert addrs[i..] == [];
    AllFreed(n, a.free, a.used, k);
  }

  /** Once no chunk of order k is left in use, the allocator is fresh. */
  lemma AllFreed(n: nat, free: seq<set<int>>, used: seq<set<int>>, k: nat)
    requires Inv(n, free, used) && k <= n && used == InitialUsed(n)[k := {}]
    ensures free == InitialFree(n) && used == InitialUsed(n)
  {
    assert used == InitialUsed(n);
    FreeingAllRestores(n, free, used);
  }

  /** Tests 1 to 4 of the list on a fresh 4096-byte allocator: for requests
      of 1, 4, 5 and 4096 bytes, the number of requests that succeed before
      the first failure, with every chunk freed after each test. */
  method RunList(a: BuddyAllocator) returns (counts: seq<int>)
    requires a.Valid() && a.logSize == 12
    requires a.free == InitialFree(12) && a.used == InitialUsed(12)
    modifies a
    ensures a.Valid() && a.free == InitialFree(12) && a.used == InitialUsed(12)
    ensures counts == [4096, 1024, 512, 1]
  {
    SizeOrders();
    ChunkCounts();
    var ones := FillArena(a, 1);
    assert |ones| == 4096;
    FreeAll(a, ones, 0);
    var fours := FillArena(a, 4);
    assert |fours| == 1024;
    FreeAll(a, fours, 2);
    var fives := FillArena(a, 5);
    assert |fives| == 512;
    FreeAll(a, fives, 3);
    var whole := FillArena(a, 4096);
    assert |whole| == 1;
    FreeAll(a, whole, 12);
    counts := [|ones|, |fours|, |fives|, |whole|];
  }

  /** The whole test list on a 4096-byte arena at address `base`: tests 1
      to 4, then, with everything freed, tests 1 to 4 again. */
  method TestList(base: int) returns (counts: seq<int>)
    ensures counts == [4096, 1024, 512, 1, 4096, 1024, 512, 1]
  {
    var a := new BuddyAllocator(12, base);
    var first := RunList(a);
    var again := RunList(a);
    counts := first + again;
  }

  /** The orders of the test list's request sizes: 1 byte is order 0, 4
      bytes order 2, 5 bytes order 3 (an 8-byte chunk), 4096 bytes order 12. */
  lemma SizeOrders()
    ensures Order(1) == 0 && Order(4) == 2 && Order(5) == 3 && Order(4096) == 12
  {
    ChunkCounts();
    OrderOfPow2(0);
    OrderOfPow2(2);
    OrderOfPow2(12);
    OrderIsLeast(5, 3);
  }

  /** The chunk counts of a 4096-byte arena for those orders. */
  lemma ChunkCounts()
    ensures Pow2(0) == 1 && Pow2(2) == 4 && Pow2(3) == 8
    ensures Pow2(9) == 512 && Pow2(10) == 1024 && Pow2(12) == 4096
  {
  }
}
