/** The per-order bookkeeping of buddy_allocator.cc: `free[k]` and `used[k]`
    hold the offsets of the free and the allocated chunks of 2^k bytes.  This
    module states the allocator's invariant over them, the split and merge
    cascades as functions of the lists, and proves that both cascades keep
    the invariant. */
module Bookkeeping {
  import opened Powers
  import opened Blocks

  /** `b` is listed: its offset is in the free set (tagged free) or the used
      set (tagged used) of its order. */
  ghost predicate Member(free: seq<set<int>>, used: seq<set<int>>, b: Block)
  {
    if b.isFree then b.order < |free| && b.offset in free[b.order]
    else b.order < |used| && b.offset in used[b.order]
  }

  /** `s` holds exactly the chunks the lists track. */
  ghost predicate Agrees(free: seq<set<int>>, used: seq<set<int>>, s: set<Block>)
  {
    forall b :: b in s <==> Member(free, used, b)
  }

  /** The chunks the lists track, built order by order. */
  ghost function Chunks(free: seq<set<int>>, used: seq<set<int>>): set<Block>
  {
    (set k: nat, o | k < |free| && o in free[k] :: Block(k, o, true)) +
    (set k: nat, o | k < |used| && o in used[k] :: Block(k, o, false))
  }

  lemma ChunksAgree(free: seq<set<int>>, used: seq<set<int>>)
    ensures Agrees(free, used, Chunks(free, used))
  {
    forall b
      ensures b in Chunks(free, used) <==> Member(free, used, b)
    {
      if Member(free, used, b) {
        if b.isFree {
          assert b == Block(b.order, b.offset, true);
        } else {
          assert b == Block(b.order, b.offset, false);
        }
      }
    }
  }

  /** All chunks the lists track, each tagged free or used.  It is the set
      `Chunks` builds, but taken by its membership property `Agrees` rather
      than by the comprehension, so that proofs about the invariant reason
      through `Member` alone and the comprehension's quantifiers stay out of
      their way. */
  ghost function Listed(free: seq<set<int>>, used: seq<set<int>>): set<Block>
  {
    ChunksAgree(free, used);
    var s :| Agrees(free, used, s);
    s
  }

  /** The number of bytes the chunks of `lists` cover: the sum over k of
      |lists[k]| * 2^k. */
  function Bytes(lists: seq<set<int>>): nat
  {
    if lists == [] then 0
    else Bytes(lists[..|lists| - 1]) + |lists[|lists| - 1]| * Pow2(|lists| - 1)
  }

  /** The allocator's invariant for an arena of 2^n bytes: one free and one
      used set per order 0..n, the tracked chunks tile the arena (aligned, in
      range, no overlap, no gap, no chunk both free and used), no free chunk
      has a free buddy, and the free and used bytes add up to the arena. */
  ghost predicate Inv(n: nat, free: seq<set<int>>, used: seq<set<int>>)
  {
    && |free| == n + 1 && |used| == n + 1
    && Tiling(n, Listed(free, used))
    && Coalesced(n, Listed(free, used))
    && Bytes(free) + Bytes(used) == Pow2(n)
  }

  /** The free lists of a fresh allocator: the whole arena is one free chunk
      of order n. */
  function InitialFree(n: nat): (r: seq<set<int>>)
    ensures |r| == n + 1
  {
    seq(n + 1, k => if k == n then {0} else {})
  }

  /** The used lists of a fresh allocator: nothing is allocated. */
  function InitialUsed(n: nat): (r: seq<set<int>>)
    ensures |r| == n + 1
  {
    seq(n + 1, k => {})
  }

  /** The split cascade as a function of the free lists: the chunk at offset
      `o`, held at order i, is halved down to order k; each halving keeps the
      lower half and lists the upper half as free at its order. */
  function Split(free: seq<set<int>>, i: nat, k: nat, o: int): (r: seq<set<int>>)
    requires k <= i <= |free|
    ensures |r| == |free|
    ensures forall j :: 0 <= j < |free| && k <= j < i ==> r[j] == free[j] + {o + Pow2(j)}
    ensures forall j :: 0 <= j < |free| && !(k <= j < i) ==> r[j] == free[j]
    decreases i
  {
    if i == k then free
    else Split(free[i - 1 := free[i - 1] + {o + Pow2(i - 1)}], i - 1, k, o)
  }

  /** The merge cascade as a function of the free lists: the chunk being
      freed, at order k and offset c, absorbs its buddy while the buddy is
      free and the order is below n; the merged chunk is then listed free. */
  function Coalesce(free: seq<set<int>>, n: nat, k: nat, c: int): (r: seq<set<int>>)
    requires |free| == n + 1 && k <= n
    ensures |r| == n + 1
    ensures forall j :: 0 <= j < k ==> r[j] == free[j]
    decreases n - k
  {
    if k < n && Buddy(c, k) in free[k] then
      Coalesce(free[k := free[k] - {Buddy(c, k)}], n, k + 1, Parent(c, k))
    else
      free[k := free[k] + {c}]
  }

  lemma ListedMember(free: seq<set<int>>, used: seq<set<int>>, b: Block)
    ensures b in Listed(free, used) <==> Member(free, used, b)
  {
  }

  lemma ListedFree(free: seq<set<int>>, used: seq<set<int>>, k: nat, o: int)
    ensures Block(k, o, true) in Listed(free, used) <==> k < |free| && o in free[k]
  {
    ListedMember(free, used, Block(k, o, true));
  }

  lemma ListedUsed(free: seq<set<int>>, used: seq<set<int>>, k: nat, o: int)
    ensures Block(k, o, false) in Listed(free, used) <==> k < |used| && o in used[k]
  {
    ListedMember(free, used, Block(k, o, false));
  }

  lemma ListedAddFree(free: seq<set<int>>, used: seq<set<int>>, k: nat, x: int)
    requires k < |free|
    ensures Listed(free[k := free[k] + {x}], used) == Listed(free, used) + {Block(k, x, true)}
  {
    forall b
      ensures b in Listed(free[k := free[k] + {x}], used) <==> b in Listed(free, used) + {Block(k, x, true)}
    {
      ListedMember(free[k := free[k] + {x}], used, b);
      ListedMember(free, used, b);
    }
  }

  lemma ListedRemoveFree(free: seq<set<int>>, used: seq<set<int>>, k: nat, x: int)
    requires k < |free|
    ensures Listed(free[k := free[k] - {x}], used) == Listed(free, used) - {Block(k, x, true)}
  {
    forall b
      ensures b in Listed(free[k := free[k] - {x}], used) <==> b in Listed(free, used) - {Block(k, x, true)}
    {
      ListedMember(free[k := free[k] - {x}], used, b);
      ListedMember(free, used, b);
    }
  }

  lemma ListedAddUsed(free: seq<set<int>>, used: seq<set<int>>, k: nat, x: int)
    requires k < |used|
    ensures Listed(free, used[k := used[k] + {x}]) == Listed(free, used) + {Block(k, x, false)}
  {
    forall b
      ensures b in Listed(free, used[k := used[k] + {x}]) <==> b in Listed(free, used) + {Block(k, x, false)}
    {
      ListedMember(free, used[k := used[k] + {x}], b);
      ListedMember(free, used, b);
    }
  }

  lemma ListedRemoveUsed(free: seq<set<int>>, used: seq<set<int>>, k: nat, x: int)
    requires k < |used|
    ensures Listed(free, used[k := used[k] - {x}]) == Listed(free, used) - {Block(k, x, false)}
  {
    forall b
      ensures b in Listed(free, used[k := used[k] - {x}]) <==> b in Listed(free, used) - {Block(k, x, false)}
    {
      ListedMember(free, used[k := used[k] - {x}], b);
      ListedMember(free, used, b);
    }
  }

  /** Adding a new offset to the set of order k adds 2^k bytes. */
  lemma {:induction false} BytesAdd(lists: seq<set<int>>, k: nat, x: int)
    requires k < |lists| && x !in lists[k]
    ensures Bytes(lists[k := lists[k] + {x}]) == Bytes(lists) + Pow2(k)
  {
    var lists' := lists[k := lists[k] + {x}];
    var last := |lists| - 1;
    assert lists'[..last] == if k == last then lists[..last] else lists[..last][k := lists[k] + {x}];
    if k < last {
      BytesAdd(lists[..last], k, x);
    } else {
      assert |lists'[last]| == |lists[last]| + 1;
    }
  }

  /** Removing a listed offset from the set of order k removes 2^k bytes. */
  lemma BytesRemove(lists: seq<set<int>>, k: nat, x: int)
    requires k < |lists| && x in lists[k]
    ensures Bytes(lists[k := lists[k] - {x}]) + Pow2(k) == Bytes(lists)
  {
    var lists' := lists[k := lists[k] - {x}];
    BytesAdd(lists', k, x);
    assert lists[k] - {x} + {x} == lists[k];
    assert lists'[k := lists'[k] + {x}] == lists;
  }

  /** No bytes are covered exactly when every set is empty. */
  lemma {:induction false} BytesZero(lists: seq<set<int>>)
    ensures Bytes(lists) == 0 <==> forall k :: 0 <= k < |lists| ==> lists[k] == {}
  {
    if lists != [] {
      var last := |lists| - 1;
      BytesZero(lists[..last]);
      if lists[last] != {} {
        MulAtLeast(|lists[last]|, Pow2(last));
      }
      assert forall k :: 0 <= k < last ==> lists[..last][k] == lists[k];
    }
  }

  /** A fresh allocator satisfies the invariant. */
  lemma InitialInv(n: nat)
    ensures Inv(n, InitialFree(n), InitialUsed(n))
  {
    InitialListed(n);
    InitialBytes(n);
    WholeArena(n);
  }

  /** A fresh allocator tracks just the whole-arena chunk, as free. */
  lemma InitialListed(n: nat)
    ensures Listed(InitialFree(n), InitialUsed(n)) == {Block(n, 0, true)}
  {
    var free, used := InitialFree(n), InitialUsed(n);
    forall b
      ensures b in Listed(free, used) <==> b == Block(n, 0, true)
    {
      ListedMember(free, used, b);
      if b.isFree && b.order < |free| {
        assert free[b.order] == if b.order == n then {0} else {};
      }
    }
  }

  /** A fresh allocator has the arena's bytes free and none used. */
  lemma InitialBytes(n: nat)
    ensures Bytes(InitialFree(n)) == Pow2(n) && Bytes(InitialUsed(n)) == 0
  {
    var free, used := InitialFree(n), InitialUsed(n);
    assert forall k :: 0 <= k < |used| ==> used[k] == {};
    BytesZero(used);
    var below := free[..n];
    assert forall k :: 0 <= k < |below| ==> below[k] == {};
    BytesZero(below);
    assert free[..|free| - 1] == below;
    assert |free[n]| == 1;
    calc {
      Bytes(free);
      Bytes(below) + |free[n]| * Pow2(n);
      Pow2(n);
    }
  }

  /** The lists with one chunk held aside: the chunk is in neither list, and
      together with it the lists tile the arena, leave no free buddies and
      account for every byte. */
  ghost predicate HeldInv(n: nat, free: seq<set<int>>, used: seq<set<int>>, held: Block)
  {
    && |free| == n + 1 && |used| == n + 1 && !held.isFree && held.order <= n
    && held !in Listed(free, used)
    && Tiling(n, Listed(free, used) + {held})
    && Coalesced(n, Listed(free, used) + {held})
    && Bytes(free) + Bytes(used) + Pow2(held.order) == Pow2(n)
  }

  /** One halving: the held order-i chunk at `o` becomes its held lower half,
      and its upper half is listed free at order i-1. */
  lemma SplitOnce(n: nat, free: seq<set<int>>, used: seq<set<int>>, i: nat, o: int)
    requires i > 0 && HeldInv(n, free, used, Block(i, o, false))
    ensures HeldInv(n, free[i - 1 := free[i - 1] + {o + Pow2(i - 1)}], used, Block(i - 1, o, false))
  {
    var hi := o + Pow2(i - 1);
    var free' := free[i - 1 := free[i - 1] + {hi}];
    ListedAddFree(free, used, i - 1, hi);
    ListedFree(free, used, i - 1, hi);
    SplitHeld(n, Listed(free, used), Block(i, o, false), Listed(free', used));
    BytesAdd(free, i - 1, hi);
    assert Pow2(i) == 2 * Pow2(i - 1);
  }

  /** Marking the held chunk used restores the invariant. */
  lemma HeldBecomesUsed(n: nat, free: seq<set<int>>, used: seq<set<int>>, k: nat, o: int)
    requires HeldInv(n, free, used, Block(k, o, false))
    ensures Inv(n, free, used[k := used[k] + {o}])
  {
    ListedAddUsed(free, used, k, o);
    ListedUsed(free, used, k, o);
    BytesAdd(used, k, o);
  }

  /** Split keeps the invariant: with the order-i chunk at `o` held aside,
      halving it down to order k and marking the remaining order-k chunk used
      yields lists that satisfy the invariant. */
  lemma {:induction false} SplitKeeps(n: nat, free: seq<set<int>>, used: seq<set<int>>, i: nat, k: nat, o: int)
    requires k <= i && HeldInv(n, free, used, Block(i, o, false))
    ensures Inv(n, Split(free, i, k, o), used[k := used[k] + {o}])
    decreases i
  {
    if i == k {
      HeldBecomesUsed(n, free, used, k, o);
    } else {
      var free' := free[i - 1 := free[i - 1] + {o + Pow2(i - 1)}];
      SplitOnce(n, free, used, i, o);
      SplitKeeps(n, free', used, i - 1, k, o);
      assert Split(free, i, k, o) == Split(free', i - 1, k, o);
    }
  }

  /** Allocation keeps the invariant: taking the free chunk `o` of order j,
      splitting it down to order k and marking the order-k chunk at `o`
      used. */
  lemma AllocateKeeps(n: nat, free: seq<set<int>>, used: seq<set<int>>, j: nat, k: nat, o: int)
    requires Inv(n, free, used) && k <= j <= n && o in free[j]
    ensures Inv(n, Split(free[j := free[j] - {o}], j, k, o), used[k := used[k] + {o}])
  {
    var f := Block(j, o, true);
    ListedFree(free, used, j, o);
    MarkUsed(n, Listed(free, used), f);
    ListedRemoveFree(free, used, j, o);
    ListedFree(free[j := free[j] - {o}], used, j, o);
    assert Listed(free[j := free[j] - {o}], used) + {Block(j, o, false)} == Listed(free, used) - {f} + {Block(j, o, false)};
    BytesRemove(free, j, o);
    SplitKeeps(n, free[j := free[j] - {o}], used, j, k, o);
  }

  /** Coalesce keeps the invariant: with the chunk being freed (order k,
      offset c) held aside, merging it with free buddies and listing the
      result as free restores the invariant. */
  lemma {:induction false} CoalesceKeeps(n: nat, free: seq<set<int>>, used: seq<set<int>>, k: nat, c: int)
    requires |free| == n + 1 && |used| == n + 1 && k <= n
    requires Block(k, c, false) !in Listed(free, used)
    requires Tiling(n, Listed(free, used) + {Block(k, c, false)})
    requires Coalesced(n, Listed(free, used) + {Block(k, c, false)})
    requires Bytes(free) + Bytes(used) + Pow2(k) == Pow2(n)
    ensures Inv(n, Coalesce(free, n, k, c), used)
    decreases n - k
  {
    var held := Block(k, c, false);
    ListedFree(free, used, k, Buddy(c, k));
    if k < n && Buddy(c, k) in free[k] {
      var free' := free[k := free[k] - {Buddy(c, k)}];
      MergeHeld(n, Listed(free, used), held);
      ListedRemoveFree(free, used, k, Buddy(c, k));
      BytesRemove(free, k, Buddy(c, k));
      assert Pow2(k + 1) == 2 * Pow2(k);
      CoalesceKeeps(n, free', used, k + 1, Parent(c, k));
    } else {
      ReleaseHeld(n, Listed(free, used), held);
      ListedAddFree(free, used, k, c);
      ListedFree(free, used, k, c);
      BytesAdd(free, k, c);
    }
  }

  /** Freeing keeps the invariant: the used chunk `o` of order k leaves the
      used list and is merged into the free lists. */
  lemma FreeKeeps(n: nat, free: seq<set<int>>, used: seq<set<int>>, k: nat, o: int)
    requires Inv(n, free, used) && k <= n && o in used[k]
    ensures Inv(n, Coalesce(free, n, k, o), used[k := used[k] - {o}])
  {
    ListedUsed(free, used, k, o);
    ListedRemoveUsed(free, used, k, o);
    ListedUsed(free, used[k := used[k] - {o}], k, o);
    assert Listed(free, used[k := used[k] - {o}]) + {Block(k, o, false)} == Listed(free, used);
    BytesRemove(used, k, o);
    CoalesceKeeps(n, free, used[k := used[k] - {o}], k, o);
  }

  /** Once nothing is in use, the free lists are back to their initial
      state: a single free chunk covering the arena. */
  lemma FreeingAllRestores(n: nat, free: seq<set<int>>, used: seq<set<int>>)
    requires Inv(n, free, used) && forall k :: 0 <= k <= n ==> used[k] == {}
    ensures free == InitialFree(n) && used == InitialUsed(n)
  {
    var s := Listed(free, used);
    forall b | b in s
      ensures b.isFree
    {
      ListedMember(free, used, b);
    }
    AllFreeIsWhole(n, s);
    forall k | 0 <= k <= n
      ensures free[k] == InitialFree(n)[k]
    {
      forall o
        ensures o in free[k] <==> o in InitialFree(n)[k]
      {
        ListedFree(free, used, k, o);
      }
    }
  }

  /** No offset is free and used at the same order, so the allocator never
      hands out a chunk it has already handed out. */
  lemma FreeNotUsed(n: nat, free: seq<set<int>>, used: seq<set<int>>, k: nat, o: int)
    requires Inv(n, free, used) && k <= n && o in free[k]
    ensures o !in used[k]
  {
    ListedFree(free, used, k, o);
    ListedUsed(free, used, k, o);
    if o in used[k] {
      OverlapExcluded(n, Listed(free, used), Block(k, o, true), Block(k, o, false), o);
    }
  }

  /** Every tracked offset is aligned to its order and its chunk lies in the
      arena. */
  lemma TrackedFits(n: nat, free: seq<set<int>>, used: seq<set<int>>, k: nat, o: int)
    requires Inv(n, free, used) && k <= n && (o in free[k] || o in used[k])
    ensures Aligned(o, k) && 0 <= o && o + Pow2(k) <= Pow2(n)
  {
    ListedFree(free, used, k, o);
    ListedUsed(free, used, k, o);
    if o in free[k] {
      assert Fits(n, Block(k, o, true));
    } else {
      assert Fits(n, Block(k, o, false));
    }
  }

  /** Two different chunks in use never share a byte. */
  lemma UsedApart(n: nat, free: seq<set<int>>, used: seq<set<int>>, k1: nat, o1: int, k2: nat, o2: int)
    requires Inv(n, free, used) && k1 <= n && k2 <= n && o1 in used[k1] && o2 in used[k2]
    requires k1 != k2 || o1 != o2
    ensures o1 + Pow2(k1) <= o2 || o2 + Pow2(k2) <= o1
  {
    ListedUsed(free, used, k1, o1);
    ListedUsed(free, used, k2, o2);
    assert Apart(Block(k1, o1, false), Block(k2, o2, false));
  }

  /** A free chunk and a chunk in use never share a byte. */
  lemma FreeUsedApart(n: nat, free: seq<set<int>>, used: seq<set<int>>, k1: nat, o1: int, k2: nat, o2: int)
    requires Inv(n, free, used) && k1 <= n && k2 <= n && o1 in free[k1] && o2 in used[k2]
    ensures o1 + Pow2(k1) <= o2 || o2 + Pow2(k2) <= o1
  {
    ListedFree(free, used, k1, o1);
    ListedUsed(free, used, k2, o2);
    assert Apart(Block(k1, o1, true), Block(k2, o2, false));
  }

  /** A used offset is listed at exactly one order. */
  lemma UsedOrderUnique(n: nat, free: seq<set<int>>, used: seq<set<int>>, k1: nat, k2: nat, o: int)
    requires Inv(n, free, used) && k1 <= n && k2 <= n && o in used[k1] && o in used[k2]
    ensures k1 == k2
  {
    if k1 != k2 {
      UsedApart(n, free, used, k1, o, k2, o);
    }
  }
}
