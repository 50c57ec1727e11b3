/** BuddyAllocator::Allocate and BuddyAllocator::Free of buddy_allocator.cc
    as functions of the free and used lists, with what they promise: the
    order served, the smallest free offset handed out, the split and merge
    cascades, and that both keep the allocator's invariant. */
module Operations {
  import opened Wrappers
  import opened Powers
  import opened Blocks
  import opened Bookkeeping

  /** `m` is the smallest element of `s`. */
  predicate IsLeast(s: set<int>, m: int)
  {
    m in s && forall x :: x in s ==> m <= x
  }

  /** Every non-empty finite set of offsets has a smallest element. */
  lemma {:induction false} LeastExists(s: set<int>)
    requires s != {}
    ensures exists m :: IsLeast(s, m)
    decreases s
  {
    if forall y :: y !in s {
      assert false;
    }
    var x :| x in s;
    if s == {x} {
      assert IsLeast(s, x);
    } else {
      LeastExists(s - {x});
      var m :| IsLeast(s - {x}, m);
      var least := if x < m then x else m;
      forall y | y in s
        ensures least <= y
      {
        if y != x {
          assert y in s - {x};
        }
      }
      assert IsLeast(s, least);
    }
  }

  /** The first offset of a sorted set, as `btree_set::begin()` yields it. */
  function Least(s: set<int>): (m: int)
    requires s != {}
    ensures IsLeast(s, m)
  {
    LeastExists(s);
    var m :| IsLeast(s, m);
    m
  }

  /** The lowest order at or above k whose free set is not empty: where a
      request of order k is served from. */
  function FirstFree(free: seq<set<int>>, k: nat): (j: Option<nat>)
    ensures j.None? <==> forall i :: k <= i < |free| ==> free[i] == {}
    ensures j.Some? ==> k <= j.value < |free| && free[j.value] != {}
    ensures j.Some? ==> forall i :: k <= i < j.value ==> free[i] == {}
    decreases |free| - k
  {
    if k >= |free| then None
    else if free[k] != {} then Some(k)
    else FirstFree(free, k + 1)
  }

  /** The lowest order at or above k at which `o` is listed as used. */
  function UsedOrder(used: seq<set<int>>, o: int, k: nat): (j: Option<nat>)
    ensures j.None? <==> forall i :: k <= i < |used| ==> o !in used[i]
    ensures j.Some? ==> k <= j.value < |used| && o in used[j.value]
    ensures j.Some? ==> forall i :: k <= i < j.value ==> o !in used[i]
    decreases |used| - k
  {
    if k >= |used| then None
    else if o in used[k] then Some(k)
    else UsedOrder(used, o, k + 1)
  }

  /** A successful allocation: the lists afterwards and the offset handed out. */
  datatype Grant = Grant(free: seq<set<int>>, used: seq<set<int>>, offset: int)

  /** Allocate(num_bytes) on an arena of 2^n bytes.  The request is served at
      order Order(numBytes); it fails if that order exceeds n or no free chunk
      of that order or above exists.  Otherwise the smallest offset of the
      lowest non-empty free order is taken, halved down to the request's order
      (each upper half becoming free) and marked used. */
  function Allocation(n: nat, free: seq<set<int>>, used: seq<set<int>>, numBytes: int): (r: Option<Grant>)
    requires |free| == n + 1 && |used| == n + 1 && numBytes >= 1
    ensures r.None? <==> Order(numBytes) > n || forall j :: Order(numBytes) <= j <= n ==> free[j] == {}
  {
    var k := Order(numBytes);
    if k > n then None
    else match FirstFree(free, k)
      case None => None
      case Some(j) =>
        var o := Least(free[j]);
        Some(Grant(Split(free[j := free[j] - {o}], j, k, o), used[k := used[k] + {o}], o))
  }

  /** Free(addr) of the chunk at offset `o`: a chunk listed as used leaves the
      used list and is merged with its free buddies; any other offset leaves
      the lists alone. */
  function Release(n: nat, free: seq<set<int>>, used: seq<set<int>>, o: int): (r: (seq<set<int>>, seq<set<int>>))
    requires |free| == n + 1 && |used| == n + 1
    ensures |r.0| == n + 1 && |r.1| == n + 1
    ensures (forall k :: 0 <= k <= n ==> o !in used[k]) ==> r == (free, used)
  {
    match UsedOrder(used, o, 0)
      case None => (free, used)
      case Some(k) => (Coalesce(free, n, k, o), used[k := used[k] - {o}])
  }

  /** Allocation keeps the invariant. */
  lemma AllocationKeeps(n: nat, free: seq<set<int>>, used: seq<set<int>>, numBytes: int)
    requires Inv(n, free, used) && numBytes >= 1
    ensures var r := Allocation(n, free, used, numBytes);
      r.Some? ==> Inv(n, r.value.free, r.value.used)
  {
    var k := Order(numBytes);
    if k <= n && FirstFree(free, k).Some? {
      var j := FirstFree(free, k).value;
      AllocateKeeps(n, free, used, j, k, Least(free[j]));
    }
  }

  /** The fast path: when a chunk of the request's order is free, the
      smallest such offset moves from the free to the used set of that order
      and no other order changes. */
  lemma AllocationFastPath(n: nat, free: seq<set<int>>, used: seq<set<int>>, numBytes: int)
    requires |free| == n + 1 && |used| == n + 1 && numBytes >= 1
    requires Order(numBytes) <= n && free[Order(numBytes)] != {}
    ensures var k, r := Order(numBytes), Allocation(n, free, used, numBytes);
      && r.Some? && IsLeast(free[k], r.value.offset)
      && r.value.free == free[k := free[k] - {r.value.offset}]
      && r.value.used == used[k := used[k] + {r.value.offset}]
  {
    var k := Order(numBytes);
    assert FirstFree(free, k) == Some(k);
  }

  /** The split: when no chunk of the request's order k is free, the smallest
      chunk of the lowest non-empty order j above k is halved j-k times; its
      lower part of order k is handed out, and the upper half of each halving
      (the buddy of the part kept) becomes the only free chunk of its order. */
  lemma AllocationSplits(n: nat, free: seq<set<int>>, used: seq<set<int>>, numBytes: int)
    requires Inv(n, free, used) && numBytes >= 1
    requires Order(numBytes) <= n && free[Order(numBytes)] == {}
    requires Allocation(n, free, used, numBytes).Some?
    ensures var k, g := Order(numBytes), Allocation(n, free, used, numBytes).value;
      var j := FirstFree(free, k).value;
        && k < j <= n && IsLeast(free[j], g.offset)
        && (forall i :: k <= i < j ==> free[i] == {})
        && g.free[j] == free[j] - {g.offset}
        && (forall i :: k <= i < j ==> g.free[i] == {Buddy(g.offset, i)} && Buddy(g.offset, i) == g.offset + Pow2(i))
        && (forall i :: 0 <= i <= n && !(k <= i <= j) ==> g.free[i] == free[i])
        && g.used == used[k := used[k] + {g.offset}]
  {
    var k := Order(numBytes);
    var j := FirstFree(free, k).value;
    var o := Least(free[j]);
    var taken := free[j := free[j] - {o}];
    var g := Allocation(n, free, used, numBytes).value;
    assert g == Grant(Split(taken, j, k, o), used[k := used[k] + {o}], o);
    assert j != k;
    TrackedFits(n, free, used, j, o);
    SplitHalves(taken, j, k, o);
    assert g.free[j] == free[j] - {o};
    assert forall i :: 0 <= i <= n && !(k <= i <= j) ==> g.free[i] == free[i];
  }

  /** Halving a chunk aligned to order j down to order k leaves, at each
      order in between that had nothing free, exactly the upper half split
      off there: the buddy of the part kept. */
  lemma SplitHalves(free: seq<set<int>>, j: nat, k: nat, o: int)
    requires k <= j < |free| && Aligned(o, j)
    requires forall i :: k <= i < j ==> free[i] == {}
    ensures forall i :: k <= i < j ==>
      Split(free, j, k, o)[i] == {Buddy(o, i)} && Buddy(o, i) == o + Pow2(i)
  {
    forall i | k <= i < j
      ensures Split(free, j, k, o)[i] == {Buddy(o, i)} && Buddy(o, i) == o + Pow2(i)
    {
      AlignedWeaken(o, i + 1, j);
    }
  }

  /** The chunk handed out is aligned to its order, lies in the arena, and
      overlaps no chunk in use: in particular its offset was not in use at
      any order, so no offset is handed out twice. */
  lemma AllocationFresh(n: nat, free: seq<set<int>>, used: seq<set<int>>, numBytes: int)
    requires Inv(n, free, used) && numBytes >= 1
    requires Allocation(n, free, used, numBytes).Some?
    ensures var k, o := Order(numBytes), Allocation(n, free, used, numBytes).value.offset;
      && Aligned(o, k) && 0 <= o && o + Pow2(k) <= Pow2(n)
      && forall k': nat, o' :: k' <= n && o' in used[k'] ==> o + Pow2(k) <= o' || o' + Pow2(k') <= o
  {
    var k := Order(numBytes);
    var j := FirstFree(free, k).value;
    var o := Least(free[j]);
    assert Allocation(n, free, used, numBytes).value.offset == o;
    TrackedFits(n, free, used, j, o);
    AlignedWeaken(o, k, j);
    Pow2Monotone(k, j);
    forall k': nat, o' | k' <= n && o' in used[k']
      ensures o + Pow2(k) <= o' || o' + Pow2(k') <= o
    {
      FreeUsedApart(n, free, used, j, o, k', o');
    }
  }

  /** The duplicate check of the fast path never fires: under the invariant
      the offset handed out is not yet in use at the request's order. */
  lemma AllocationNotInUse(n: nat, free: seq<set<int>>, used: seq<set<int>>, numBytes: int)
    requires Inv(n, free, used) && numBytes >= 1
    requires Allocation(n, free, used, numBytes).Some?
    ensures Allocation(n, free, used, numBytes).value.offset !in used[Order(numBytes)]
  {
    AllocationFresh(n, free, used, numBytes);
  }

  /** Freeing keeps the invariant. */
  lemma ReleaseKeeps(n: nat, free: seq<set<int>>, used: seq<set<int>>, o: int)
    requires Inv(n, free, used)
    ensures var r := Release(n, free, used, o); Inv(n, r.0, r.1)
  {
    match UsedOrder(used, o, 0)
    case None =>
    case Some(k) => FreeKeeps(n, free, used, k, o);
  }

  /** Freeing a chunk in use at order k takes it out of used[k] and merges it
      into the free lists; no other used set changes. */
  lemma ReleaseUsed(n: nat, free: seq<set<int>>, used: seq<set<int>>, k: nat, o: int)
    requires Inv(n, free, used) && k <= n && o in used[k]
    ensures Release(n, free, used, o) == (Coalesce(free, n, k, o), used[k := used[k] - {o}])
  {
    var j := UsedOrder(used, o, 0).value;
    UsedOrderUnique(n, free, used, j, k, o);
  }

  /** The bytes of the order-k chunk at `c` lie inside a chunk listed in
      `free` at order m. */
  ghost predicate FreedInto(free: seq<set<int>>, k: nat, c: int, m: nat)
  {
    m < |free| && exists p :: p in free[m] && p <= c && c + Pow2(k) <= p + Pow2(m)
  }

  /** The merge cascade frees the chunk it is given: its bytes end up inside
      a chunk listed free at some order m >= k, and when its buddy was free
      the two were merged (the buddy leaves the free set of order k and m is
      above k). */
  lemma {:induction false} CoalesceFrees(free: seq<set<int>>, n: nat, k: nat, c: int)
    requires |free| == n + 1 && k <= n && Aligned(c, k)
    ensures exists m: nat ::
      && k <= m <= n && FreedInto(Coalesce(free, n, k, c), k, c, m)
      && (k < n && Buddy(c, k) in free[k] ==> m > k)
    ensures k < n && Buddy(c, k) in free[k] ==> Coalesce(free, n, k, c)[k] == free[k] - {Buddy(c, k)}
    decreases n - k
  {
    var r := Coalesce(free, n, k, c);
    if k < n && Buddy(c, k) in free[k] {
      var par := Parent(c, k);
      BuddyFacts(c, k);
      CoalesceFrees(free[k := free[k] - {Buddy(c, k)}], n, k + 1, par);
      var m: nat :| k + 1 <= m <= n && FreedInto(r, k + 1, par, m);
      var p :| p in r[m] && p <= par && par + Pow2(k + 1) <= p + Pow2(m);
      assert p <= c && c + Pow2(k) <= p + Pow2(m);
      assert FreedInto(r, k, c, m);
    } else {
      assert c in r[k];
      assert FreedInto(r, k, c, k);
    }
  }
}
