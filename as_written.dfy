/** The allocator as buddy_allocator.cc writes it, kept beside the corrected
    model to exhibit where the two part: the buffer is twice the documented
    size, the lists have one entry too few for the guard in Allocate, no
    chunk is ever put in a free list, and the fast path leaves the chunk it
    hands out in its free list. */
module AsWritten {
  import opened Wrappers
  import opened Powers
  import opened Bookkeeping
  import opened Operations
  import Scenarios

  /** What a request yields as written: an address, a null pointer, or an
      access past the end of a list (undefined behaviour in the source). */
  datatype Outcome = Address(addr: int) | Null | OutOfBounds

  /** The fast path of Allocate as written: the smallest free offset of
      order k is recorded as used and returned unless it is already in use,
      and the free list is left as it was. */
  function FastPath(free: seq<set<int>>, used: seq<set<int>>, k: nat): (r: (Option<int>, seq<set<int>>))
    requires k < |free| && k < |used|
    ensures r.0.Some? ==> IsLeast(free[k], r.0.value) && r.0.value !in used[k]
    ensures r.0.Some? ==> r.1 == used[k := used[k] + {r.0.value}]
    ensures r.0.None? <==> free[k] == {} || Least(free[k]) in used[k]
    ensures r.0.None? ==> r.1 == used
  {
    if free[k] == {} then (None, used)
    else
      var o := Least(free[k]);
      if o in used[k] then (None, used) else (Some(o), used[k := used[k] + {o}])
  }

  /** The allocator as written. */
  class WrittenAllocator {
    const buffer: array<char>
    const logSize: nat
    const base: int
    var used: seq<set<int>>
    var free: seq<set<int>>

    /** The lists have logSize entries. */
    ghost predicate Valid()
      reads this
    {
      |used| == logSize && |free| == logSize
    }

    /** No free list holds a chunk. */
    ghost predicate NothingFree()
      reads this
    {
      forall i :: 0 <= i < |free| ==> free[i] == {}
    }

    /** The buffer holds 2 << logSize bytes, twice 2^logSize, and both lists
        get logSize empty entries.  logSize is at most 29 so that the
        32-bit shift does not overflow. */
    constructor(logSize: nat, base: int)
      requires logSize <= 29
      ensures Valid() && NothingFree() && this.logSize == logSize && this.base == base
      ensures buffer.Length == 2 * Pow2(logSize) && fresh(buffer)
      ensures forall i :: 0 <= i < logSize ==> used[i] == {}
    {
      buffer := new char[2 * Pow2(logSize)](_ => '0');
      this.logSize := logSize;
      this.base := base;
      used := seq(logSize, _ => {});
      free := seq(logSize, _ => {});
    }

    /** Allocate as written: a request above logSize yields null; a request
        of order exactly logSize passes the guard and indexes one past the
        end of the lists; otherwise the fast path decides and nothing is
        split.  No code path inserts into a free list, so on an allocator
        whose free lists are empty, as the constructor leaves them, no
        request ever gets an address. */
    method Allocate(numBytes: int) returns (r: Outcome)
      requires Valid() && numBytes >= 1
      modifies this
      ensures Valid() && free == old(free)
      ensures Order(numBytes) > logSize ==> r == Null && used == old(used)
      ensures Order(numBytes) == logSize ==> r == OutOfBounds && used == old(used)
      ensures Order(numBytes) < logSize ==>
        var (o, u) := FastPath(old(free), old(used), Order(numBytes));
        used == u && r == (if o.Some? then Address(base + o.value) else Null)
      ensures old(NothingFree()) ==> NothingFree() && !r.Address?
    {
      var k := Order(numBytes);
      if k > logSize {
        return Null;
      }
      if k >= |free| {
        return OutOfBounds;
      }
      var (o, u) := FastPath(free, used, k);
      used := u;
      r := if o.Some? then Address(base + o.value) else Null;
    }
  }

  /** Tests 1 and 4 of the list against the allocator as written on a
      4096-byte arena: the first 1-byte request yields null, and the
      4096-byte request indexes past the end of the lists. */
  method WrittenTestList(base: int) returns (first: Outcome, whole: Outcome)
    ensures first == Null && whole == OutOfBounds
  {
    var a := new WrittenAllocator(12, base);
    Scenarios.SizeOrders();
    first := a.Allocate(1);
    whole := a.Allocate(4096);
  }

  /** The fast path as written refuses a second order-0 request although
      offset 1 is still free: offset 0 stays the smallest free offset and is
      already in use. */
  lemma FastPathRepeats()
    ensures var (o, u) := FastPath([{0, 1}], [{}], 0);
      o == Some(0) && u == [{0}] && FastPath([{0, 1}], u, 0).0 == None
  {
    var free: seq<set<int>> := [{0, 1}];
    var m := Least(free[0]);
    assert m == 0 by {
      assert 0 in free[0] && m in free[0];
    }
    var used: seq<set<int>> := [{}];
    var u := used[0 := used[0] + {0}];
    assert u[0] == {0} && |u| == 1;
    assert u == [{0}];
    assert FastPath(free, used, 0) == (Some(0), u);
    assert m in u[0];
  }

  /** The corrected fast path on the same two free bytes hands out offset 0
      and then offset 1. */
  lemma FastPathTakesNext()
    ensures var free, used := [{0, 1}, {}], [{}, {}];
      && Allocation(1, free, used, 1).Some?
      && Allocation(1, free, used, 1).value.offset == 0
      && var g := Allocation(1, free, used, 1).value;
         Allocation(1, g.free, g.used, 1).Some? && Allocation(1, g.free, g.used, 1).value.offset == 1
  {
    var free, used: seq<set<int>> := [{0, 1}, {}], [{}, {}];
    assert Order(1) == 0;
    AllocationFastPath(1, free, used, 1);
    var g := Allocation(1, free, used, 1).value;
    assert g.offset == 0 by {
      assert 0 in free[0] && g.offset in free[0];
    }
    assert g.free[0] == {1} by {
      assert g.free[0] == {0, 1} - {0};
    }
    AllocationFastPath(1, g.free, g.used, 1);
    var h := Allocation(1, g.free, g.used, 1).value;
    assert h.offset in g.free[0];
  }

  /** The corrected allocator serves a request for the whole arena from a
      fresh state, at offset 0. */
  lemma WholeArenaGranted(n: nat)
    ensures Allocation(n, InitialFree(n), InitialUsed(n), Pow2(n)).Some?
    ensures Allocation(n, InitialFree(n), InitialUsed(n), Pow2(n)).value.offset == 0
  {
    OrderOfPow2(n);
    AllocationFastPath(n, InitialFree(n), InitialUsed(n), Pow2(n));
  }
}
