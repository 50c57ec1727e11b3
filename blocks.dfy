/** Chunks of the arena and the invariant that the free and used lists of
    buddy_allocator.cc keep together: the tracked chunks tile the arena, and
    no free chunk has a free buddy. */
module Blocks {
  import opened Powers

  /** A tracked chunk: its order, its offset in the arena, and whether it is
      listed as free or as used. */
  datatype Block = Block(order: nat, offset: int, isFree: bool)

  /** Byte `p` of the arena lies inside chunk `b`. */
  predicate Contains(b: Block, p: int)
  {
    b.offset <= p < b.offset + Pow2(b.order)
  }

  /** The byte ranges of `b` and `c` do not overlap. */
  predicate Apart(b: Block, c: Block)
  {
    b.offset + Pow2(b.order) <= c.offset || c.offset + Pow2(c.order) <= b.offset
  }

  /** The buddy of the order-k chunk at offset `o`: the other half of the
      order-(k+1) chunk it was split from, o XOR 2^k for an aligned `o`. */
  function Buddy(o: int, k: nat): int
  {
    if Aligned(o, k + 1) then o + Pow2(k) else o - Pow2(k)
  }

  /** The offset of the order-(k+1) chunk made of `o` and its buddy. */
  function Parent(o: int, k: nat): int
  {
    if Aligned(o, k + 1) then o else o - Pow2(k)
  }

  /** The free chunk that would merge with `b`. */
  function FreeBuddy(b: Block): Block
  {
    Block(b.order, Buddy(b.offset, b.order), true)
  }

  /** `b` is a chunk of an arena of 2^n bytes: aligned to its own size and
      inside the arena. */
  ghost predicate Fits(n: nat, b: Block)
  {
    b.order <= n && Aligned(b.offset, b.order) && 0 <= b.offset && b.offset + Pow2(b.order) <= Pow2(n)
  }

  ghost predicate Covered(s: set<Block>, p: int)
  {
    exists b :: b in s && Contains(b, p)
  }

  /** The chunks in `s` partition the arena [0, 2^n): each fits, no two
      overlap, and every byte lies in one of them.  Because a free and a used
      entry for the same chunk overlap, this also says that no chunk is listed
      twice. */
  ghost predicate Tiling(n: nat, s: set<Block>)
  {
    AllFit(n, s) && Disjoint(s) && Covers(n, s)
  }

  ghost predicate AllFit(n: nat, s: set<Block>)
  {
    forall b :: b in s ==> Fits(n, b)
  }

  ghost predicate Disjoint(s: set<Block>)
  {
    forall b, c :: b in s && c in s && b != c ==> Apart(b, c)
  }

  ghost predicate Covers(n: nat, s: set<Block>)
  {
    forall p :: 0 <= p < Pow2(n) ==> Covered(s, p)
  }

  /** Coalescing is complete: no free chunk below the top order has a free
      buddy. */
  ghost predicate Coalesced(n: nat, s: set<Block>)
  {
    forall b, c :: b in s && c in s && b.isFree && b.order < n ==> c != FreeBuddy(b)
  }

  /** The upper neighbour of an order-(k+1) aligned offset is an order-k
      offset that is not order-(k+1) aligned. */
  lemma LowerHalf(o: int, k: nat)
    requires Aligned(o, k + 1)
    ensures Aligned(o, k) && Aligned(o + Pow2(k), k) && !Aligned(o + Pow2(k), k + 1)
  {
    AlignedWeaken(o, k, k + 1);
    AlignedIsMultiple(o, k);
    var q := o / Pow2(k);
    ParityOfMultiple(q, k);
    assert o == q * Pow2(k);
    assert q % 2 == 0;
    ParityOfMultiple(q + 1, k);
    assert o + Pow2(k) == (q + 1) * Pow2(k);
  }

  /** The lower neighbour of an order-k offset that is not order-(k+1)
      aligned is order-(k+1) aligned. */
  lemma UpperHalf(o: int, k: nat)
    requires Aligned(o, k) && !Aligned(o, k + 1)
    ensures Aligned(o - Pow2(k), k + 1) && Aligned(o - Pow2(k), k)
  {
    AlignedIsMultiple(o, k);
    var q := o / Pow2(k);
    ParityOfMultiple(q, k);
    assert o == q * Pow2(k);
    assert q % 2 == 1;
    ParityOfMultiple(q - 1, k);
    assert o - Pow2(k) == (q - 1) * Pow2(k);
  }

  /** Buddies of order k are distinct, aligned, symmetric, and together form
      the aligned order-(k+1) chunk at Parent. */
  lemma BuddyFacts(o: int, k: nat)
    requires Aligned(o, k)
    ensures Aligned(Buddy(o, k), k)
    ensures Buddy(Buddy(o, k), k) == o
    ensures Buddy(o, k) == o + Pow2(k) || Buddy(o, k) == o - Pow2(k)
    ensures Parent(o, k) == (if o < Buddy(o, k) then o else Buddy(o, k))
    ensures Parent(Buddy(o, k), k) == Parent(o, k)
    ensures Aligned(Parent(o, k), k + 1)
  {
    if Aligned(o, k + 1) {
      LowerHalf(o, k);
      assert Buddy(o, k) == o + Pow2(k);
      assert Buddy(o + Pow2(k), k) == o;
      assert Parent(o + Pow2(k), k) == o;
    } else {
      UpperHalf(o, k);
      assert Buddy(o, k) == o - Pow2(k);
      assert Buddy(o - Pow2(k), k) == o;
      assert Parent(o - Pow2(k), k) == o - Pow2(k);
    }
  }

  /** The two halves of an aligned order-j chunk are buddies of order j-1. */
  lemma HalvesAreBuddies(o: int, j: nat)
    requires j > 0 && Aligned(o, j)
    ensures Aligned(o, j - 1) && Aligned(o + Pow2(j - 1), j - 1)
    ensures Buddy(o, j - 1) == o + Pow2(j - 1)
    ensures Buddy(o + Pow2(j - 1), j - 1) == o
  {
    LowerHalf(o, j - 1);
  }

  /** Two different chunks of a tiling that share a byte cannot exist. */
  lemma OverlapExcluded(n: nat, s: set<Block>, b: Block, c: Block, p: int)
    requires Disjoint(s) && b in s && b != c && Contains(b, p) && Contains(c, p)
    ensures c !in s
  {
  }

  /** The initial bookkeeping: one free chunk spanning the arena. */
  lemma {:induction false} WholeArena(n: nat)
    ensures Tiling(n, {Block(n, 0, true)}) && Coalesced(n, {Block(n, 0, true)})
  {
    var s := {Block(n, 0, true)};
    MultipleIsAligned(0, n);
    forall p | 0 <= p < Pow2(n)
      ensures Covered(s, p)
    {
      assert Contains(Block(n, 0, true), p);
    }
  }

  /** Relisting chunk `b` with the other tag keeps the tiling. */
  lemma {:induction false} Retag(n: nat, s: set<Block>, b: Block)
    requires Tiling(n, s) && b in s
    ensures var b' := Block(b.order, b.offset, !b.isFree);
      b' !in s && Tiling(n, s - {b} + {b'})
  {
    var b' := Block(b.order, b.offset, !b.isFree);
    OverlapExcluded(n, s, b, b', b.offset);
    var s' := s - {b} + {b'};
    forall c, d | c in s' && d in s' && c != d
      ensures Apart(c, d)
    {
      var c0 := if c == b' then b else c;
      var d0 := if d == b' then b else d;
      assert c0 in s && d0 in s && c0 != d0;
    }
    forall p | 0 <= p < Pow2(n)
      ensures Covered(s', p)
    {
      assert Covered(s, p);
      var c :| c in s && Contains(c, p);
      if c == b {
        assert Contains(b', p);
      } else {
        assert c in s';
      }
    }
  }

  /** Relisting a free chunk as used keeps the tiling and the coalescing. */
  lemma MarkUsed(n: nat, s: set<Block>, f: Block)
    requires Tiling(n, s) && Coalesced(n, s) && f in s && f.isFree
    ensures Block(f.order, f.offset, false) !in s
    ensures var s' := s - {f} + {Block(f.order, f.offset, false)};
      Tiling(n, s') && Coalesced(n, s')
  {
    Retag(n, s, f);
  }

  /** Relisting a used chunk as free keeps the coalescing when its buddy is
      not free (or it is the whole arena). */
  lemma {:induction false} FreedCoalesced(n: nat, s: set<Block>, u: Block)
    requires Tiling(n, s) && Coalesced(n, s) && u in s && !u.isFree
    requires u.order < n ==> FreeBuddy(u) !in s
    requires Block(u.order, u.offset, true) !in s
    ensures Coalesced(n, s - {u} + {Block(u.order, u.offset, true)})
  {
    var f := Block(u.order, u.offset, true);
    var s' := s - {u} + {f};
    assert Fits(n, u);
    BuddyFacts(u.offset, u.order);
    forall b, c | b in s' && c in s' && b.isFree && b.order < n
      ensures c != FreeBuddy(b)
    {
      if b == f {
        assert FreeBuddy(f) == FreeBuddy(u);
      } else {
        assert b in s && Fits(n, b);
        BuddyFacts(b.offset, b.order);
      }
    }
  }

  /** Relisting a used chunk as free keeps the tiling, and keeps the
      coalescing when its buddy is not free (or it is the whole arena). */
  lemma MarkFree(n: nat, s: set<Block>, u: Block)
    requires Tiling(n, s) && Coalesced(n, s) && u in s && !u.isFree
    requires u.order < n ==> FreeBuddy(u) !in s
    ensures Block(u.order, u.offset, true) !in s
    ensures var s' := s - {u} + {Block(u.order, u.offset, true)};
      Tiling(n, s') && Coalesced(n, s')
  {
    Retag(n, s, u);
    FreedCoalesced(n, s, u);
  }

  /** A chunk apart from `b` is apart from both halves of `b`. */
  lemma HalvesApart(b: Block, c: Block, loFree: bool, hiFree: bool)
    requires b.order > 0 && Apart(b, c)
    ensures var h := Pow2(b.order - 1);
      && Apart(c, Block(b.order - 1, b.offset, loFree)) && Apart(Block(b.order - 1, b.offset, loFree), c)
      && Apart(c, Block(b.order - 1, b.offset + h, hiFree)) && Apart(Block(b.order - 1, b.offset + h, hiFree), c)
  {
    assert Pow2(b.order) == 2 * Pow2(b.order - 1);
  }

  /** The halves of a chunk of a tiling fit the arena and are not yet in it. */
  lemma HalvesNew(n: nat, s: set<Block>, b: Block)
    requires Tiling(n, s) && b in s && b.order > 0
    ensures var h := Pow2(b.order - 1);
      && Block(b.order - 1, b.offset, false) !in s && Block(b.order - 1, b.offset, true) !in s
      && Block(b.order - 1, b.offset + h, true) !in s
      && Fits(n, Block(b.order - 1, b.offset, false)) && Fits(n, Block(b.order - 1, b.offset + h, true))
  {
    var h := Pow2(b.order - 1);
    assert Fits(n, b);
    HalvesAreBuddies(b.offset, b.order);
    OverlapExcluded(n, s, b, Block(b.order - 1, b.offset, false), b.offset);
    OverlapExcluded(n, s, b, Block(b.order - 1, b.offset + h, true), b.offset + h);
    OverlapExcluded(n, s, b, Block(b.order - 1, b.offset, true), b.offset);
  }

  /** Halving `b` (held as used) into its held lower half and its free upper
      half keeps the chunks fitted and disjoint. */
  lemma {:induction false} SplitDisjoint(n: nat, s: set<Block>, b: Block)
    requires Tiling(n, s) && b in s && b.order > 0
    ensures var lo := Block(b.order - 1, b.offset, false);
      var hi := Block(b.order - 1, b.offset + Pow2(b.order - 1), true);
      var s' := s - {b} + {lo, hi};
      lo !in s && hi !in s && Block(b.order - 1, b.offset, true) !in s && AllFit(n, s') && Disjoint(s')
  {
    var h := Pow2(b.order - 1);
    var lo := Block(b.order - 1, b.offset, false);
    var hi := Block(b.order - 1, b.offset + h, true);
    var s' := s - {b} + {lo, hi};
    HalvesNew(n, s, b);
    forall c, d | c in s' && d in s' && c != d
      ensures Apart(c, d)
    {
      if c in s && d in s {
        assert Disjoint(s);
      } else if c in s {
        assert Apart(b, c);
        HalvesApart(b, c, false, true);
      } else if d in s {
        assert Apart(b, d);
        HalvesApart(b, d, false, true);
      } else {
        assert Pow2(b.order) == 2 * h;
      }
    }
  }

  /** Halving `b` into its two halves leaves no byte uncovered. */
  lemma {:induction false} SplitCovers(n: nat, s: set<Block>, b: Block, loFree: bool, hiFree: bool)
    requires Covers(n, s) && b in s && b.order > 0
    ensures Covers(n, s - {b} + {Block(b.order - 1, b.offset, loFree), Block(b.order - 1, b.offset + Pow2(b.order - 1), hiFree)})
  {
    var h := Pow2(b.order - 1);
    var lo := Block(b.order - 1, b.offset, loFree);
    var hi := Block(b.order - 1, b.offset + h, hiFree);
    var s' := s - {b} + {lo, hi};
    forall p | 0 <= p < Pow2(n)
      ensures Covered(s', p)
    {
      assert Covered(s, p);
      var c :| c in s && Contains(c, p);
      if c == b {
        if p < b.offset + h {
          assert Contains(lo, p);
        } else {
          assert Contains(hi, p);
        }
      } else {
        assert c in s';
      }
    }
  }

  /** Halving `b` (held as used) keeps the coalescing: the new free upper
      half has as buddy the held lower half. */
  lemma {:induction false} SplitCoalesced(n: nat, s: set<Block>, b: Block)
    requires AllFit(n, s) && Coalesced(n, s) && b in s && !b.isFree && b.order > 0
    requires Block(b.order - 1, b.offset, true) !in s
    ensures Coalesced(n, s - {b} + {Block(b.order - 1, b.offset, false), Block(b.order - 1, b.offset + Pow2(b.order - 1), true)})
  {
    var lo := Block(b.order - 1, b.offset, false);
    var hi := Block(b.order - 1, b.offset + Pow2(b.order - 1), true);
    var loFree := Block(b.order - 1, b.offset, true);
    var s' := s - {b} + {lo, hi};
    assert Fits(n, b);
    HalvesAreBuddies(b.offset, b.order);
    forall c, e | c in s' && e in s' && c.isFree && c.order < n
      ensures e != FreeBuddy(c)
    {
      if c == hi {
        assert FreeBuddy(hi) == loFree;
      } else {
        assert c in s && Fits(n, c);
        BuddyFacts(c.offset, c.order);
      }
    }
  }

  /** One step of the split cascade: the chunk `b`, held as used while it is
      being divided, is replaced by its lower half, still held, and its upper
      half, listed as free. */
  lemma SplitStep(n: nat, s: set<Block>, b: Block)
    requires Tiling(n, s) && Coalesced(n, s) && b in s && !b.isFree && b.order > 0
    ensures var lo := Block(b.order - 1, b.offset, false);
      var hi := Block(b.order - 1, b.offset + Pow2(b.order - 1), true);
      var s' := s - {b} + {lo, hi};
      lo !in s && hi !in s && Tiling(n, s') && Coalesced(n, s')
  {
    SplitDisjoint(n, s, b);
    SplitCovers(n, s, b, false, true);
    SplitCoalesced(n, s, b);
  }

  /** Merging `b` with its free buddy `d` into their parent `m` keeps the
      chunks fitted and disjoint. */
  lemma {:induction false} MergeDisjoint(n: nat, s: set<Block>, b: Block)
    requires Tiling(n, s) && b in s && b.order < n && FreeBuddy(b) in s
    ensures var m := Block(b.order + 1, Parent(b.offset, b.order), false);
      m !in s && AllFit(n, s - {b, FreeBuddy(b)} + {m}) && Disjoint(s - {b, FreeBuddy(b)} + {m})
  {
    var d := FreeBuddy(b);
    var m := Block(b.order + 1, Parent(b.offset, b.order), false);
    var s' := s - {b, d} + {m};
    assert Fits(n, b);
    BuddyFacts(b.offset, b.order);
    assert Fits(n, d);
    assert Fits(n, m);
    OverlapExcluded(n, s, b, m, b.offset);
    forall c, e | c in s' && e in s' && c != e
      ensures Apart(c, e)
    {
      if c in s && e in s {
      } else if c in s {
        assert Apart(c, b) && Apart(c, d);
      } else if e in s {
        assert Apart(b, e) && Apart(d, e);
      }
    }
  }

  /** Merging `b` with its free buddy into their parent leaves no byte
      uncovered. */
  lemma {:induction false} MergeCovers(n: nat, s: set<Block>, b: Block)
    requires Covers(n, s) && AllFit(n, s) && b in s && FreeBuddy(b) in s
    ensures Covers(n, s - {b, FreeBuddy(b)} + {Block(b.order + 1, Parent(b.offset, b.order), false)})
  {
    var d := FreeBuddy(b);
    var m := Block(b.order + 1, Parent(b.offset, b.order), false);
    var s' := s - {b, d} + {m};
    assert Fits(n, b);
    BuddyFacts(b.offset, b.order);
    forall p | 0 <= p < Pow2(n)
      ensures Covered(s', p)
    {
      assert Covered(s, p);
      var c :| c in s && Contains(c, p);
      if c == b || c == d {
        assert Contains(m, p);
      } else {
        assert c in s';
      }
    }
  }

  /** One step of the coalesce cascade: the chunk `b` being freed (still
      held as used) and its free buddy are replaced by their parent, held in
      the same way. */
  lemma MergeStep(n: nat, s: set<Block>, b: Block)
    requires Tiling(n, s) && Coalesced(n, s) && b in s && !b.isFree && b.order < n
    requires FreeBuddy(b) in s
    ensures var m := Block(b.order + 1, Parent(b.offset, b.order), false);
      var s' := s - {b, FreeBuddy(b)} + {m};
      m !in s && Tiling(n, s') && Coalesced(n, s')
  {
    MergeDisjoint(n, s, b);
    MergeCovers(n, s, b);
  }

  /** SplitStep for a chunk held aside from the set `s`: the lower half is
      held aside from `s` plus the free upper half. */
  lemma SplitHeld(n: nat, s: set<Block>, b: Block, t: set<Block>)
    requires b !in s && Tiling(n, s + {b}) && Coalesced(n, s + {b}) && !b.isFree && b.order > 0
    requires t == s + {Block(b.order - 1, b.offset + Pow2(b.order - 1), true)}
    ensures var lo := Block(b.order - 1, b.offset, false);
      lo !in t && Tiling(n, t + {lo}) && Coalesced(n, t + {lo})
  {
    var lo := Block(b.order - 1, b.offset, false);
    var hi := Block(b.order - 1, b.offset + Pow2(b.order - 1), true);
    SplitStep(n, s + {b}, b);
    assert s + {b} - {b} + {lo, hi} == t + {lo};
  }

  /** MergeStep for a chunk held aside from the set `s`: the parent is held
      aside from `s` without the buddy. */
  lemma MergeHeld(n: nat, s: set<Block>, b: Block)
    requires b !in s && Tiling(n, s + {b}) && Coalesced(n, s + {b}) && !b.isFree && b.order < n
    requires FreeBuddy(b) in s
    ensures var m := Block(b.order + 1, Parent(b.offset, b.order), false);
      && m !in s - {FreeBuddy(b)}
      && Tiling(n, s - {FreeBuddy(b)} + {m}) && Coalesced(n, s - {FreeBuddy(b)} + {m})
  {
    var m := Block(b.order + 1, Parent(b.offset, b.order), false);
    MergeStep(n, s + {b}, b);
    assert s + {b} - {b, FreeBuddy(b)} + {m} == s - {FreeBuddy(b)} + {m};
  }

  /** MarkFree for a chunk held aside from the set `s`. */
  lemma ReleaseHeld(n: nat, s: set<Block>, b: Block)
    requires b !in s && Tiling(n, s + {b}) && Coalesced(n, s + {b}) && !b.isFree
    requires b.order < n ==> FreeBuddy(b) !in s
    ensures var f := Block(b.order, b.offset, true);
      f !in s && Tiling(n, s + {f}) && Coalesced(n, s + {f})
  {
    var f := Block(b.order, b.offset, true);
    MarkFree(n, s + {b}, b);
    assert s + {b} - {b} + {f} == s + {f};
  }

  /** A chunk of order above k that contains a byte of an order-(k+1)
      aligned region contains the whole region. */
  lemma NestedContains(c: Block, par: int, k: nat, p: int, q: int)
    requires c.order > k && Aligned(c.offset, c.order) && Aligned(par, k + 1)
    requires Contains(c, p) && par <= p < par + Pow2(k + 1) && par <= q < par + Pow2(k + 1)
    ensures Contains(c, q)
  {
    AlignedWeaken(c.offset, k + 1, c.order);
    if par < c.offset {
      AlignedGap(par, c.offset, k + 1);
    }
    Pow2Aligned(k + 1, c.order);
    AlignedAdd(c.offset, Pow2(c.order), k + 1);
    AlignedGap(par, c.offset + Pow2(c.order), k + 1);
  }

  /** In a tiling with no used chunk, a chunk of the smallest order present
      (below the whole arena) finds its buddy listed as free. */
  lemma {:induction false} SmallestHasFreeBuddy(n: nat, s: set<Block>, b: Block)
    requires Tiling(n, s) && (forall c :: c in s ==> c.isFree)
    requires b in s && b.order < n && (forall c :: c in s ==> c.order >= b.order)
    ensures FreeBuddy(b) in s
  {
    var k, o := b.order, b.offset;
    var d, par := Buddy(o, k), Parent(o, k);
    assert Fits(n, b);
    BuddyFacts(o, k);
    if d < o {
      AlignedNext(o, k);
      MultipleIsAligned(0, k);
      AlignedGap(0, o, k);
    }
    Pow2Aligned(k + 1, n);
    AlignedGap(par, Pow2(n), k + 1);
    assert Covered(s, d);
    var c :| c in s && Contains(c, d);
    assert Fits(n, c);
    if c.order > k {
      NestedContains(c, par, k, d, o);
      assert Contains(c, o) && Contains(b, o);
      OverlapExcluded(n, s, b, c, o);
    } else if c.offset < d {
      AlignedGap(c.offset, d, k);
    } else {
      assert c == FreeBuddy(b);
    }
  }

  /** With no used chunk, coalescing leaves no chunk below order k. */
  lemma {:induction false} NoSmallChunks(n: nat, s: set<Block>, k: nat)
    requires Tiling(n, s) && Coalesced(n, s) && (forall c :: c in s ==> c.isFree)
    requires k <= n
    ensures forall b :: b in s ==> b.order >= k
  {
    if k > 0 {
      NoSmallChunks(n, s, k - 1);
      forall b | b in s
        ensures b.order >= k
      {
        if b.order < k {
          SmallestHasFreeBuddy(n, s, b);
        }
      }
    }
  }

  /** Freeing everything restores the start: a coalesced tiling without used
      chunks is the single free chunk covering the arena. */
  lemma {:induction false} AllFreeIsWhole(n: nat, s: set<Block>)
    requires Tiling(n, s) && Coalesced(n, s) && (forall c :: c in s ==> c.isFree)
    ensures s == {Block(n, 0, true)}
  {
    NoSmallChunks(n, s, n);
    forall b | b in s
      ensures b == Block(n, 0, true)
    {
      assert Fits(n, b);
    }
    assert Covered(s, 0);
  }
}
