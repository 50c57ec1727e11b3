/** Powers of two, the request-size rounding of buddy_allocator.cc and the
    alignment arithmetic that every block offset obeys. */
module Powers {

  /** 2^k, the size in bytes of a chunk of order k. */
  function Pow2(k: nat): (p: nat)
    ensures p >= 1
  {
    if k == 0 then 1 else 2 * Pow2(k - 1)
  }

  /** The order a request of `n` bytes is served at: the smallest k with
      2^k >= n.  The source computes it as ceil(log2(n)) in floating point;
      this is the exact integer version, defined for n >= 1. */
  function Order(n: int): (k: nat)
    requires n >= 1
    ensures n <= Pow2(k)
    ensures k > 0 ==> Pow2(k - 1) < n
    decreases n
  {
    if n == 1 then 0 else 1 + Order((n + 1) / 2)
  }

  /** `o` is a multiple of 2^k: the offset of a chunk of order k. */
  predicate Aligned(o: int, k: nat)
  {
    o % Pow2(k) == 0
  }

  lemma MulAtLeast(t: int, d: int)
    requires t >= 1 && d > 0
    ensures t * d >= d
  {
  }

  lemma MulMonotone(a: int, b: int, d: int)
    requires a <= b && d > 0
    ensures a * d <= b * d
  {
  }

  /** Euclidean division is determined by any quotient/remainder pair. */
  lemma DivModUnique(x: int, d: int, q: int, r: int)
    requires d > 0 && x == q * d + r && 0 <= r < d
    ensures x / d == q && x % d == r
  {
    var q', r' := x / d, x % d;
    if q' < q {
      MulAtLeast(q - q', d);
    } else if q < q' {
      MulAtLeast(q' - q, d);
    }
  }

  /** A multiple of 2^k is aligned to order k, with the expected quotient. */
  lemma MultipleIsAligned(q: int, k: nat)
    ensures Aligned(q * Pow2(k), k) && (q * Pow2(k)) / Pow2(k) == q
  {
    DivModUnique(q * Pow2(k), Pow2(k), q, 0);
  }

  /** An aligned offset is its quotient times the chunk size. */
  lemma AlignedIsMultiple(o: int, k: nat)
    requires Aligned(o, k)
    ensures o == (o / Pow2(k)) * Pow2(k)
  {
  }

  lemma {:induction false} Pow2Add(a: nat, b: nat)
    ensures Pow2(a + b) == Pow2(a) * Pow2(b)
  {
    if b > 0 {
      Pow2Add(a, b - 1);
      assert Pow2(a + b) == 2 * Pow2(a + b - 1);
    }
  }

  lemma {:induction false} Pow2Monotone(a: nat, b: nat)
    requires a <= b
    ensures Pow2(a) <= Pow2(b)
    ensures a < b ==> Pow2(a) < Pow2(b)
    decreases b
  {
    if a < b {
      Pow2Monotone(a, b - 1);
    }
  }

  /** Order picks the least sufficient power: any k with n <= 2^k is at
      least Order(n). */
  lemma OrderIsLeast(n: int, k: nat)
    requires n >= 1 && n <= Pow2(k)
    ensures Order(n) <= k
  {
    if Order(n) > k {
      Pow2Monotone(k, Order(n) - 1);
    }
  }

  /** A request for exactly 2^k bytes is served at order k. */
  lemma OrderOfPow2(k: nat)
    ensures Order(Pow2(k)) == k
  {
    OrderIsLeast(Pow2(k), k);
    if Order(Pow2(k)) < k {
      Pow2Monotone(Order(Pow2(k)), k);
    }
  }

  /** An order-k offset is order-(k+1) aligned exactly when its quotient by
      2^k is even. */
  lemma AlignedNext(o: int, k: nat)
    requires Aligned(o, k)
    ensures Aligned(o, k + 1) <==> (o / Pow2(k)) % 2 == 0
  {
    var q := o / Pow2(k);
    var a, b := q / 2, q % 2;
    assert o == a * Pow2(k + 1) + b * Pow2(k);
    DivModUnique(o, Pow2(k + 1), a, b * Pow2(k));
  }

  /** Alignment to a larger power implies alignment to a smaller one. */
  lemma AlignedWeaken(o: int, k: nat, m: nat)
    requires k <= m && Aligned(o, m)
    ensures Aligned(o, k)
  {
    var q := o / Pow2(m);
    Pow2Add(m - k, k);
    assert o == (q * Pow2(m - k)) * Pow2(k);
    MultipleIsAligned(q * Pow2(m - k), k);
  }

  /** 2^m is aligned to every order up to m. */
  lemma Pow2Aligned(k: nat, m: nat)
    requires k <= m
    ensures Aligned(Pow2(m), k)
  {
    MultipleIsAligned(1, m);
    AlignedWeaken(Pow2(m), k, m);
  }

  /** Sums and differences of order-k offsets are order-k offsets. */
  lemma AlignedAdd(x: int, y: int, k: nat)
    requires Aligned(x, k) && Aligned(y, k)
    ensures Aligned(x + y, k) && Aligned(x - y, k)
  {
    var a, b := x / Pow2(k), y / Pow2(k);
    assert x + y == (a + b) * Pow2(k);
    assert x - y == (a - b) * Pow2(k);
    MultipleIsAligned(a + b, k);
    MultipleIsAligned(a - b, k);
  }

  /** Two distinct order-k offsets are at least 2^k apart. */
  lemma AlignedGap(x: int, y: int, k: nat)
    requires Aligned(x, k) && Aligned(y, k) && x < y
    ensures x + Pow2(k) <= y
  {
    var a, b := x / Pow2(k), y / Pow2(k);
    AlignedIsMultiple(x, k);
    AlignedIsMultiple(y, k);
    assert y - x == (b - a) * Pow2(k);
    if b <= a {
      MulMonotone(b, a, Pow2(k));
    }
    MulAtLeast(b - a, Pow2(k));
  }

  /** The order-(k+1) alignment of q * 2^k is the parity of q. */
  lemma ParityOfMultiple(q: int, k: nat)
    ensures Aligned(q * Pow2(k), k)
    ensures Aligned(q * Pow2(k), k + 1) <==> q % 2 == 0
  {
    MultipleIsAligned(q, k);
    AlignedNext(q * Pow2(k), k);
  }
}
