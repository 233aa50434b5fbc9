/**
 * Splitting a virtual page number into one table index per level of a radix
 * page table: 9 bits per level, the root level's index first.
 */
module PageIndex {
  import opened Words

  const INDEX_BITS: nat := 9
  const INDEX_MASK: usize := 511
  /** The number of entries a table page holds, 2^INDEX_BITS. */
  const ENTRIES: nat := 512

  /** An index is `INDEX_BITS` bits wide. */
  lemma EntriesWidth()
    ensures Pow2(INDEX_BITS) == ENTRIES
  {
    Pow2Table();
  }

  /** The indices of the `n` lowest levels of `vpn`; the last one is the
      least significant. */
  function Indices(vpn: nat, n: nat): (r: seq<nat>)
    ensures |r| == n
  {
    if n == 0 then [] else Indices(vpn / ENTRIES, n - 1) + [vpn % ENTRIES]
  }

  /** Reading indices back as base-512 digits, most significant first. */
  function Combine(idx: seq<nat>): nat
  {
    if |idx| == 0 then 0 else Combine(idx[..|idx| - 1]) * ENTRIES + idx[|idx| - 1]
  }

  /** Every index addresses an entry of a table page. */
  lemma {:induction false} IndicesBounded(vpn: nat, n: nat)
    ensures forall i :: 0 <= i < n ==> Indices(vpn, n)[i] < ENTRIES
  {
    if n > 0 {
      IndicesBounded(vpn / ENTRIES, n - 1);
      var r := Indices(vpn, n);
      assert r == Indices(vpn / ENTRIES, n - 1) + [vpn % ENTRIES];
    }
  }

  /** Index `i` of `n` is the `i`-th 9-bit digit counted from the top. */
  lemma {:induction false} IndexDigit(vpn: nat, n: nat, i: nat)
    requires i < n
    ensures Indices(vpn, n)[i] == (vpn / Pow2(INDEX_BITS * (n - 1 - i))) % ENTRIES
  {
    Pow2Table();
    if i < n - 1 {
      IndexDigit(vpn / ENTRIES, n - 1, i);
      Pow2Add(INDEX_BITS, INDEX_BITS * (n - 2 - i));
      assert INDEX_BITS * (n - 1 - i) == INDEX_BITS + INDEX_BITS * (n - 2 - i);
      DivDiv(vpn, ENTRIES, Pow2(INDEX_BITS * (n - 2 - i)));
    }
  }

  /** The next more significant digit goes in front. */
  lemma {:induction false} IndicesPrepend(vpn: nat, k: nat)
    ensures Indices(vpn, k + 1) == [(vpn / Pow2(INDEX_BITS * k)) % ENTRIES] + Indices(vpn, k)
  {
    Pow2Table();
    if k > 0 {
      IndicesPrepend(vpn / ENTRIES, k - 1);
      Pow2Add(INDEX_BITS, INDEX_BITS * (k - 1));
      assert INDEX_BITS * k == INDEX_BITS + INDEX_BITS * (k - 1);
      DivDiv(vpn, ENTRIES, Pow2(INDEX_BITS * (k - 1)));
    }
  }

  /** Combining the indices gives back the low `9 * n` bits of the page
      number. */
  lemma {:induction false} CombineIndices(vpn: nat, n: nat)
    ensures Combine(Indices(vpn, n)) == vpn % Pow2(INDEX_BITS * n)
  {
    Pow2Table();
    if n > 0 {
      var r := Indices(vpn, n);
      assert r[..n - 1] == Indices(vpn / ENTRIES, n - 1);
      CombineIndices(vpn / ENTRIES, n - 1);
      var m := Pow2(INDEX_BITS * (n - 1));
      Pow2Add(INDEX_BITS, INDEX_BITS * (n - 1));
      assert INDEX_BITS * n == INDEX_BITS + INDEX_BITS * (n - 1);
      DigitStep(vpn, ENTRIES, m);
    }
  }

  /** `(x / d % m) * d + x % d == x % (d * m)`. */
  lemma DigitStep(x: nat, d: int, m: int)
    requires d > 0 && m > 0
    ensures (x / d % m) * d + x % d == x % (d * m)
  {
    DivDiv(x, d, m);
    var q, hi, lo := x / d / m, x / d % m, x % d;
    assert x / d == m * q + hi;
    assert x == d * (m * q + hi) + lo;
    assert d * (m * q + hi) == (d * m) * q + hi * d;
    MulLeMono(d, hi, m - 1);
    assert d * (m - 1) == d * m - d;
    ModUnique(x, d * m, q, hi * d + lo);
  }
}
