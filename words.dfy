/**
 * Machine words of the two 64-bit targets.
 *
 * `usize` is modelled as a bounded integer.  Where the source relies on the
 * bit layout of a word (page-table entries, hardware flag sets, the page
 * walker control words) the word is modelled as its 64 bits, least
 * significant bit first, so that `|`, `&`, `<<` and `>>` are pointwise or
 * slicing operations.  The lemmas below tie the two views together.
 */
module Words {

  const WORD_BITS: nat := 64
  const U64: int := 0x1_0000_0000_0000_0000

  /** A value of Rust's `usize` on a 64-bit target. */
  type usize = x: int | 0 <= x < U64

  /** `k` zero bits. */
  function Zeros(k: nat): (r: seq<bool>)
    ensures |r| == k && forall i :: 0 <= i < k ==> !r[i]
  {
    seq(k, _ => false)
  }

  /** A 64-bit machine word, bit 0 first. */
  type Word = w: seq<bool> | |w| == 64 witness Zeros(64)

  /** The word whose value is 0. */
  const EMPTY: Word := Zeros(64)

  function Pow2(n: nat): (r: nat)
    ensures r > 0
  {
    if n == 0 then 1 else 2 * Pow2(n - 1)
  }

  lemma {:induction false} Pow2Add(a: nat, b: nat)
    ensures Pow2(a + b) == Pow2(a) * Pow2(b)
  {
    if a > 0 {
      Pow2Add(a - 1, b);
    }
  }

  lemma {:induction false} Pow2Monotone(a: nat, b: nat)
    requires a <= b
    ensures Pow2(a) <= Pow2(b)
  {
    if a < b {
      Pow2Monotone(a, b - 1);
    }
  }

  /** The powers of two the two targets use. */
  lemma Pow2Table()
    ensures Pow2(1) == 2 && Pow2(2) == 4 && Pow2(3) == 8 && Pow2(4) == 16
    ensures Pow2(5) == 32 && Pow2(6) == 64 && Pow2(8) == 256
    ensures Pow2(9) == 512 && Pow2(12) == 4096 && Pow2(18) == 0x4_0000
    ensures Pow2(26) == 0x400_0000 && Pow2(27) == 0x800_0000
    ensures Pow2(36) == 0x10_0000_0000 && Pow2(38) == 0x40_0000_0000
    ensures Pow2(39) == 0x80_0000_0000 && Pow2(44) == 0x1000_0000_0000
    ensures Pow2(48) == 0x1_0000_0000_0000 && Pow2(52) == 0x10_0000_0000_0000
    ensures Pow2(54) == 0x40_0000_0000_0000 && Pow2(56) == 0x100_0000_0000_0000
    ensures Pow2(64) == U64
  {
    assert Pow2(1) == 2;
    assert Pow2(2) == 4;
    assert Pow2(3) == 8;
    assert Pow2(4) == 16;
    assert Pow2(5) == 32;
    assert Pow2(6) == 64;
    Pow2Add(4, 4);
    Pow2Add(8, 1);
    Pow2Add(8, 4);
    Pow2Add(12, 6);
    Pow2Add(18, 8);
    Pow2Add(26, 1);
    Pow2Add(27, 9);
    Pow2Add(36, 2);
    Pow2Add(38, 1);
    Pow2Add(36, 8);
    Pow2Add(44, 4);
    Pow2Add(48, 4);
    Pow2Add(52, 2);
    Pow2Add(54, 2);
    Pow2Add(56, 8);
  }

  lemma Pow2WordSize()
    ensures Pow2(64) == U64
  {
    Pow2Table();
  }

  /** The sign bit of a 64-bit word. */
  lemma Pow2Sign()
    ensures Pow2(63) == 0x8000_0000_0000_0000
  {
    Pow2Table();
    Pow2Add(56, 6);
    Pow2Add(62, 1);
  }

  /** The low `len` bits of `n`, least significant first. */
  function ToBits(n: nat, len: nat): (r: seq<bool>)
    ensures |r| == len
  {
    if len == 0 then [] else [n % 2 == 1] + ToBits(n / 2, len - 1)
  }

  /** The number whose binary digits, least significant first, are `b`. */
  function FromBits(b: seq<bool>): nat
  {
    if |b| == 0 then 0 else (if b[0] then 1 else 0) + 2 * FromBits(b[1..])
  }

  lemma {:induction false} FromBitsBound(b: seq<bool>)
    ensures FromBits(b) < Pow2(|b|)
  {
    if |b| > 0 {
      FromBitsBound(b[1..]);
    }
  }

  /** Division by a positive number is unique. */
  lemma ModUnique(n: int, m: int, a: int, c: int)
    requires m > 0 && 0 <= c < m && n == m * a + c
    ensures n / m == a && n % m == c
  {
    var k := n / m - a;
    assert m * k == c - n % m;
    if k >= 1 {
      MulAtLeast(m, k);
    } else if k <= -1 {
      MulAtLeast(m, -k);
    }
    assert k == 0;
  }

  lemma MulAtLeast(m: int, k: int)
    requires m > 0 && k >= 1
    ensures m * k >= m
  {
  }

  /** Reading back the low `len` bits of `n` gives `n` modulo 2^len. */
  lemma {:induction false} FromToBits(n: nat, len: nat)
    ensures FromBits(ToBits(n, len)) == n % Pow2(len)
  {
    if len > 0 {
      var bits := ToBits(n, len);
      assert bits[1..] == ToBits(n / 2, len - 1);
      FromToBits(n / 2, len - 1);
      HalveMod(n, Pow2(len - 1));
    }
  }

  /** The remainder modulo `2p` is the last binary digit plus twice the
      remainder of the half modulo `p`. */
  lemma HalveMod(n: nat, p: nat)
    requires p > 0
    ensures n % (2 * p) == n % 2 + 2 * ((n / 2) % p)
  {
    var q, r := n / 2, n % 2;
    var a, b := q / p, q % p;
    assert q == p * a + b;
    assert n == 2 * (p * a) + (2 * b + r);
    assert (2 * p) * a == 2 * (p * a);
    ModUnique(n, 2 * p, a, 2 * b + r);
  }

  /** Reducing twice is reducing once. */
  lemma ModOfMod(v: nat, m: nat)
    requires m > 0
    ensures (v % m) % m == v % m
  {
    ModUnique(v % m, m, 0, v % m);
  }

  lemma FromToBitsExact(n: nat, len: nat)
    requires n < Pow2(len)
    ensures FromBits(ToBits(n, len)) == n
  {
    FromToBits(n, len);
  }

  /** Bits never depend on the digits above the ones read. */
  lemma {:induction false} ToBitsPrefix(n: nat, len: nat, k: nat)
    requires k <= len
    ensures ToBits(n, len)[..k] == ToBits(n, k)
  {
    if k > 0 {
      ToBitsPrefix(n / 2, len - 1, k - 1);
      assert ToBits(n, len)[..k] == [n % 2 == 1] + ToBits(n / 2, len - 1)[..k - 1];
    }
  }

  /** A number below 2^k has no bit set at position k or above. */
  lemma {:induction false} ToBitsHigh(n: nat, len: nat, k: nat, i: nat)
    requires n < Pow2(k) && k <= i < len
    ensures !ToBits(n, len)[i]
  {
    if k == 0 {
      assert n == 0;
      ZeroBits(len);
    } else {
      ToBitsHigh(n / 2, len - 1, k - 1, i - 1);
    }
  }

  lemma {:induction false} ZeroBits(len: nat)
    ensures ToBits(0, len) == Zeros(len)
  {
    if len > 0 {
      ZeroBits(len - 1);
    }
  }

  /** 2^k - 1 is `k` one bits. */
  lemma {:induction false} LowMaskBits(k: nat, len: nat, i: nat)
    requires i < len
    ensures ToBits(Pow2(k) - 1, len)[i] == (i < k)
  {
    if k == 0 {
      ZeroBits(len);
    } else if i > 0 {
      assert (Pow2(k) - 1) / 2 == Pow2(k - 1) - 1;
      LowMaskBits(k - 1, len - 1, i - 1);
    }
  }

  lemma {:induction false} FromBitsOfZeros(k: nat)
    ensures FromBits(Zeros(k)) == 0
  {
    if k > 0 {
      assert Zeros(k)[1..] == Zeros(k - 1);
      FromBitsOfZeros(k - 1);
    }
  }

  /** Zero bits above the top digit add nothing. */
  lemma {:induction false} FromBitsZeros(b: seq<bool>, k: nat)
    ensures FromBits(b + Zeros(k)) == FromBits(b)
  {
    if |b| == 0 {
      assert b + Zeros(k) == Zeros(k);
      FromBitsOfZeros(k);
    } else {
      assert (b + Zeros(k))[1..] == b[1..] + Zeros(k);
      FromBitsZeros(b[1..], k);
    }
  }

  /** Exactly the bits below `k` of `w` are set. */
  predicate LowOnes(w: seq<bool>, k: nat)
  {
    forall i :: 0 <= i < |w| ==> w[i] == (i < k)
  }

  /** The word 2^k - 1 has exactly its low `k` bits set. */
  lemma LowMaskWord(k: nat)
    requires k <= 64
    ensures Pow2(k) - 1 < U64
    ensures LowOnes(ToBits(Pow2(k) - 1, 64), k)
  {
    Pow2WordSize();
    Pow2Monotone(k, 64);
    var m := ToBits(Pow2(k) - 1, 64);
    forall i | 0 <= i < 64 ensures m[i] == (i < k) {
      LowMaskBits(k, 64, i);
    }
  }

  /** The word holding a `usize`. */
  function ToWord(x: usize): Word
  {
    ToBits(x, WORD_BITS)
  }

  /** The `usize` a word holds. */
  function ToUsize(w: Word): (r: usize)
    ensures r == FromBits(w)
  {
    FromBitsBound(w);
    Pow2Table();
    FromBits(w)
  }

  lemma WordRoundTrip(x: usize)
    ensures ToUsize(ToWord(x)) == x
  {
    Pow2Table();
    FromToBitsExact(x, 64);
  }

  /** Bitwise `|`. */
  function Or(a: Word, b: Word): Word
  {
    seq(64, i requires 0 <= i < 64 => a[i] || b[i])
  }

  /** Bitwise `&`. */
  function And(a: Word, b: Word): Word
  {
    seq(64, i requires 0 <= i < 64 => a[i] && b[i])
  }

  /** `a << k`: the bits shifted out at the top are lost. */
  function Shl(a: Word, k: nat): Word
    requires k < 64
  {
    Zeros(k) + a[..64 - k]
  }

  /** `a >> k`, a logical shift. */
  function Shr(a: Word, k: nat): Word
    requires k < 64
  {
    a[k..] + Zeros(k)
  }

  /** `bit!(k)`, that is `1 << k`. */
  function Bit(k: nat): (r: Word)
    requires k < 64
    ensures forall i :: 0 <= i < 64 ==> r[i] == (i == k)
  {
    seq(64, i requires 0 <= i < 64 => i == k)
  }

  /** The number held in bits `off` .. `off + width - 1` of `w`. */
  function Field(w: Word, off: nat, width: nat): nat
    requires off + width <= 64
  {
    FromBits(w[off..off + width])
  }

  /** `x & m` on two `usize` values. */
  function Mask(x: usize, m: usize): usize
  {
    ToUsize(And(ToWord(x), ToWord(m)))
  }

  /** Masking with 2^k - 1 keeps the remainder modulo 2^k. */
  lemma MaskLow(x: usize, k: nat)
    requires k <= 64
    ensures Pow2(k) - 1 < U64
    ensures Mask(x, Pow2(k) - 1) == x % Pow2(k)
  {
    LowMaskWord(k);
    var w := ToWord(x);
    var a := And(w, ToWord(Pow2(k) - 1));
    var low := ToBits(x, k);
    ToBitsPrefix(x, 64, k);
    assert low == w[..k];
    forall i | 0 <= i < 64 ensures a[i] == (low + Zeros(64 - k))[i] {
      if i < k {
        assert a[i] == w[i] == w[..k][i];
      }
    }
    assert a == low + Zeros(64 - k);
    FromBitsZeros(low, 64 - k);
    FromToBits(x, k);
  }

  /** `(w >> off) & (2^width - 1)` read as a number is the field at `off`. */
  lemma ShrMaskField(w: Word, off: nat, width: nat)
    requires off < 64 && off + width <= 64
    ensures Pow2(width) - 1 < U64
    ensures ToUsize(And(Shr(w, off), ToWord(Pow2(width) - 1))) == Field(w, off, width)
  {
    LowMaskWord(width);
    var a := And(Shr(w, off), ToWord(Pow2(width) - 1));
    var f := w[off..off + width];
    forall i | 0 <= i < 64 ensures a[i] == (f + Zeros(64 - width))[i] {
      if i < width {
        assert a[i] == Shr(w, off)[i] == w[off + i] == f[i];
      }
    }
    assert a == f + Zeros(64 - width);
    FromBitsZeros(f, 64 - width);
  }

  /** `!x` on a `usize`. */
  function Not(x: usize): usize
  {
    U64 - 1 - x
  }

  /** `x << k` on a `usize`: the bits shifted out at the top are lost. */
  function ShlUsize(x: usize, k: nat): usize
    requires k < 64
  {
    (x * Pow2(k)) % U64
  }

  lemma MulLeMono(a: int, x: int, y: int)
    requires a >= 0 && x <= y
    ensures a * x <= a * y
  {
    assert a * y - a * x == a * (y - x);
  }

  /** Dividing twice is dividing by the product. */
  lemma DivDiv(x: nat, a: int, b: int)
    requires a > 0 && b > 0
    ensures x / a / b == x / (a * b)
  {
    var q1, r1 := x / a, x % a;
    var q2, r2 := q1 / b, q1 % b;
    assert a * q1 == a * (b * q2) + a * r2;
    assert (a * b) * q2 == a * (b * q2);
    MulLeMono(a, r2, b - 1);
    assert a * (b - 1) == a * b - a;
    ModUnique(x, a * b, q2, a * r2 + r1);
  }

  /** Reading a concatenation of digit strings. */
  /** The regrouping step of `FromBitsConcat`. */
  lemma RegroupDouble(d: int, x: int, p: int, y: int)
    ensures d + 2 * (x + p * y) == (d + 2 * x) + (2 * p) * y
  {
  }

  lemma {:induction false} FromBitsConcat(a: seq<bool>, b: seq<bool>)
    ensures FromBits(a + b) == FromBits(a) + Pow2(|a|) * FromBits(b)
  {
    if |a| == 0 {
      assert a + b == b;
    } else {
      var tail := a[1..];
      assert (a + b)[0] == a[0] && (a + b)[1..] == tail + b;
      FromBitsConcat(tail, b);
      RegroupDouble(if a[0] then 1 else 0, FromBits(tail), Pow2(|tail|), FromBits(b));
    }
  }

  /** The bits of `2^k * m` are `k` zeros followed by those of `m`. */
  lemma {:induction false} ToBitsScaled(x: nat, m: nat, k: nat, len: nat)
    requires k <= len && x == Pow2(k) * m
    ensures ToBits(x, len) == Zeros(k) + ToBits(m, len - k)
  {
    if k > 0 {
      var h := Pow2(k - 1) * m;
      assert x == 2 * h;
      ToBitsScaled(h, m, k - 1, len - 1);
      assert ToBits(x, len) == [false] + ToBits(h, len - 1);
    }
  }

  /** Exactly the bits from `k` upwards of `w` are set. */
  predicate HighOnes(w: seq<bool>, k: nat)
  {
    forall i :: 0 <= i < |w| ==> w[i] == (i >= k)
  }

  lemma {:induction false} HighMaskValue(k: nat, len: nat, m: int)
    requires k <= len && m == Pow2(len - k) - 1
    ensures Pow2(k) <= Pow2(len)
    ensures Pow2(len) - Pow2(k) == Pow2(k) * m
  {
    Pow2Monotone(k, len);
    Pow2Add(k, len - k);
    var p, q := Pow2(k), Pow2(len - k);
    assert p * q - p == p * (q - 1);
  }

  /** `2^len - 2^k` has exactly the bits from `k` upwards set. */
  lemma {:induction false} HighMaskBits(k: nat, len: nat)
    requires k <= len
    ensures Pow2(k) <= Pow2(len)
    ensures HighOnes(ToBits(Pow2(len) - Pow2(k), len), k)
  {
    var n := len - k;
    var m := Pow2(n) - 1;
    HighMaskValue(k, len, m);
    var t := ToBits(m, n);
    AllOnes(n, t);
    var x := Pow2(len) - Pow2(k);
    ToBitsScaled(x, m, k, len);
    ZerosThenOnes(k, t, ToBits(x, len));
  }

  /** `2^n - 1` has all of its `n` low bits set. */
  lemma AllOnes(n: nat, t: seq<bool>)
    requires t == ToBits(Pow2(n) - 1, n)
    ensures forall j :: 0 <= j < |t| ==> t[j]
  {
    forall j | 0 <= j < n ensures t[j] {
      LowMaskBits(n, n, j);
    }
  }

  lemma ZerosThenOnes(k: nat, t: seq<bool>, w: seq<bool>)
    requires forall j :: 0 <= j < |t| ==> t[j]
    requires w == Zeros(k) + t
    ensures HighOnes(w, k)
  {
  }

  /** The word `!(2^k - 1)` has exactly the bits from `k` upwards set. */
  lemma {:induction false} HighMaskWord(k: nat)
    requires k <= 64
    ensures 0 < Pow2(k) <= U64
    ensures HighOnes(ToBits(U64 - Pow2(k), 64), k)
  {
    Pow2WordSize();
    HighMaskBits(k, 64);
  }

  /** Masking with `!(2^k - 1)` clears the remainder modulo 2^k. */
  lemma MaskHigh(x: usize, k: nat)
    requires k <= 64
    ensures 0 < Pow2(k) <= U64
    ensures Mask(x, U64 - Pow2(k)) == x - x % Pow2(k)
  {
    HighMaskWord(k);
    var w := ToWord(x);
    var a := And(w, ToWord(U64 - Pow2(k)));
    forall i | 0 <= i < 64 ensures a[i] == (Zeros(k) + w[k..])[i] {
    }
    assert a == Zeros(k) + w[k..];
    FromBitsConcat(Zeros(k), w[k..]);
    FromBitsOfZeros(k);
    assert w == w[..k] + w[k..];
    FromBitsConcat(w[..k], w[k..]);
    ToBitsPrefix(x, 64, k);
    FromToBits(x, k);
    WordRoundTrip(x);
  }

  /** A value that fits `width` bits, shifted to `off` and or-ed with bits
      that leave that slot clear, is recovered from the slot. */
  lemma PlaceField(v: usize, off: nat, width: nat, rest: Word)
    requires off < 64 && off + width <= 64 && v < Pow2(width)
    requires forall i :: off <= i < off + width ==> !rest[i]
    ensures Field(Or(Shl(ToWord(v), off), rest), off, width) == v
  {
    var w := Or(Shl(ToWord(v), off), rest);
    ToBitsPrefix(v, 64, width);
    assert w[off..off + width] == ToWord(v)[..width];
    FromToBitsExact(v, width);
  }

  /** The bits a value of `width` bits occupies once shifted to `off`. */
  lemma PlacedSupport(v: usize, off: nat, width: nat, i: nat)
    requires off < 64 && v < Pow2(width) && i < 64
    requires i < off || off + width <= i
    ensures !Shl(ToWord(v), off)[i]
  {
    if off <= i {
      ToBitsHigh(v, 64, width, i - off);
    }
  }
}

/** Optional values and fatal errors. */
module Wrappers {

  datatype Option<+T> = None | Some(value: T)

  /** The result of an operation that may `panic!`.  A panic is fatal: the
      model says nothing about what happens after it. */
  datatype Outcome<+T> = Ok(value: T) | Panic
}
