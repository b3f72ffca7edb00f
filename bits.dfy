/**
 * Bit helpers of BugFieldUtils (getBit / checkBit) and the bit-mask view of a
 * row of cells used by BugField.initMasks and by the exhaustive searches.
 *
 * Java's `>>` on an int is an arithmetic shift whose distance is taken modulo
 * 32 (modulo 64 for a long); an arithmetic shift by k is floor division by
 * 2^k, which is what Dafny's `/` computes for a positive divisor, and `& 1`
 * of a two's-complement value is its parity, which is Dafny's `% 2`.
 */
module Bits {

  function Pow2(k: nat): (r: nat)
    ensures r >= 1
  {
    if k == 0 then 1 else 2 * Pow2(k - 1)
  }

  /** Bit k of the two's-complement expansion of x, read off by halving. */
  function BitOf(x: int, k: nat): (b: int)
    ensures b == 0 || b == 1
    decreases k
  {
    if k == 0 then x % 2 else BitOf(x / 2, k - 1)
  }

  /** The mask whose bit k is set exactly when bits[k] holds. */
  function MaskOf(bits: seq<bool>): nat
  {
    if bits == [] then 0 else (if bits[0] then 1 else 0) + 2 * MaskOf(bits[1..])
  }

  lemma DivUnique(x: int, d: int, q: int, r: int)
    requires d > 0 && x == d * q + r && 0 <= r < d
    ensures x / d == q && x % d == r
  {
    var q0, r0 := x / d, x % d;
    assert d * q0 + r0 == d * q + r;
    if q0 > q {
      MulMonotone(d, q + 1, q0);
      assert false;
    } else if q0 < q {
      MulMonotone(d, q0 + 1, q);
      assert false;
    }
  }

  lemma MulMonotone(d: nat, a: int, b: int)
    requires a <= b
    ensures d * a <= d * b
  {
    assert d * b - d * a == d * (b - a);
  }

  lemma DivNonneg(x: int, d: int)
    requires x >= 0 && d > 0
    ensures x / d >= 0
  {
    var q := x / d;
    assert x == d * q + x % d;
    if q < 0 {
      MulMonotone(d, q, -1);
      assert false;
    }
  }

  lemma DivLess(x: int, d: int, q: int)
    requires d > 0 && 0 <= x < d * q
    ensures x / d < q
  {
    var t := x / d;
    assert d * t <= x;
    assert d * (q - t) > 0;
  }

  lemma MulSucc(a: int, b: int)
    ensures (a + 1) * b == a * b + b
  {
  }

  /** Row-major numbering stays below rows * cols. */
  lemma IndexBound(r: int, c: int, rows: int, cols: int)
    requires 0 <= r < rows && 0 <= c < cols
    ensures 0 <= r * cols + c < rows * cols
  {
    MulMonotone(cols, r + 1, rows);
    assert cols * (r + 1) == cols * r + cols;
  }

  /** v lies in the span [q*size, q*size + size) exactly when v / size is q. */
  lemma SpanIff(v: int, size: int, q: int)
    requires v >= 0 && size >= 1
    ensures q * size <= v < q * size + size <==> v / size == q
  {
    if q * size <= v < q * size + size {
      DivUnique(v, size, q, v - q * size);
    }
    if v / size == q {
      assert v == size * q + v % size;
    }
  }

  /** Row-major numbering: r*cols + c is k exactly when r and c are k's quotient and remainder. */
  lemma RowMajorIff(k: int, cols: int, r: int, c: int)
    requires cols >= 1 && 0 <= c < cols
    ensures r * cols + c == k <==> (r == k / cols && c == k % cols)
  {
    if r * cols + c == k {
      DivUnique(k, cols, r, c);
    }
    if r == k / cols && c == k % cols {
      assert k == cols * (k / cols) + k % cols;
    }
  }

  /** Floor division by 2 and then by 2^k is floor division by 2^(k+1). */
  lemma HalveThenDivide(x: int, k: nat)
    ensures (x / 2) / Pow2(k) == x / Pow2(k + 1)
  {
    var p := Pow2(k);
    var q := (x / 2) / p;
    var r := (x / 2) % p;
    assert x / 2 == p * q + r && 0 <= r < p;
    assert x == 2 * (x / 2) + x % 2;
    assert x == (2 * p) * q + (2 * r + x % 2);
    DivUnique(x, 2 * p, q, 2 * r + x % 2);
  }

  lemma {:induction false} ShiftedParity(x: int, k: nat)
    ensures (x / Pow2(k)) % 2 == BitOf(x, k)
    decreases k
  {
    if k > 0 {
      ShiftedParity(x / 2, k - 1);
      HalveThenDivide(x, k - 1);
    }
  }

  /** Java `(mask >> bit) & 1` on an int: the shift distance is `bit & 31`. */
  function GetBit(mask: int, bit: int): (r: int)
    ensures r == 0 || r == 1
    ensures r == BitOf(mask, bit % 32)
  {
    ShiftedParity(mask, bit % 32);
    (mask / Pow2(bit % 32)) % 2
  }

  /** Java `(int)((mask >> bit) & 1)` on a long: the shift distance is `bit & 63`. */
  function GetBitLong(mask: int, bit: int): (r: int)
    ensures r == 0 || r == 1
    ensures r == BitOf(mask, bit % 64)
  {
    ShiftedParity(mask, bit % 64);
    (mask / Pow2(bit % 64)) % 2
  }

  function CheckBit(mask: int, bit: int): (b: bool)
    ensures b <==> BitOf(mask, bit % 32) == 1
  {
    GetBit(mask, bit) != 0
  }

  function CheckBitLong(mask: int, bit: int): (b: bool)
    ensures b <==> BitOf(mask, bit % 64) == 1
  {
    GetBitLong(mask, bit) != 0
  }

  /** 2^10, 2^20 and 2^31, the powers the int and long bounds are made of. */
  lemma Pow2Values()
    ensures Pow2(10) == 1024 && Pow2(20) == 1024 * 1024 && Pow2(31) == 0x8000_0000
  {
    assert Pow2(5) == 32;
    assert Pow2(10) == 1024;
    Pow2Add(10, 10);
    Pow2Add(20, 11);
    assert Pow2(11) == 2048;
  }

  lemma {:induction false} Pow2Add(a: nat, b: nat)
    ensures Pow2(a + b) == Pow2(a) * Pow2(b)
    decreases b
  {
    if b > 0 {
      Pow2Add(a, b - 1);
      assert Pow2(a + b) == 2 * Pow2(a + b - 1);
    }
  }

  /** Bit k of MaskOf(bits) is bits[k], and every higher bit is clear. */
  lemma {:induction false} MaskOfBits(bits: seq<bool>, k: nat)
    ensures BitOf(MaskOf(bits), k) == (if k < |bits| && bits[k] then 1 else 0)
  {
    if bits == [] {
      BitOfZero(k);
    } else {
      var low := if bits[0] then 1 else 0;
      DivUnique(MaskOf(bits), 2, MaskOf(bits[1..]), low);
      if k > 0 {
        MaskOfBits(bits[1..], k - 1);
      }
    }
  }

  lemma {:induction false} BitOfZero(k: nat)
    ensures BitOf(0, k) == 0
  {
    if k > 0 {
      BitOfZero(k - 1);
    }
  }

  lemma {:induction false} MaskOfBound(bits: seq<bool>)
    ensures MaskOf(bits) < Pow2(|bits|)
  {
    if bits != [] {
      MaskOfBound(bits[1..]);
    }
  }

  /** Appending a bit at the high end adds its weight: the step of initMasks. */
  lemma {:induction false} MaskOfSnoc(bits: seq<bool>, b: bool)
    ensures MaskOf(bits + [b]) == MaskOf(bits) + (if b then Pow2(|bits|) else 0)
  {
    if bits == [] {
      assert [b][1..] == [];
    } else {
      assert (bits + [b])[1..] == bits[1..] + [b];
      MaskOfSnoc(bits[1..], b);
    }
  }

  /** Two bit sequences of one length with equal masks are equal. */
  lemma MaskOfInjective(a: seq<bool>, b: seq<bool>)
    requires |a| == |b| && MaskOf(a) == MaskOf(b)
    ensures a == b
  {
    forall k | 0 <= k < |a|
      ensures a[k] == b[k]
    {
      MaskOfBits(a, k);
      MaskOfBits(b, k);
    }
  }

  /**
   * Every assignment of `size` bits is produced by some mask in
   * [0, 2^size): a loop over all such masks reading bit k with CheckBit
   * enumerates every assignment.
   */
  lemma MasksCoverAssignments(bits: seq<bool>)
    requires |bits| <= 31
    ensures var mask := MaskOf(bits);
      0 <= mask < Pow2(|bits|) &&
      forall k :: 0 <= k < |bits| ==> CheckBit(mask, k) == bits[k]
  {
    MaskOfBound(bits);
    forall k | 0 <= k < |bits|
      ensures CheckBit(MaskOf(bits), k) == bits[k]
    {
      assert k % 32 == k;
      MaskOfBits(bits, k);
    }
  }

  /** Java `|` on non-negative ints, bit by bit from the low end. */
  function Or(x: nat, y: nat): nat
    decreases x + y
  {
    if x == 0 then y
    else if y == 0 then x
    else (if x % 2 == 1 || y % 2 == 1 then 1 else 0) + 2 * Or(x / 2, y / 2)
  }

  /**
   * Or-ing in a bit above every set bit of x adds its weight: the step
   * `masks[i] |= 1 << j` of initMasks, where only bits below j are set yet.
   */
  lemma {:induction false} OrAddsHighBit(x: nat, k: nat)
    requires x < Pow2(k)
    ensures Or(x, Pow2(k)) == x + Pow2(k)
  {
    if k > 0 && x > 0 {
      assert Pow2(k) / 2 == Pow2(k - 1) && Pow2(k) % 2 == 0;
      OrAddsHighBit(x / 2, k - 1);
    }
  }
}
