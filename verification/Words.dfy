/** Machine words as sets of bit positions.

    An unsigned integer is the set of the positions of its one bits, so `&`, `|`, `& ~` and `^`
    are intersection, union, difference and symmetric difference. A `Word` is a uint64_t.
    `Num` gives the number a set of bits denotes, which is what comparisons, table indices
    and signed values are about. */
module Words {

  type Bits = set<nat>

  /** x fits in an unsigned integer of n bits. */
  predicate Fits(x: Bits, n: nat) {
    forall i | i in x :: i < n
  }

  type Word = x: Bits | Fits(x, 64)

  /** (1 << n) - 1 */
  function Low(n: nat): (r: Bits)
    ensures forall i: nat {:trigger i in r} :: i in r <==> i < n
  {
    if n == 0 then {} else Low(n - 1) + {n - 1}
  }

  /** x << s, with no bit falling off. */
  function Shl(x: Bits, s: nat): (r: Bits)
    ensures forall i: nat {:trigger i in r} :: i in r <==> i >= s && i - s in x
  {
    var r := set i | i in x :: i + s;
    assert forall i: nat | i >= s && i - s in x :: i == (i - s) + s && i in r;
    r
  }

  /** x >> s */
  function Shr(x: Bits, s: nat): (r: Bits)
    ensures forall i: nat {:trigger i in r} :: i in r <==> i + s in x
  {
    var r := set i | i in x && i >= s :: i - s;
    assert forall i: nat | i + s in x :: i == (i + s) - s && i in r;
    r
  }

  /** A position in a uint64_t. */
  predicate InWord(i: nat) {
    i < 64
  }

  /** ~0 */
  function Ones(): (r: Word)
    ensures forall i: nat {:trigger i in r} :: i in r <==> i < 64
  {
    set i: nat | i < 64 && InWord(i)
  }

  /** x << s in a uint64_t: bits shifted past position 63 are lost. */
  function Shl64(x: Word, s: nat): (r: Word)
    ensures forall i: nat {:trigger i in r} :: i in r <==> s <= i < 64 && i - s in x
  {
    Shl(x, s) * Ones()
  }

  /** Bits lsb, ..., lsb + width - 1 of x, shifted down: (x >> lsb) & ((1 << width) - 1) */
  function Slice(x: Bits, lsb: nat, width: nat): (r: Bits)
    ensures forall i: nat {:trigger i in r} :: i in r <==> i < width && i + lsb in x
  {
    Shr(x, lsb) * Low(width)
  }

  function Min(a: nat, b: nat): nat {
    if a < b then a else b
  }

  function Pow2(n: nat): (r: nat)
    ensures r >= 1
  {
    if n == 0 then 1 else 2 * Pow2(n - 1)
  }

  /** The number denoted by the low n bits of x. */
  function Num(x: Bits, n: nat): nat {
    if n == 0 then 0 else Num(x, n - 1) + if n - 1 in x then Pow2(n - 1) else 0
  }

  /** The n-bit representation of a number. */
  function BitsOf(v: nat, n: nat): Bits
    requires v < Pow2(n)
  {
    if n == 0 then {}
    else if v >= Pow2(n - 1) then BitsOf(v - Pow2(n - 1), n - 1) + {n - 1}
    else BitsOf(v, n - 1)
  }

  lemma {:induction false} NumBound(x: Bits, n: nat)
    ensures Num(x, n) < Pow2(n)
  {
    if n > 0 { NumBound(x, n - 1); }
  }

  /** Only the low n bits matter. */
  lemma {:induction false} NumCongruent(x: Bits, y: Bits, n: nat)
    requires forall i: nat | i < n :: i in x <==> i in y
    ensures Num(x, n) == Num(y, n)
  {
    if n > 0 { NumCongruent(x, y, n - 1); }
  }

  /** Bits above the word contribute nothing. */
  lemma {:induction false} NumWiden(x: Bits, n: nat, m: nat)
    requires Fits(x, n) && n <= m
    ensures Num(x, m) == Num(x, n)
  {
    if n < m { NumWiden(x, n, m - 1); }
  }

  /** The highest differing bit decides a comparison. */
  lemma {:induction false} NumLess(x: Bits, y: Bits, k: nat, n: nat)
    requires k < n && k !in x && k in y
    requires forall i: nat | k < i < n :: i in x <==> i in y
    ensures Num(x, n) < Num(y, n)
  {
    if n == k + 1 {
      NumBound(x, k);
    } else {
      NumLess(x, y, k, n - 1);
    }
  }

  /** Two words that differ have a highest differing bit. */
  lemma {:induction false} HighestDifference(x: Bits, y: Bits, n: nat) returns (k: nat)
    requires exists i: nat :: i < n && (i in x) != (i in y)
    ensures k < n && (k in x) != (k in y)
    ensures forall i: nat | k < i < n :: i in x <==> i in y
  {
    if (n - 1 in x) != (n - 1 in y) {
      k := n - 1;
    } else {
      k := HighestDifference(x, y, n - 1);
    }
  }

  lemma {:induction false} NumInjective(x: Bits, y: Bits, n: nat)
    requires Fits(x, n) && Fits(y, n)
    ensures Num(x, n) == Num(y, n) <==> x == y
  {
    if x != y {
      var i: nat :| (i in x) != (i in y);
      var k := HighestDifference(x, y, n);
      if k in x {
        NumLess(y, x, k, n);
      } else {
        NumLess(x, y, k, n);
      }
    }
  }

  lemma {:induction false} NumBitsOf(v: nat, n: nat)
    requires v < Pow2(n)
    ensures Fits(BitsOf(v, n), n)
    ensures Num(BitsOf(v, n), n) == v
  {
    if n > 0 {
      var u := if v >= Pow2(n - 1) then v - Pow2(n - 1) else v;
      NumBitsOf(u, n - 1);
      NumCongruent(BitsOf(v, n), BitsOf(u, n - 1), n - 1);
    }
  }

  lemma {:induction false} Pow2Add(m: nat, n: nat)
    ensures Pow2(m + n) == Pow2(m) * Pow2(n)
  {
    if n > 0 {
      Pow2Add(m, n - 1);
      Regroup(Pow2(m), 2, Pow2(n - 1));
    }
  }

  lemma {:induction false} Regroup(a: int, b: int, c: int)
    ensures a * (b * c) == b * (a * c)
  {
  }

  lemma {:induction false} Distribute(a: int, b: int, c: int)
    ensures a * (b + c) == a * b + a * c
  {
  }

  lemma {:induction false} QuotientUnique(d: int, q: int, r: int, q': int, r': int)
    requires 0 <= r < d && 0 <= r' < d && d * q + r == d * q' + r'
    ensures q == q' && r == r'
  {
    Distribute(d, q - q', q');
    if q > q' {
      Distribute(d, q - q' - 1, 1);
      MulNonNegative(d, q - q' - 1);
    } else if q < q' {
      Distribute(d, q' - q - 1, 1);
      Distribute(d, q' - q, q);
      MulNonNegative(d, q' - q - 1);
    }
  }

  lemma {:induction false} MulNonNegative(a: int, b: int)
    requires a >= 0 && b >= 0
    ensures a * b >= 0
  {
  }

  lemma {:induction false} DivMod(v: int, d: nat, q: int, r: int)
    requires 0 <= r < d && v == d * q + r
    ensures v / d == q && v % d == r
  {
    QuotientUnique(d, q, r, v / d, v % d);
  }

  /** A number is its low s bits plus 2^s times the rest. */
  lemma {:induction false} NumSplit(x: Bits, s: nat, n: nat)
    ensures Num(x, s + n) == Num(x, s) + Pow2(s) * Num(Shr(x, s), n)
  {
    if n > 0 {
      NumSplit(x, s, n - 1);
      Pow2Add(s, n - 1);
      Distribute(Pow2(s), Num(Shr(x, s), n - 1), Pow2(n - 1));
    }
  }

  /** Shifting right divides by a power of two; masking with the low bits takes the remainder. */
  lemma {:induction false} NumShr(x: Bits, s: nat, n: nat)
    ensures Num(Shr(x, s), n) == Num(x, s + n) / Pow2(s)
    ensures Num(x * Low(s), s + n) == Num(x, s + n) % Pow2(s)
  {
    NumSplit(x, s, n);
    NumBound(x, s);
    DivMod(Num(x, s + n), Pow2(s), Num(Shr(x, s), n), Num(x, s));
    NumCongruent(x * Low(s), x, s);
    NumWiden(x * Low(s), s, s + n);
  }
}
