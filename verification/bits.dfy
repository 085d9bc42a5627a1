/** Bit-level arithmetic on Python integers: exclusive or and the Hamming
    weight computed as `bin(x).count('1')`. */
module Bits {

  /** A byte value, 0..255. */
  type Byte = x: int | 0 <= x < 256

  function Pow2(k: nat): (r: nat)
    ensures r >= 1
  {
    if k == 0 then 1 else 2 * Pow2(k - 1)
  }

  // ---------------------------------------------------------------------
  // Exclusive or
  // ---------------------------------------------------------------------

  /** Python's `a ^ b` on non-negative integers, bit by bit from the least
      significant end. */
  function Xor(a: nat, b: nat): nat
    decreases a + b
  {
    if a == 0 && b == 0 then 0
    else 2 * Xor(a / 2, b / 2) + (a % 2 + b % 2) % 2
  }

  /** The recursive step of `Xor` holds for every pair, zero included. */
  lemma XorStep(a: nat, b: nat)
    ensures Xor(a, b) == 2 * Xor(a / 2, b / 2) + (a % 2 + b % 2) % 2
  {
  }

  /** Exclusive or of two k-bit values is a k-bit value. */
  lemma {:induction false} XorBound(a: nat, b: nat, k: nat)
    requires a < Pow2(k) && b < Pow2(k)
    ensures Xor(a, b) < Pow2(k)
  {
    if k == 0 {
      assert a == 0 && b == 0;
    } else if a == 0 && b == 0 {
    } else {
      XorBound(a / 2, b / 2, k - 1);
    }
  }

  /** XOR of a value built from its high part `x` and low bit `bit`. */
  lemma XorOfTwice(x: nat, bit: nat, b: nat)
    requires bit < 2
    ensures Xor(2 * x + bit, b) == 2 * Xor(x, b / 2) + (bit + b % 2) % 2
  {
    var c := 2 * x + bit;
    assert c / 2 == x && c % 2 == bit;
    XorStep(c, b);
  }

  lemma BitCancel(al: nat, bl: nat)
    requires al < 2 && bl < 2
    ensures ((al + bl) % 2 + bl) % 2 == al
  {
  }

  /** Adding the same key twice cancels out: `(a ^ b) ^ b == a`. */
  lemma {:induction false} XorSelfInverse(a: nat, b: nat)
    ensures Xor(Xor(a, b), b) == a
    decreases a + b
  {
    if a == 0 && b == 0 {
    } else {
      var ah, al, bh, bl := a / 2, a % 2, b / 2, b % 2;
      var x := Xor(ah, bh);
      var bit := (al + bl) % 2;
      XorStep(a, b);
      XorOfTwice(x, bit, b);
      XorSelfInverse(ah, bh);
      BitCancel(al, bl);
      assert Xor(Xor(a, b), b) == 2 * ah + al;
    }
  }

  /** Exclusive or is symmetric in its operands. */
  lemma {:induction false} XorCommutes(a: nat, b: nat)
    ensures Xor(a, b) == Xor(b, a)
    decreases a + b
  {
    if a == 0 && b == 0 {
    } else {
      XorCommutes(a / 2, b / 2);
    }
  }

  /** `p ^ g` on two bytes, which is again a byte (section 5.1.4 of FIPS 197,
      AddRoundKey on one state byte). */
  function XorByte(a: Byte, b: Byte): (r: Byte)
    ensures Xor(r, b) == a
    ensures Xor(r, a) == b
  {
    XorBound(a, b, 8);
    XorSelfInverse(a, b);
    XorCommutes(a, b);
    XorSelfInverse(b, a);
    Xor(a, b)
  }

  /** For a fixed plaintext byte, distinct key guesses select distinct
      S-box entries. */
  lemma XorByteInjective(p: Byte, g1: Byte, g2: Byte)
    requires XorByte(p, g1) == XorByte(p, g2)
    ensures g1 == g2
  {
  }

  // ---------------------------------------------------------------------
  // Hamming weight
  // ---------------------------------------------------------------------

  /** The number of one bits of `n`, by arithmetic. */
  function PopCount(n: nat): nat
  {
    if n == 0 then 0 else n % 2 + PopCount(n / 2)
  }

  /** A k-bit value has at most k one bits. */
  lemma {:induction false} PopCountBound(n: nat, k: nat)
    requires n < Pow2(k)
    ensures PopCount(n) <= k
  {
    if n == 0 {
    } else {
      assert k > 0;
      PopCountBound(n / 2, k - 1);
    }
  }

  lemma PopCountByteBound(n: nat)
    ensures n < 256 ==> PopCount(n) <= 8
  {
    if n < 256 {
      PopCountBound(n, 8);
    }
  }

  /** Only zero has no one bits. */
  lemma {:induction false} PopCountZero(n: nat)
    ensures PopCount(n) == 0 <==> n == 0
  {
    if n != 0 && n % 2 == 0 {
      PopCountZero(n / 2);
    }
  }

  function Digit(b: nat): char
    requires b < 2
  {
    if b == 0 then '0' else '1'
  }

  /** The digits Python's `bin` prints after its `0b` prefix: only '0' and
      '1', with no leading zero except for zero itself. */
  function BinDigits(n: nat): (s: string)
    ensures |s| > 0
    ensures forall k :: 0 <= k < |s| ==> s[k] == '0' || s[k] == '1'
    ensures n > 0 ==> s[0] == '1'
    ensures n == 0 ==> s == "0"
  {
    if n < 2 then [Digit(n)] else BinDigits(n / 2) + [Digit(n % 2)]
  }

  /** Python's `bin(n)` for `n >= 0`. */
  function Bin(n: nat): string
  {
    "0b" + BinDigits(n)
  }

  /** Reads a string of binary digits back as a number; the inverse of
      `BinDigits`. */
  function FromBinDigits(s: string): nat
  {
    if |s| == 0 then 0
    else 2 * FromBinDigits(s[..|s| - 1]) + (if s[|s| - 1] == '1' then 1 else 0)
  }

  lemma {:induction false} BinDigitsRoundTrip(n: nat)
    ensures FromBinDigits(BinDigits(n)) == n
  {
    var s := BinDigits(n);
    if n >= 2 {
      BinDigitsRoundTrip(n / 2);
      assert s[..|s| - 1] == BinDigits(n / 2);
    }
  }

  /** Python's `s.count(c)` for a one-character `c`. */
  function CountChar(s: string, c: char): nat
  {
    if |s| == 0 then 0
    else CountChar(s[..|s| - 1], c) + (if s[|s| - 1] == c then 1 else 0)
  }

  lemma {:induction false} CountCharAppend(a: string, b: string, c: char)
    ensures CountChar(a + b, c) == CountChar(a, c) + CountChar(b, c)
    decreases |b|
  {
    if |b| > 0 {
      CountCharAppend(a, b[..|b| - 1], c);
      assert (a + b)[..|a + b| - 1] == a + b[..|b| - 1];
    } else {
      assert a + b == a;
    }
  }

  lemma {:induction false} CountOnesIsPopCount(n: nat)
    ensures CountChar(BinDigits(n), '1') == PopCount(n)
  {
    if n >= 2 {
      CountOnesIsPopCount(n / 2);
      CountCharAppend(BinDigits(n / 2), [Digit(n % 2)], '1');
      assert [Digit(n % 2)][..0] == [];
    } else {
      assert [Digit(n)][..0] == [];
    }
  }

  /** `bin(n).count('1')`, the leakage proxy of the attack: it counts the one
      bits of `n`, and a byte has at most eight of them. */
  function HammingWeight(n: nat): (r: nat)
    ensures r == PopCount(n)
    ensures n < 256 ==> r <= 8
    ensures r == 0 <==> n == 0
  {
    CountCharAppend("0b", BinDigits(n), '1');
    assert CountChar("0b", '1') == 0 by {
      assert "0b"[..1] == "0" && "0"[..0] == "";
    }
    CountOnesIsPopCount(n);
    PopCountByteBound(n);
    PopCountZero(n);
    CountChar(Bin(n), '1')
  }
}
