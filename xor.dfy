/** Python's `^` on int. Non-negative operands combine bit by bit; a
    negative operand is the complement ~x == -x - 1 of a non-negative one,
    and ~a ^ b == ~(a ^ b). */
module BitXor {

  /** The xor of two bits. */
  function BitDiffers(x: int, y: int): int
  {
    if x == y then 0 else 1
  }

  function XorNat(a: nat, b: nat): nat
    decreases a + b
  {
    if a == 0 && b == 0 then 0 else 2 * XorNat(a / 2, b / 2) + BitDiffers(a % 2, b % 2)
  }

  function Xor(a: int, b: int): int
  {
    if a >= 0 && b >= 0 then XorNat(a, b)
    else if a < 0 && b < 0 then XorNat(-a - 1, -b - 1)
    else if a < 0 then -(XorNat(-a - 1, b) as int) - 1
    else -(XorNat(a, -b - 1) as int) - 1
  }

  /** The low bit of a ^ b and the bits above it. */
  lemma XorNatBits(a: nat, b: nat)
    ensures XorNat(a, b) % 2 == BitDiffers(a % 2, b % 2)
    ensures XorNat(a, b) / 2 == XorNat(a / 2, b / 2)
  {
    var q := XorNat(a / 2, b / 2);
    var r := BitDiffers(a % 2, b % 2);
    if a == 0 && b == 0 {
      assert q == 0 && r == 0;
    } else {
      assert XorNat(a, b) == 2 * q + r;
    }
    Split(XorNat(a, b), q, r);
  }

  /** 2 * q + r, for a bit r, has low bit r and upper bits q. */
  lemma Split(x: nat, q: nat, r: int)
    requires 0 <= r < 2 && x == 2 * q + r
    ensures x % 2 == r && x / 2 == q
  {
  }

  /** Numbers with the same low bit and the same upper bits are equal. */
  lemma SameBits(x: nat, y: nat)
    requires x % 2 == y % 2 && x / 2 == y / 2
    ensures x == y
  {
  }

  lemma {:induction false} XorNatZero(a: nat)
    ensures XorNat(a, 0) == a
  {
    if a != 0 {
      XorNatZero(a / 2);
      XorNatBits(a, 0);
      SameBits(XorNat(a, 0), a);
    }
  }

  lemma {:induction false} XorNatCommutes(a: nat, b: nat)
    ensures XorNat(a, b) == XorNat(b, a)
    decreases a + b
  {
    if a != 0 || b != 0 {
      XorNatCommutes(a / 2, b / 2);
      XorNatBits(a, b);
      XorNatBits(b, a);
      SameBits(XorNat(a, b), XorNat(b, a));
    }
  }

  /** (a ^ c) ^ c == a */
  lemma {:induction false} XorNatCancel(a: nat, c: nat)
    ensures XorNat(XorNat(a, c), c) == a
    decreases a + c
  {
    if a != 0 || c != 0 {
      XorNatCancel(a / 2, c / 2);
      var x := XorNat(a, c);
      XorNatBits(a, c);
      XorNatBits(x, c);
      assert XorNat(x, c) / 2 == XorNat(XorNat(a / 2, c / 2), c / 2);
      SameBits(XorNat(x, c), a);
    }
  }

  lemma {:induction false} XorNatAssociates(a: nat, b: nat, c: nat)
    ensures XorNat(XorNat(a, b), c) == XorNat(a, XorNat(b, c))
    decreases a + b + c
  {
    if a != 0 || b != 0 || c != 0 {
      XorNatAssociates(a / 2, b / 2, c / 2);
      AssociatesStep(a, b, c);
    }
  }

  /** (a ^ b) ^ c and a ^ (b ^ c) have the same low bit, and the same upper
      bits when the statement holds one bit further up. */
  lemma AssociatesStep(a: nat, b: nat, c: nat)
    requires XorNat(XorNat(a / 2, b / 2), c / 2) == XorNat(a / 2, XorNat(b / 2, c / 2))
    ensures XorNat(XorNat(a, b), c) == XorNat(a, XorNat(b, c))
  {
    LeftBits(a, b, c);
    RightBits(a, b, c);
    BitDiffersAssociates(a % 2, b % 2, c % 2);
    SameBits(XorNat(XorNat(a, b), c), XorNat(a, XorNat(b, c)));
  }

  /** The bits of (a ^ b) ^ c. */
  lemma LeftBits(a: nat, b: nat, c: nat)
    ensures XorNat(XorNat(a, b), c) % 2 == BitDiffers(BitDiffers(a % 2, b % 2), c % 2)
    ensures XorNat(XorNat(a, b), c) / 2 == XorNat(XorNat(a / 2, b / 2), c / 2)
  {
    XorNatBits(a, b);
    XorNatBits(XorNat(a, b), c);
  }

  /** The bits of a ^ (b ^ c). */
  lemma RightBits(a: nat, b: nat, c: nat)
    ensures XorNat(a, XorNat(b, c)) % 2 == BitDiffers(a % 2, BitDiffers(b % 2, c % 2))
    ensures XorNat(a, XorNat(b, c)) / 2 == XorNat(a / 2, XorNat(b / 2, c / 2))
  {
    XorNatBits(b, c);
    XorNatBits(a, XorNat(b, c));
  }

  lemma BitDiffersAssociates(x: int, y: int, z: int)
    requires 0 <= x < 2 && 0 <= y < 2 && 0 <= z < 2
    ensures BitDiffers(BitDiffers(x, y), z) == BitDiffers(x, BitDiffers(y, z))
  {
  }

  /** For a fixed second operand, ^ is one-to-one on non-negative values. */
  lemma XorInjective(a: int, b: int, c: int)
    requires a >= 0 && b >= 0 && c >= 0
    requires Xor(a, c) == Xor(b, c)
    ensures a == b
  {
    XorNatCancel(a, c);
    XorNatCancel(b, c);
  }

  /** s ^ 1 flips the low bit: it is the other member of the pair {2k, 2k+1}. */
  lemma XorOne(s: nat)
    ensures Xor(s, 1) == if s % 2 == 0 then s + 1 else s - 1
  {
    XorNatZero(s / 2);
    assert XorNat(s, 1) == 2 * XorNat(s / 2, 0) + BitDiffers(s % 2, 1);
  }

  /** s ^ (i ^ 1) == (s ^ 1) ^ i, for non-negative s and i. */
  lemma XorMoveLowBit(s: nat, i: nat)
    ensures Xor(s, Xor(i, 1)) == Xor(Xor(s, 1), i)
  {
    XorNatCommutes(i, 1);
    XorNatAssociates(s, 1, i);
  }
}
