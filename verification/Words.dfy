/** Machine words as naturals, with the bit operations the sources use. */
module Words {

  type Word = nat

  /** Bitwise exclusive or. */
  function Xor(a: Word, b: Word): (c: Word)
    decreases a + b
  {
    if a == 0 then b
    else if b == 0 then a
    else 2 * Xor(a / 2, b / 2) + (a % 2 + b % 2) % 2
  }

  lemma {:induction false} XorStep(a: Word, b: Word)
    ensures Xor(a, b) / 2 == Xor(a / 2, b / 2)
    ensures Xor(a, b) % 2 == (a % 2 + b % 2) % 2
  {
  }

  lemma {:induction false} XorCommutes(a: Word, b: Word)
    ensures Xor(a, b) == Xor(b, a)
    decreases a + b
  {
    if a != 0 && b != 0 {
      XorCommutes(a / 2, b / 2);
    }
  }

  lemma XorParts(a: Word, b: Word) returns (c: Word)
    ensures c == Xor(a, b) && c / 2 == Xor(a / 2, b / 2) && c % 2 == (a % 2 + b % 2) % 2
  {
    c := Xor(a, b);
    XorStep(a, b);
  }

  lemma ParityAssociates(a: nat, b: nat, c: nat)
    requires a < 2 && b < 2 && c < 2
    ensures ((a + b) % 2 + c) % 2 == (a + (b + c) % 2) % 2
  {
  }

  lemma Halves(l: Word, r: Word)
    requires l / 2 == r / 2 && l % 2 == r % 2
    ensures l == r
  {
  }

  lemma Combine(a: Word, b: Word, c: Word, ab: Word, bc: Word, l: Word, r: Word)
    requires ab % 2 == (a % 2 + b % 2) % 2 && bc % 2 == (b % 2 + c % 2) % 2
    requires l % 2 == (ab % 2 + c % 2) % 2 && r % 2 == (a % 2 + bc % 2) % 2 && l / 2 == r / 2
    ensures l == r
  {
    ParityAssociates(a % 2, b % 2, c % 2);
    Halves(l, r);
  }

  lemma {:induction false} XorAssociates(a: Word, b: Word, c: Word)
    ensures Xor(Xor(a, b), c) == Xor(a, Xor(b, c))
    decreases a + b + c
  {
    if a != 0 && b != 0 && c != 0 {
      XorAssociates(a / 2, b / 2, c / 2);
      var ab := XorParts(a, b);
      var bc := XorParts(b, c);
      var l := XorParts(ab, c);
      var r := XorParts(a, bc);
      Combine(a, b, c, ab, bc, l, r);
    }
  }

  lemma {:induction false} XorSelf(a: Word)
    ensures Xor(a, a) == 0
  {
    if a != 0 {
      XorSelf(a / 2);
    }
  }

  /** (x ^ a ^ b) ^ c ^ d == (x ^ c ^ d) ^ a ^ b */
  lemma XorSwap(x: Word, a: Word, b: Word, c: Word, d: Word)
    ensures Xor(Xor(Xor(Xor(x, a), b), c), d) == Xor(Xor(Xor(Xor(x, c), d), a), b)
  {
    var ab, cd := Xor(a, b), Xor(c, d);
    XorAssociates(x, a, b);
    XorAssociates(Xor(x, ab), c, d);
    XorAssociates(x, c, d);
    XorAssociates(Xor(x, cd), a, b);
    XorAssociates(x, ab, cd);
    XorAssociates(x, cd, ab);
    XorCommutes(ab, cd);
  }

  // ---- single bits ----

  function ShiftRight(w: Word, i: nat): Word
    decreases i
  {
    if i == 0 then w else ShiftRight(w / 2, i - 1)
  }

  /** 1 << i */
  function OneBit(i: nat): (w: Word)
    ensures w > 0
  {
    if i == 0 then 1 else 2 * OneBit(i - 1)
  }

  /** Bitwise or. */
  function Or(a: Word, b: Word): Word
    decreases a + b
  {
    if a == 0 then b
    else if b == 0 then a
    else 2 * Or(a / 2, b / 2) + (if a % 2 == 1 || b % 2 == 1 then 1 else 0)
  }

  /** a & ~b */
  function AndNot(a: Word, b: Word): Word {
    if a == 0 then 0
    else 2 * AndNot(a / 2, b / 2) + (if a % 2 == 1 && b % 2 == 0 then 1 else 0)
  }

  /** (w >> i) & 1 */
  predicate TestBit(w: Word, i: nat) {
    ShiftRight(w, i) % 2 == 1
  }

  lemma {:induction false} ZeroBits(i: nat)
    ensures !TestBit(0, i)
  {
    if i != 0 {
      ZeroBits(i - 1);
    }
  }

  lemma {:induction false} OneBitAt(i: nat, j: nat)
    ensures TestBit(OneBit(i), j) <==> i == j
  {
    if i == 0 && j != 0 {
      assert OneBit(i) / 2 == 0;
      ZeroBits(j - 1);
    } else if i != 0 && j != 0 {
      assert OneBit(i) / 2 == OneBit(i - 1);
      OneBitAt(i - 1, j - 1);
    }
  }

  lemma OrParts(a: Word, b: Word)
    ensures Or(a, b) / 2 == Or(a / 2, b / 2) && (Or(a, b) % 2 == 1 <==> a % 2 == 1 || b % 2 == 1)
  {
  }

  lemma {:induction false} OrBits(a: Word, b: Word, j: nat)
    ensures TestBit(Or(a, b), j) <==> TestBit(a, j) || TestBit(b, j)
    decreases j
  {
    OrParts(a, b);
    hide Or;
    if j != 0 {
      OrBits(a / 2, b / 2, j - 1);
    }
  }

  lemma {:induction false} AndNotBits(a: Word, b: Word, j: nat)
    ensures TestBit(AndNot(a, b), j) <==> TestBit(a, j) && !TestBit(b, j)
    decreases j
  {
    if a == 0 {
      ZeroBits(j);
    } else if j != 0 {
      assert AndNot(a, b) / 2 == AndNot(a / 2, b / 2);
      AndNotBits(a / 2, b / 2, j - 1);
    }
  }
}
