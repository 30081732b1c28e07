/** CRC-64 values as keys, as src/prep/markup.c uses them for the words of the language. */
module CrcKeys {
  import opened Crc64

  // ---- zeros below ----

  lemma {:induction false} ShlSplit(m: nat, n: nat, w: Word)
    ensures ShlN(m + n, w) == ShlN(n, ShlN(m, w))
  {
    hide Shl;
    if m != 0 {
      ShlSplit(m - 1, n, Shl(w));
    }
  }

  lemma {:induction false} ZeroStays(n: nat)
    ensures ShlN(n, 0) == 0
  {
    if n != 0 {
      ZeroStays(n - 1);
    }
  }

  function Shl8Bits(w: Word): Word {
    w << 8
  }

  function Shl7Bits(w: Word): Word {
    w << 7
  }

  lemma ByEight(w: Word)
    ensures ShlN(8, w) == Shl8Bits(w)
  {
    hide ShlN;
    LowShifts(w);
    Shl8(w);
  }

  lemma BySeven(w: Word)
    ensures ShlN(7, w) == Shl7Bits(w)
  {
    hide ShlN;
    Shl8(w);
  }

  lemma By56(w: Word)
    ensures ShlN(56, w) == Shl8Bits(Shl8Bits(Shl8Bits(Shl8Bits(Shl8Bits(Shl8Bits(Shl8Bits(w)))))))
  {
    hide ShlN;
    hide Shl8Bits;
    var a := Shl8Bits(w);
    var b := Shl8Bits(a);
    var c := Shl8Bits(b);
    var d := Shl8Bits(c);
    var e := Shl8Bits(d);
    var f := Shl8Bits(e);
    ShlSplit(8, 48, w);
    ByEight(w);
    ShlSplit(8, 40, a);
    ByEight(a);
    ShlSplit(8, 32, b);
    ByEight(b);
    ShlSplit(8, 24, c);
    ByEight(c);
    ShlSplit(8, 16, d);
    ByEight(d);
    ShlSplit(8, 8, e);
    ByEight(e);
    ByEight(f);
  }

  lemma OddLeaves(w: Word)
    ensures w & 1 != 0 ==> Shl7Bits(Shl8Bits(Shl8Bits(Shl8Bits(Shl8Bits(Shl8Bits(Shl8Bits(Shl8Bits(w)))))))) != 0
  {
  }

  /** The lowest bit is the last one to leave. */
  lemma OddSurvives(m: nat, w: Word)
    requires m <= 63 && ShlN(m, w) == 0
    ensures w & 1 == 0
  {
    hide ShlN;
    hide Shl8Bits;
    hide Shl7Bits;
    ShlSplit(m, 63 - m, w);
    ZeroStays(63 - m);
    ShlSplit(56, 7, w);
    By56(w);
    BySeven(Shl8Bits(Shl8Bits(Shl8Bits(Shl8Bits(Shl8Bits(Shl8Bits(Shl8Bits(w))))))));
    OddLeaves(w);
  }

  /** The generator is odd: the lowest bit of a step is the bit that fell out. */
  lemma StepOdd(w: Word)
    ensures Step(w) & 1 == 0 ==> !Top(w) && Step(w) == Shl(w)
  {
  }

  /** Zeros below after k steps come from zeros below before them, with nothing falling out. */
  lemma {:induction false} StepsBack(k: nat, m: nat, w: Word)
    requires m + k <= 64 && ShlN(m, StepN(k, w)) == 0
    ensures ShlN(m + k, w) == 0
    ensures forall i: nat :: i < k ==> !Top(ShlN(i, w))
  {
    hide Top;
    hide Shl;
    hide Step;
    if k != 0 {
      StepsBack(k - 1, m, Step(w));
      OddSurvives(m + k - 1, Step(w));
      StepOdd(w);
      forall i: nat | i < k ensures !Top(ShlN(i, w)) {
        if i > 0 {
          assert !Top(ShlN(i - 1, Step(w)));
        }
      }
    }
  }

  lemma {:induction false} ShiftsLinear(n: nat, u: Word, v: Word)
    ensures ShlN(n, Xor(u, v)) == Xor(ShlN(n, u), ShlN(n, v))
  {
    hide Shl;
    hide Xor;
    if n != 0 {
      ShlXor(u, v);
      ShiftsLinear(n - 1, Shl(u), Shl(v));
    }
  }

  // ---- words of at most eight bytes ----

  /** The division of one byte more, as zeros shifted in after the byte was added at the top. */
  lemma OneMore(a: seq<Byte>, x: Byte, init: Word)
    ensures Division(a + [x], init) == StepN(8, Xor(Division(a, init), AtTop(x)))
  {
    hide BitSerial;
    hide Bits;
    hide MessageBits;
    hide StepN;
    hide Xor;
    hide AtTop;
    DivisionComposes(a, [x], init);
    DivisionOfByte(x, Division(a, init));
    ByteStep(Division(a, init), x);
    BitsEnterAtTop(x, Division(a, init));
  }

  lemma BitsDecide(x: Byte, y: Byte)
    requires x & 0x80 == y & 0x80 && x & 0x40 == y & 0x40 && x & 0x20 == y & 0x20 && x & 0x10 == y & 0x10
    requires x & 0x08 == y & 0x08 && x & 0x04 == y & 0x04 && x & 0x02 == y & 0x02 && x & 0x01 == y & 0x01
    ensures x == y
  {
  }

  lemma BitIsWhole(x: Byte)
    ensures x & 0x80 == (if x & 0x80 != 0 then 0x80 else 0) && x & 0x40 == (if x & 0x40 != 0 then 0x40 else 0)
    ensures x & 0x20 == (if x & 0x20 != 0 then 0x20 else 0) && x & 0x10 == (if x & 0x10 != 0 then 0x10 else 0)
    ensures x & 0x08 == (if x & 0x08 != 0 then 0x08 else 0) && x & 0x04 == (if x & 0x04 != 0 then 0x04 else 0)
    ensures x & 0x02 == (if x & 0x02 != 0 then 0x02 else 0) && x & 0x01 == (if x & 0x01 != 0 then 0x01 else 0)
  {
  }

  lemma BitList(x: Byte)
    ensures Bits(x)[0] == (x & 0x80 != 0) && Bits(x)[1] == (x & 0x40 != 0)
    ensures Bits(x)[2] == (x & 0x20 != 0) && Bits(x)[3] == (x & 0x10 != 0)
    ensures Bits(x)[4] == (x & 0x08 != 0) && Bits(x)[5] == (x & 0x04 != 0)
    ensures Bits(x)[6] == (x & 0x02 != 0) && Bits(x)[7] == (x & 0x01 != 0)
  {
  }

  lemma SameBits(x: Byte, y: Byte)
    requires forall i: nat :: i < 8 ==> Bits(x)[i] == Bits(y)[i]
    ensures x == y
  {
    BitList(x);
    BitList(y);
    hide Bits;
    assert Bits(x)[0] == Bits(y)[0] && Bits(x)[1] == Bits(y)[1] && Bits(x)[2] == Bits(y)[2] && Bits(x)[3] == Bits(y)[3];
    assert Bits(x)[4] == Bits(y)[4] && Bits(x)[5] == Bits(y)[5] && Bits(x)[6] == Bits(y)[6] && Bits(x)[7] == Bits(y)[7];
    BitIsWhole(x);
    BitIsWhole(y);
    BitsDecide(x, y);
  }

  /** Bytes that differ show it in the first eight bits to leave. */
  lemma TopsDecide(x: Byte, y: Byte)
    requires forall i: nat :: i < 8 ==> !Top(ShlN(i, Xor(AtTop(x), AtTop(y))))
    ensures x == y
  {
    hide Top;
    hide ShlN;
    hide Xor;
    hide AtTop;
    hide Bits;
    HighByte(x, AtTop(x));
    HighByte(y, AtTop(y));
    forall i: nat | i < 8 ensures Bits(x)[i] == Bits(y)[i] {
      ShiftsLinear(i, AtTop(x), AtTop(y));
      TopXor(ShlN(i, AtTop(x)), ShlN(i, AtTop(y)));
      TopBitsAt(8, AtTop(x), i);
      TopBitsAt(8, AtTop(y), i);
    }
    SameBits(x, y);
  }

  lemma AtTopLeaves(x: Byte, y: Byte, m: nat)
    ensures ShlN(m + 8, Xor(AtTop(x), AtTop(y))) == 0
  {
    hide ShlN;
    hide AtTop;
    hide Xor;
    ShlSplit(8, m, Xor(AtTop(x), AtTop(y)));
    ShiftsLinear(8, AtTop(x), AtTop(y));
    HighByte(x, AtTop(x));
    HighByte(y, AtTop(y));
    XorSelf(0);
    ZeroStays(m);
  }

  /** Messages of one length, at most eight bytes, whose remainders differ only above their lowest bits, are the same
      message. */
  lemma {:induction false} Separates(a: seq<Byte>, b: seq<Byte>, init: Word, m: nat)
    requires |a| == |b| && 8 * |a| + m <= 64 && ShlN(m, Xor(Division(a, init), Division(b, init))) == 0
    ensures a == b
    decreases |a|
  {
    hide ShlN;
    hide StepN;
    hide Xor;
    hide AtTop;
    hide Division;
    hide Top;
    if a != [] {
      var n := |a| - 1;
      var a0, x, b0, y := a[..n], a[n], b[..n], b[n];
      assert a == a0 + [x] && b == b0 + [y];
      OneMore(a0, x, init);
      OneMore(b0, y, init);
      var u, v := Division(a0, init), Division(b0, init);
      var w := Xor(Xor(u, AtTop(x)), Xor(v, AtTop(y)));
      StepsLinear(8, Xor(u, AtTop(x)), Xor(v, AtTop(y)));
      StepsBack(8, m, w);
      XorAssociates(Xor(u, AtTop(x)), v, AtTop(y));
      XorSwap(u, AtTop(x), v);
      XorAssociates(Xor(u, v), AtTop(x), AtTop(y));
      ShiftsLinear(m + 8, Xor(u, v), Xor(AtTop(x), AtTop(y)));
      AtTopLeaves(x, y, m);
      XorZero(ShlN(m + 8, Xor(u, v)));
      Separates(a0, b0, init, m + 8);
      XorSelf(u);
      XorCommutes(0, Xor(AtTop(x), AtTop(y)));
      XorZero(Xor(AtTop(x), AtTop(y)));
      TopsDecide(x, y);
    }
  }

  /** Any two messages of the same length, up to eight bytes, have different checksums from the same start. */
  lemma EqualLengthsDiffer(a: seq<Byte>, b: seq<Byte>, init: Word)
    requires |a| == |b| <= 8
    ensures Division(a, init) == Division(b, init) <==> a == b
  {
    hide Division;
    hide Xor;
    if Division(a, init) == Division(b, init) {
      XorSelf(Division(a, init));
      Separates(a, b, init, 0);
    }
  }

  function Zeros(n: nat): (z: seq<Byte>)
    ensures |z| == n
  {
    if n == 0 then [] else Zeros(n - 1) + [0]
  }

  lemma {:induction false} StepsOfZero(n: nat)
    ensures StepN(n, 0) == 0
  {
    if n != 0 {
      StepsOfZero(n - 1);
    }
  }

  lemma ZeroAtTop()
    ensures Xor(0, AtTop(0)) == 0
  {
  }

  lemma {:induction false} ZerosDivide(n: nat)
    ensures Division(Zeros(n), 0) == 0
  {
    hide StepN;
    hide Xor;
    hide AtTop;
    hide Division;
    if n == 0 {
      DivisionOfNothing(0);
    } else {
      ZerosDivide(n - 1);
      OneMore(Zeros(n - 1), 0, 0);
      ZeroAtTop();
      StepsOfZero(8);
    }
  }

  /** A word: no more than eight bytes, and none of them a leading NUL. */
  predicate ShortWord(a: seq<Byte>) {
    |a| <= 8 && (a != [] ==> a[0] != 0)
  }

  lemma {:induction false} LeadingZero(n: nat)
    requires n > 0
    ensures Zeros(n)[0] == 0
  {
    if n > 1 {
      LeadingZero(n - 1);
    }
  }

  lemma Padded(a: seq<Byte>, b: seq<Byte>)
    requires ShortWord(a) && ShortWord(b) && |a| <= |b|
    ensures Division(a, 0) == Division(b, 0) ==> a == b
  {
    hide Division;
    var z := Zeros(|b| - |a|);
    DivisionComposes(z, a, 0);
    ZerosDivide(|b| - |a|);
    EqualLengthsDiffer(z + a, b, 0);
    if |a| == |b| {
      assert z + a == a;
    } else {
      LeadingZero(|b| - |a|);
      assert (z + a)[0] == 0;
    }
  }

  /** Words of at most eight characters never share a key, whatever their lengths. */
  lemma ShortWordsHaveOwnKeys(a: seq<Byte>, b: seq<Byte>)
    requires ShortWord(a) && ShortWord(b)
    ensures Division(a, 0) == Division(b, 0) <==> a == b
  {
    hide Division;
    if |a| <= |b| {
      Padded(a, b);
    } else {
      Padded(b, a);
    }
  }
}
