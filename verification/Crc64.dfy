/** The CRC-64 of std/hash.c: a table-driven form of a bit-serial shift register. */
module Crc64 {

  type Word = bv64
  type Byte = bv8

  /** x^64 + ... of ECMA-182, Annex B, without its leading term. */
  const POLY: Word := 0x42F0E1EBA9EA3693

  // ---- the shift register ----

  predicate Top(c: Word) {
    c & 0x8000_0000_0000_0000 != 0
  }

  function Shl(c: Word): Word {
    c << 1
  }

  function Xor(a: Word, b: Word): Word {
    a ^ b
  }

  /** One message bit: the bit that falls out, combined with the message bit, feeds the generator back. */
  function ShiftIn(c: Word, bit: bool): Word {
    if Top(c) != bit then Xor(Shl(c), POLY) else Shl(c)
  }

  /** Division of a message, given as bits in order, by the generator. */
  function BitSerial(bits: seq<bool>, c: Word): Word
    decreases |bits|
  {
    if bits == [] then c else BitSerial(bits[1..], ShiftIn(c, bits[0]))
  }

  /** The bits of a byte, most significant first. */
  function Bits(b: Byte): (bits: seq<bool>)
    ensures |bits| == 8
  {
    [b & 0x80 != 0, b & 0x40 != 0, b & 0x20 != 0, b & 0x10 != 0,
     b & 0x08 != 0, b & 0x04 != 0, b & 0x02 != 0, b & 0x01 != 0]
  }

  function MessageBits(buf: seq<Byte>): (bits: seq<bool>)
    ensures |bits| == 8 * |buf|
  {
    if buf == [] then [] else Bits(buf[0]) + MessageBits(buf[1..])
  }

  /** Shifting in a zero bit. */
  function Step(c: Word): Word {
    ShiftIn(c, false)
  }

  function Step8(c: Word): Word {
    Step(Step(Step(Step(Step(Step(Step(Step(c))))))))
  }

  // ---- the table ----

  // Sixteen entries to a row, selected by the low digit of the index.

  function Row0(d: nat): Word
    requires d < 16
  {
    match d
    case 0 => 0x0000000000000000 case 1 => 0x42f0e1eba9ea3693
    case 2 => 0x85e1c3d753d46d26 case 3 => 0xc711223cfa3e5bb5
    case 4 => 0x493366450e42ecdf case 5 => 0x0bc387aea7a8da4c
    case 6 => 0xccd2a5925d9681f9 case 7 => 0x8e224479f47cb76a
    case 8 => 0x9266cc8a1c85d9be case 9 => 0xd0962d61b56fef2d
    case 10 => 0x17870f5d4f51b498 case 11 => 0x5577eeb6e6bb820b
    case 12 => 0xdb55aacf12c73561 case 13 => 0x99a54b24bb2d03f2
    case 14 => 0x5eb4691841135847 case _ => 0x1c4488f3e8f96ed4
  }

  function Row1(d: nat): Word
    requires d < 16
  {
    match d
    case 0 => 0x663d78ff90e185ef case 1 => 0x24cd9914390bb37c
    case 2 => 0xe3dcbb28c335e8c9 case 3 => 0xa12c5ac36adfde5a
    case 4 => 0x2f0e1eba9ea36930 case 5 => 0x6dfeff5137495fa3
    case 6 => 0xaaefdd6dcd770416 case 7 => 0xe81f3c86649d3285
    case 8 => 0xf45bb4758c645c51 case 9 => 0xb6ab559e258e6ac2
    case 10 => 0x71ba77a2dfb03177 case 11 => 0x334a9649765a07e4
    case 12 => 0xbd68d2308226b08e case 13 => 0xff9833db2bcc861d
    case 14 => 0x388911e7d1f2dda8 case _ => 0x7a79f00c7818eb3b
  }

  function Row2(d: nat): Word
    requires d < 16
  {
    match d
    case 0 => 0xcc7af1ff21c30bde case 1 => 0x8e8a101488293d4d
    case 2 => 0x499b3228721766f8 case 3 => 0x0b6bd3c3dbfd506b
    case 4 => 0x854997ba2f81e701 case 5 => 0xc7b97651866bd192
    case 6 => 0x00a8546d7c558a27 case 7 => 0x4258b586d5bfbcb4
    case 8 => 0x5e1c3d753d46d260 case 9 => 0x1cecdc9e94ace4f3
    case 10 => 0xdbfdfea26e92bf46 case 11 => 0x990d1f49c77889d5
    case 12 => 0x172f5b3033043ebf case 13 => 0x55dfbadb9aee082c
    case 14 => 0x92ce98e760d05399 case _ => 0xd03e790cc93a650a
  }

  function Row3(d: nat): Word
    requires d < 16
  {
    match d
    case 0 => 0xaa478900b1228e31 case 1 => 0xe8b768eb18c8b8a2
    case 2 => 0x2fa64ad7e2f6e317 case 3 => 0x6d56ab3c4b1cd584
    case 4 => 0xe374ef45bf6062ee case 5 => 0xa1840eae168a547d
    case 6 => 0x66952c92ecb40fc8 case 7 => 0x2465cd79455e395b
    case 8 => 0x3821458aada7578f case 9 => 0x7ad1a461044d611c
    case 10 => 0xbdc0865dfe733aa9 case 11 => 0xff3067b657990c3a
    case 12 => 0x711223cfa3e5bb50 case 13 => 0x33e2c2240a0f8dc3
    case 14 => 0xf4f3e018f031d676 case _ => 0xb60301f359dbe0e5
  }

  function Row4(d: nat): Word
    requires d < 16
  {
    match d
    case 0 => 0xda050215ea6c212f case 1 => 0x98f5e3fe438617bc
    case 2 => 0x5fe4c1c2b9b84c09 case 3 => 0x1d14202910527a9a
    case 4 => 0x93366450e42ecdf0 case 5 => 0xd1c685bb4dc4fb63
    case 6 => 0x16d7a787b7faa0d6 case 7 => 0x5427466c1e109645
    case 8 => 0x4863ce9ff6e9f891 case 9 => 0x0a932f745f03ce02
    case 10 => 0xcd820d48a53d95b7 case 11 => 0x8f72eca30cd7a324
    case 12 => 0x0150a8daf8ab144e case 13 => 0x43a04931514122dd
    case 14 => 0x84b16b0dab7f7968 case _ => 0xc6418ae602954ffb
  }

  function Row5(d: nat): Word
    requires d < 16
  {
    match d
    case 0 => 0xbc387aea7a8da4c0 case 1 => 0xfec89b01d3679253
    case 2 => 0x39d9b93d2959c9e6 case 3 => 0x7b2958d680b3ff75
    case 4 => 0xf50b1caf74cf481f case 5 => 0xb7fbfd44dd257e8c
    case 6 => 0x70eadf78271b2539 case 7 => 0x321a3e938ef113aa
    case 8 => 0x2e5eb66066087d7e case 9 => 0x6cae578bcfe24bed
    case 10 => 0xabbf75b735dc1058 case 11 => 0xe94f945c9c3626cb
    case 12 => 0x676dd025684a91a1 case 13 => 0x259d31cec1a0a732
    case 14 => 0xe28c13f23b9efc87 case _ => 0xa07cf2199274ca14
  }

  function Row6(d: nat): Word
    requires d < 16
  {
    match d
    case 0 => 0x167ff3eacbaf2af1 case 1 => 0x548f120162451c62
    case 2 => 0x939e303d987b47d7 case 3 => 0xd16ed1d631917144
    case 4 => 0x5f4c95afc5edc62e case 5 => 0x1dbc74446c07f0bd
    case 6 => 0xdaad56789639ab08 case 7 => 0x985db7933fd39d9b
    case 8 => 0x84193f60d72af34f case 9 => 0xc6e9de8b7ec0c5dc
    case 10 => 0x01f8fcb784fe9e69 case 11 => 0x43081d5c2d14a8fa
    case 12 => 0xcd2a5925d9681f90 case 13 => 0x8fdab8ce70822903
    case 14 => 0x48cb9af28abc72b6 case _ => 0x0a3b7b1923564425
  }

  function Row7(d: nat): Word
    requires d < 16
  {
    match d
    case 0 => 0x70428b155b4eaf1e case 1 => 0x32b26afef2a4998d
    case 2 => 0xf5a348c2089ac238 case 3 => 0xb753a929a170f4ab
    case 4 => 0x3971ed50550c43c1 case 5 => 0x7b810cbbfce67552
    case 6 => 0xbc902e8706d82ee7 case 7 => 0xfe60cf6caf321874
    case 8 => 0xe224479f47cb76a0 case 9 => 0xa0d4a674ee214033
    case 10 => 0x67c58448141f1b86 case 11 => 0x253565a3bdf52d15
    case 12 => 0xab1721da49899a7f case 13 => 0xe9e7c031e063acec
    case 14 => 0x2ef6e20d1a5df759 case _ => 0x6c0603e6b3b7c1ca
  }

  function Row8(d: nat): Word
    requires d < 16
  {
    match d
    case 0 => 0xf6fae5c07d3274cd case 1 => 0xb40a042bd4d8425e
    case 2 => 0x731b26172ee619eb case 3 => 0x31ebc7fc870c2f78
    case 4 => 0xbfc9838573709812 case 5 => 0xfd39626eda9aae81
    case 6 => 0x3a28405220a4f534 case 7 => 0x78d8a1b9894ec3a7
    case 8 => 0x649c294a61b7ad73 case 9 => 0x266cc8a1c85d9be0
    case 10 => 0xe17dea9d3263c055 case 11 => 0xa38d0b769b89f6c6
    case 12 => 0x2daf4f0f6ff541ac case 13 => 0x6f5faee4c61f773f
    case 14 => 0xa84e8cd83c212c8a case _ => 0xeabe6d3395cb1a19
  }

  function Row9(d: nat): Word
    requires d < 16
  {
    match d
    case 0 => 0x90c79d3fedd3f122 case 1 => 0xd2377cd44439c7b1
    case 2 => 0x15265ee8be079c04 case 3 => 0x57d6bf0317edaa97
    case 4 => 0xd9f4fb7ae3911dfd case 5 => 0x9b041a914a7b2b6e
    case 6 => 0x5c1538adb04570db case 7 => 0x1ee5d94619af4648
    case 8 => 0x02a151b5f156289c case 9 => 0x4051b05e58bc1e0f
    case 10 => 0x87409262a28245ba case 11 => 0xc5b073890b687329
    case 12 => 0x4b9237f0ff14c443 case 13 => 0x0962d61b56fef2d0
    case 14 => 0xce73f427acc0a965 case _ => 0x8c8315cc052a9ff6
  }

  function RowA(d: nat): Word
    requires d < 16
  {
    match d
    case 0 => 0x3a80143f5cf17f13 case 1 => 0x7870f5d4f51b4980
    case 2 => 0xbf61d7e80f251235 case 3 => 0xfd913603a6cf24a6
    case 4 => 0x73b3727a52b393cc case 5 => 0x31439391fb59a55f
    case 6 => 0xf652b1ad0167feea case 7 => 0xb4a25046a88dc879
    case 8 => 0xa8e6d8b54074a6ad case 9 => 0xea16395ee99e903e
    case 10 => 0x2d071b6213a0cb8b case 11 => 0x6ff7fa89ba4afd18
    case 12 => 0xe1d5bef04e364a72 case 13 => 0xa3255f1be7dc7ce1
    case 14 => 0x64347d271de22754 case _ => 0x26c49cccb40811c7
  }

  function RowB(d: nat): Word
    requires d < 16
  {
    match d
    case 0 => 0x5cbd6cc0cc10fafc case 1 => 0x1e4d8d2b65facc6f
    case 2 => 0xd95caf179fc497da case 3 => 0x9bac4efc362ea149
    case 4 => 0x158e0a85c2521623 case 5 => 0x577eeb6e6bb820b0
    case 6 => 0x906fc95291867b05 case 7 => 0xd29f28b9386c4d96
    case 8 => 0xcedba04ad0952342 case 9 => 0x8c2b41a1797f15d1
    case 10 => 0x4b3a639d83414e64 case 11 => 0x09ca82762aab78f7
    case 12 => 0x87e8c60fded7cf9d case 13 => 0xc51827e4773df90e
    case 14 => 0x020905d88d03a2bb case _ => 0x40f9e43324e99428
  }

  function RowC(d: nat): Word
    requires d < 16
  {
    match d
    case 0 => 0x2cffe7d5975e55e2 case 1 => 0x6e0f063e3eb46371
    case 2 => 0xa91e2402c48a38c4 case 3 => 0xebeec5e96d600e57
    case 4 => 0x65cc8190991cb93d case 5 => 0x273c607b30f68fae
    case 6 => 0xe02d4247cac8d41b case 7 => 0xa2dda3ac6322e288
    case 8 => 0xbe992b5f8bdb8c5c case 9 => 0xfc69cab42231bacf
    case 10 => 0x3b78e888d80fe17a case 11 => 0x7988096371e5d7e9
    case 12 => 0xf7aa4d1a85996083 case 13 => 0xb55aacf12c735610
    case 14 => 0x724b8ecdd64d0da5 case _ => 0x30bb6f267fa73b36
  }

  function RowD(d: nat): Word
    requires d < 16
  {
    match d
    case 0 => 0x4ac29f2a07bfd00d case 1 => 0x08327ec1ae55e69e
    case 2 => 0xcf235cfd546bbd2b case 3 => 0x8dd3bd16fd818bb8
    case 4 => 0x03f1f96f09fd3cd2 case 5 => 0x41011884a0170a41
    case 6 => 0x86103ab85a2951f4 case 7 => 0xc4e0db53f3c36767
    case 8 => 0xd8a453a01b3a09b3 case 9 => 0x9a54b24bb2d03f20
    case 10 => 0x5d45907748ee6495 case 11 => 0x1fb5719ce1045206
    case 12 => 0x919735e51578e56c case 13 => 0xd367d40ebc92d3ff
    case 14 => 0x1476f63246ac884a case _ => 0x568617d9ef46bed9
  }

  function RowE(d: nat): Word
    requires d < 16
  {
    match d
    case 0 => 0xe085162ab69d5e3c case 1 => 0xa275f7c11f7768af
    case 2 => 0x6564d5fde549331a case 3 => 0x279434164ca30589
    case 4 => 0xa9b6706fb8dfb2e3 case 5 => 0xeb46918411358470
    case 6 => 0x2c57b3b8eb0bdfc5 case 7 => 0x6ea7525342e1e956
    case 8 => 0x72e3daa0aa188782 case 9 => 0x30133b4b03f2b111
    case 10 => 0xf7021977f9cceaa4 case 11 => 0xb5f2f89c5026dc37
    case 12 => 0x3bd0bce5a45a6b5d case 13 => 0x79205d0e0db05dce
    case 14 => 0xbe317f32f78e067b case _ => 0xfcc19ed95e6430e8
  }

  function RowF(d: nat): Word
    requires d < 16
  {
    match d
    case 0 => 0x86b86ed5267cdbd3 case 1 => 0xc4488f3e8f96ed40
    case 2 => 0x0359ad0275a8b6f5 case 3 => 0x41a94ce9dc428066
    case 4 => 0xcf8b0890283e370c case 5 => 0x8d7be97b81d4019f
    case 6 => 0x4a6acb477bea5a2a case 7 => 0x089a2aacd2006cb9
    case 8 => 0x14dea25f3af9026d case 9 => 0x562e43b4931334fe
    case 10 => 0x913f6188692d6f4b case 11 => 0xd3cf8063c0c759d8
    case 12 => 0x5dedc41a34bbeeb2 case 13 => 0x1f1d25f19d51d821
    case 14 => 0xd80c07cd676f8394 case _ => 0x9afce626ce85b507
  }

  function Row(r: nat, d: nat): Word
    requires r < 16 && d < 16
  {
    match r
    case 0 => Row0(d) case 1 => Row1(d)
    case 2 => Row2(d) case 3 => Row3(d)
    case 4 => Row4(d) case 5 => Row5(d)
    case 6 => Row6(d) case 7 => Row7(d)
    case 8 => Row8(d) case 9 => Row9(d)
    case 10 => RowA(d) case 11 => RowB(d)
    case 12 => RowC(d) case 13 => RowD(d)
    case 14 => RowE(d) case _ => RowF(d)
  }

  /** 0..15 as words. */
  function Digit(d: nat): Word
    requires d < 16
  {
    match d
    case 0 => 0 case 1 => 1 case 2 => 2 case 3 => 3 case 4 => 4 case 5 => 5 case 6 => 6 case 7 => 7
    case 8 => 8 case 9 => 9 case 10 => 10 case 11 => 11 case 12 => 12 case 13 => 13 case 14 => 14 case _ => 15
  }

  lemma DigitOf(y: Word)
    requires y < 16
    ensures (y as nat) < 16 && Digit(y as nat) == y
  {
  }

  /** _crc64_table[x] */
  function Entry(x: Word): Word
    requires x < 256
  {
    DigitOf(x >> 4);
    DigitOf(x & 15);
    Row((x >> 4) as nat, (x & 15) as nat)
  }

  // ---- linearity ----

  lemma BvXorAssociates(x: Word, y: Word, z: Word)
    ensures (x ^ y) ^ z == x ^ (y ^ z)
  {
  }

  lemma XorAssociates(x: Word, y: Word, z: Word)
    ensures Xor(Xor(x, y), z) == Xor(x, Xor(y, z))
  {
    BvXorAssociates(x, y, z);
  }

  lemma XorCommutes(x: Word, y: Word)
    ensures Xor(x, y) == Xor(y, x)
  {
  }

  lemma XorSwap(x: Word, y: Word, z: Word)
    ensures Xor(Xor(x, y), z) == Xor(Xor(x, z), y)
  {
    hide Xor;
    XorAssociates(x, y, z);
    XorCommutes(y, z);
    XorAssociates(x, z, y);
  }

  lemma XorZero(x: Word)
    ensures Xor(x, 0) == x
  {
  }

  lemma ShlXor(a: Word, b: Word)
    ensures Shl(Xor(a, b)) == Xor(Shl(a), Shl(b))
  {
  }

  lemma TopXor(a: Word, b: Word)
    ensures Top(Xor(a, b)) == (Top(a) != Top(b))
  {
  }

  /** A zero bit shifted into c ^ r acts on c as the top bit of r shifted into c would. */
  lemma StepXor(c: Word, r: Word)
    ensures Step(Xor(c, r)) == Xor(ShiftIn(c, Top(r)), Shl(r))
  {
    hide Top;
    hide Shl;
    hide Xor;
    ShlXor(c, r);
    TopXor(c, r);
    XorSwap(Shl(c), Shl(r), POLY);
  }

  function StepN(n: nat, c: Word): Word {
    if n == 0 then c else StepN(n - 1, Step(c))
  }

  function ShlN(n: nat, c: Word): Word {
    if n == 0 then c else ShlN(n - 1, Shl(c))
  }

  /** The n highest bits of r, highest first. */
  function TopBits(n: nat, r: Word): (bits: seq<bool>)
    ensures |bits| == n
  {
    if n == 0 then [] else [Top(r)] + TopBits(n - 1, Shl(r))
  }

  /** Feeding message bits one by one is the same as adding them all at the top and shifting in zeros. */
  lemma {:induction false} FeedAtOnce(n: nat, c: Word, r: Word)
    ensures StepN(n, Xor(c, r)) == Xor(BitSerial(TopBits(n, r), c), ShlN(n, r))
  {
    hide Top;
    hide Shl;
    hide Xor;
    hide Step;
    hide ShiftIn;
    if n != 0 {
      StepXor(c, r);
      FeedAtOnce(n - 1, ShiftIn(c, Top(r)), Shl(r));
      assert TopBits(n, r)[1..] == TopBits(n - 1, Shl(r));
    }
  }

  lemma FourSteps(n: nat, c: Word)
    ensures StepN(n + 4, c) == StepN(n, Step(Step(Step(Step(c)))))
  {
    hide Step;
    assert StepN(n + 4, c) == StepN(n + 3, Step(c));
    assert StepN(n + 3, Step(c)) == StepN(n + 2, Step(Step(c)));
    assert StepN(n + 2, Step(Step(c))) == StepN(n + 1, Step(Step(Step(c))));
  }

  lemma EightSteps(c: Word)
    ensures StepN(8, c) == Step8(c)
  {
    hide Step;
    FourSteps(4, c);
    FourSteps(0, Step(Step(Step(Step(c)))));
  }

  lemma XorSelf(a: Word)
    ensures Xor(a, a) == 0
  {
  }

  /** Shifting zeros into a sum shifts them into both terms. */
  lemma StepLinear(u: Word, v: Word)
    ensures Step(Xor(u, v)) == Xor(Step(u), Step(v))
  {
    hide Top;
    hide Shl;
    hide Xor;
    ShlXor(u, v);
    TopXor(u, v);
    XorSwap(Shl(u), Shl(v), POLY);
    XorAssociates(Shl(u), Shl(v), POLY);
    XorAssociates(Xor(Shl(u), POLY), Shl(v), POLY);
    XorSwap(Shl(u), POLY, Shl(v));
    XorAssociates(Xor(Shl(u), Shl(v)), POLY, POLY);
    XorSelf(POLY);
    XorZero(Xor(Shl(u), Shl(v)));
  }

  lemma {:induction false} StepsLinear(n: nat, u: Word, v: Word)
    ensures StepN(n, Xor(u, v)) == Xor(StepN(n, u), StepN(n, v))
  {
    hide Step;
    hide Xor;
    if n != 0 {
      StepLinear(u, v);
      StepsLinear(n - 1, Step(u), Step(v));
    }
  }

  lemma EightStepsLinear(a: Word, b: Word)
    ensures Step8(Xor(a, b)) == Xor(Step8(a), Step8(b))
  {
    hide Xor;
    hide Step8;
    StepsLinear(8, a, b);
    EightSteps(Xor(a, b));
    EightSteps(a);
    EightSteps(b);
  }

  // ---- the table is the register's ----

  lemma FirstRowLow(d: nat)
    requires d < 8
    ensures Row0(d) == Step8(Digit(d) << 56)
  {
  }

  lemma FirstRowHigh(d: nat)
    requires 8 <= d < 16
    ensures Row0(d) == Step8(Digit(d) << 56)
  {
  }

  lemma FirstColumnFrom0(r: nat)
    requires 0 <= r < 4
    ensures Row(r, 0) == Step8(Digit(r) << 60)
  {
  }

  lemma FirstColumnFrom4(r: nat)
    requires 4 <= r < 8
    ensures Row(r, 0) == Step8(Digit(r) << 60)
  {
  }

  lemma FirstColumnFrom8(r: nat)
    requires 8 <= r < 12
    ensures Row(r, 0) == Step8(Digit(r) << 60)
  {
  }

  lemma FirstColumnFrom12(r: nat)
    requires 12 <= r < 16
    ensures Row(r, 0) == Step8(Digit(r) << 60)
  {
  }

  lemma Row1IsSum(d: nat)
    requires d < 16
    ensures Row1(d) == Xor(Row1(0), Row0(d))
  {
  }

  lemma Row2IsSum(d: nat)
    requires d < 16
    ensures Row2(d) == Xor(Row2(0), Row0(d))
  {
  }

  lemma Row3IsSum(d: nat)
    requires d < 16
    ensures Row3(d) == Xor(Row3(0), Row0(d))
  {
  }

  lemma Row4IsSum(d: nat)
    requires d < 16
    ensures Row4(d) == Xor(Row4(0), Row0(d))
  {
  }

  lemma Row5IsSum(d: nat)
    requires d < 16
    ensures Row5(d) == Xor(Row5(0), Row0(d))
  {
  }

  lemma Row6IsSum(d: nat)
    requires d < 16
    ensures Row6(d) == Xor(Row6(0), Row0(d))
  {
  }

  lemma Row7IsSum(d: nat)
    requires d < 16
    ensures Row7(d) == Xor(Row7(0), Row0(d))
  {
  }

  lemma Row8IsSum(d: nat)
    requires d < 16
    ensures Row8(d) == Xor(Row8(0), Row0(d))
  {
  }

  lemma Row9IsSum(d: nat)
    requires d < 16
    ensures Row9(d) == Xor(Row9(0), Row0(d))
  {
  }

  lemma RowAIsSum(d: nat)
    requires d < 16
    ensures RowA(d) == Xor(RowA(0), Row0(d))
  {
  }

  lemma RowBIsSum(d: nat)
    requires d < 16
    ensures RowB(d) == Xor(RowB(0), Row0(d))
  {
  }

  lemma RowCIsSum(d: nat)
    requires d < 16
    ensures RowC(d) == Xor(RowC(0), Row0(d))
  {
  }

  lemma RowDIsSum(d: nat)
    requires d < 16
    ensures RowD(d) == Xor(RowD(0), Row0(d))
  {
  }

  lemma RowEIsSum(d: nat)
    requires d < 16
    ensures RowE(d) == Xor(RowE(0), Row0(d))
  {
  }

  lemma RowFIsSum(d: nat)
    requires d < 16
    ensures RowF(d) == Xor(RowF(0), Row0(d))
  {
  }

  lemma Nibbles(x: Word)
    requires x < 256
    ensures x << 56 == Xor((x >> 4) << 60, (x & 15) << 56) && x >> 4 < 16 && x & 15 < 16
  {
  }

  /** Every row is the first one plus the row's own first entry. */
  lemma SumOfSteps(r: nat, d: nat)
    requires r < 16 && d < 16
    ensures Row(r, d) == Step8(Xor(Digit(r) << 60, Digit(d) << 56))
  {
    assert Row(r, d) == Xor(Row(r, 0), Row0(d)) by {
      match r
      case 0 => assert Xor(Row0(0), Row0(d)) == Row0(d); case 1 => Row1IsSum(d);
      case 2 => Row2IsSum(d); case 3 => Row3IsSum(d);
      case 4 => Row4IsSum(d); case 5 => Row5IsSum(d);
      case 6 => Row6IsSum(d); case 7 => Row7IsSum(d);
      case 8 => Row8IsSum(d); case 9 => Row9IsSum(d);
      case 10 => RowAIsSum(d); case 11 => RowBIsSum(d);
      case 12 => RowCIsSum(d); case 13 => RowDIsSum(d);
      case 14 => RowEIsSum(d); case _ => RowFIsSum(d);
    }
    hide *;
    if r < 4 {
      FirstColumnFrom0(r);
    } else if r < 8 {
      FirstColumnFrom4(r);
    } else if r < 12 {
      FirstColumnFrom8(r);
    } else {
      FirstColumnFrom12(r);
    }
    if d < 8 {
      FirstRowLow(d);
    } else {
      FirstRowHigh(d);
    }
    EightStepsLinear(Digit(r) << 60, Digit(d) << 56);
  }

  /** Every table entry is what eight shifts make of its index. */
  lemma EntryIsEightSteps(x: Word)
    requires x < 256
    ensures Entry(x) == Step8(x << 56)
  {
    hide Step8;
    hide Xor;
    hide Row;
    hide Digit;
    Nibbles(x);
    DigitOf(x >> 4);
    DigitOf(x & 15);
    SumOfSteps((x >> 4) as nat, (x & 15) as nat);
  }

  // ---- one byte ----

  /** The byte in the top byte of a word. */
  function AtTop(b: Byte): Word {
    (b as Word) << 56
  }

  lemma ByteBits(b: Byte)
    ensures b & 0x80 != 0 <==> ((b as Word) << 56) & 0x8000_0000_0000_0000 != 0
    ensures b & 0x40 != 0 <==> ((b as Word) << 57) & 0x8000_0000_0000_0000 != 0
    ensures b & 0x20 != 0 <==> ((b as Word) << 58) & 0x8000_0000_0000_0000 != 0
    ensures b & 0x10 != 0 <==> ((b as Word) << 59) & 0x8000_0000_0000_0000 != 0
    ensures b & 0x08 != 0 <==> ((b as Word) << 60) & 0x8000_0000_0000_0000 != 0
    ensures b & 0x04 != 0 <==> ((b as Word) << 61) & 0x8000_0000_0000_0000 != 0
    ensures b & 0x02 != 0 <==> ((b as Word) << 62) & 0x8000_0000_0000_0000 != 0
    ensures b & 0x01 != 0 <==> ((b as Word) << 63) & 0x8000_0000_0000_0000 != 0
    ensures (b as Word) < 256
  {
  }

  lemma Shifts(w: Word)
    requires w < 256
    ensures (w << 56) << 1 == w << 57
    ensures (w << 57) << 1 == w << 58
    ensures (w << 58) << 1 == w << 59
    ensures (w << 59) << 1 == w << 60
    ensures (w << 60) << 1 == w << 61
    ensures (w << 61) << 1 == w << 62
    ensures (w << 62) << 1 == w << 63
    ensures (w << 63) << 1 == 0
  {
  }

  lemma LowShifts(w: Word)
    ensures ((((((((w << 1) << 1) << 1) << 1) << 1) << 1) << 1) << 1) == w << 8
  {
  }

  lemma LowTops(w: Word)
    requires w >> 56 == 0
    ensures w & 0x8000_0000_0000_0000 == 0
    ensures (w << 1) & 0x8000_0000_0000_0000 == 0
    ensures ((w << 1) << 1) & 0x8000_0000_0000_0000 == 0
    ensures (((w << 1) << 1) << 1) & 0x8000_0000_0000_0000 == 0
    ensures ((((w << 1) << 1) << 1) << 1) & 0x8000_0000_0000_0000 == 0
    ensures (((((w << 1) << 1) << 1) << 1) << 1) & 0x8000_0000_0000_0000 == 0
    ensures ((((((w << 1) << 1) << 1) << 1) << 1) << 1) & 0x8000_0000_0000_0000 == 0
    ensures (((((((w << 1) << 1) << 1) << 1) << 1) << 1) << 1) & 0x8000_0000_0000_0000 == 0
  {
  }

  lemma Split(crc: Word, v: Word)
    requires v < 256
    ensures crc ^ (v << 56) == ((((crc >> 56) ^ v) & 255) << 56) ^ (crc & 0x00FF_FFFF_FFFF_FFFF)
    ensures (crc & 0x00FF_FFFF_FFFF_FFFF) >> 56 == 0
    ensures (crc & 0x00FF_FFFF_FFFF_FFFF) << 8 == crc << 8
    ensures ((crc >> 56) ^ v) & 255 < 256
  {
  }

  lemma {:induction false} TopBitsAt(n: nat, r: Word, i: nat)
    requires i < n
    ensures TopBits(n, r)[i] == Top(ShlN(i, r))
  {
    hide Top;
    hide Shl;
    if i != 0 {
      TopBitsAt(n - 1, Shl(r), i - 1);
    }
  }

  lemma {:induction false} ShlLast(n: nat, r: Word)
    ensures ShlN(n + 1, r) == Shl(ShlN(n, r))
  {
    hide Shl;
    if n != 0 {
      ShlLast(n - 1, Shl(r));
    }
  }

  lemma ShlNone(r: Word)
    ensures ShlN(0, r) == r
  {
  }

  lemma Shl8(r: Word)
    ensures ShlN(0, r) == r
    ensures ShlN(1, r) == Shl(ShlN(0, r))
    ensures ShlN(2, r) == Shl(ShlN(1, r))
    ensures ShlN(3, r) == Shl(ShlN(2, r))
    ensures ShlN(4, r) == Shl(ShlN(3, r))
    ensures ShlN(5, r) == Shl(ShlN(4, r))
    ensures ShlN(6, r) == Shl(ShlN(5, r))
    ensures ShlN(7, r) == Shl(ShlN(6, r))
    ensures ShlN(8, r) == Shl(ShlN(7, r))
  {
    hide Shl;
    hide ShlN;
    ShlLast(0, r);
    ShlLast(1, r);
    ShlLast(2, r);
    ShlLast(3, r);
    ShlLast(4, r);
    ShlLast(5, r);
    ShlLast(6, r);
    ShlLast(7, r);
    ShlNone(r);
  }

  /** These are the eight bits that leave r first. */
  predicate Leaves(bits: seq<bool>, r: Word) {
    && |bits| == 8
    && bits[0] == Top(ShlN(0, r)) && bits[1] == Top(ShlN(1, r)) && bits[2] == Top(ShlN(2, r))
    && bits[3] == Top(ShlN(3, r))
    && bits[4] == Top(ShlN(4, r)) && bits[5] == Top(ShlN(5, r)) && bits[6] == Top(ShlN(6, r))
    && bits[7] == Top(ShlN(7, r))
  }

  lemma TopBits8(r: Word, bits: seq<bool>)
    requires Leaves(bits, r)
    ensures TopBits(8, r) == bits
  {
    hide Top;
    hide ShlN;
    hide TopBits;
    forall i: nat | i < 8
      ensures TopBits(8, r)[i] == bits[i]
    {
      TopBitsAt(8, r, i);
    }
  }

  /** The byte b, placed in the top byte, feeds in exactly its bits. */
  lemma HighShifts(b: Byte, r: Word)
    requires r == AtTop(b)
    ensures Leaves(Bits(b), r) && ShlN(8, r) == 0
  {
    hide ShlN;
    ByteBits(b);
    Shifts(b as Word);
    Shl8(r);
  }

  lemma HighByte(b: Byte, r: Word)
    requires r == AtTop(b)
    ensures TopBits(8, r) == Bits(b) && ShlN(8, r) == 0
  {
    hide Leaves;
    hide Bits;
    hide ShlN;
    hide AtTop;
    HighShifts(b, r);
    TopBits8(r, Bits(b));
  }

  function Quiet(): (bits: seq<bool>) {
    [false, false, false, false, false, false, false, false]
  }

  lemma LowTopsQuiet(w: Word)
    requires w >> 56 == 0
    ensures !Top(w) && !Top(Shl(w)) && !Top(Shl(Shl(w))) && !Top(Shl(Shl(Shl(w))))
  {
    LowTops(w);
  }

  lemma HighTopsQuiet(w: Word)
    requires w >> 56 == 0
    ensures !Top(Shl(Shl(Shl(Shl(w))))) && !Top(Shl(Shl(Shl(Shl(Shl(w))))))
    ensures !Top(Shl(Shl(Shl(Shl(Shl(Shl(w))))))) && !Top(Shl(Shl(Shl(Shl(Shl(Shl(Shl(w))))))))
  {
    LowTops(w);
  }

  lemma EightShl(w: Word)
    ensures Shl(Shl(Shl(Shl(Shl(Shl(Shl(Shl(w)))))))) == w << 8
  {
    LowShifts(w);
  }

  lemma LowShiftsTo(w: Word)
    requires w >> 56 == 0
    ensures Leaves(Quiet(), w) && ShlN(8, w) == w << 8
  {
    hide ShlN;
    hide Shl;
    hide Top;
    LowTopsQuiet(w);
    HighTopsQuiet(w);
    EightShl(w);
    Shl8(w);
  }

  /** A word whose top byte is zero feeds in eight zeros. */
  lemma LowPart(w: Word)
    requires w >> 56 == 0
    ensures TopBits(8, w) == Quiet() && ShlN(8, w) == w << 8
  {
    hide Leaves;
    hide ShlN;
    LowShiftsTo(w);
    TopBits8(w, Quiet());
  }

  /** The table index of the loop body. */
  function Index(c: Word, b: Byte): (x: Word)
    ensures x < 256
  {
    ((c >> 56) ^ (b as Word)) & 255
  }

  function Low(c: Word): Word {
    c & 0x00FF_FFFF_FFFF_FFFF
  }

  lemma SplitByte(c: Word, b: Byte)
    ensures Xor(c, AtTop(b)) == Xor(Index(c, b) << 56, Low(c))
    ensures Low(c) >> 56 == 0 && Low(c) << 8 == c << 8
  {
    ByteBits(b);
    Split(c, b as Word);
  }

  lemma BitsEnterAtTop(b: Byte, c: Word)
    ensures StepN(8, Xor(c, AtTop(b))) == BitSerial(Bits(b), c)
  {
    hide Xor;
    hide AtTop;
    hide Bits;
    hide StepN;
    hide BitSerial;
    hide ShlN;
    HighByte(b, AtTop(b));
    FeedAtOnce(8, c, AtTop(b));
    XorZero(BitSerial(Bits(b), c));
  }

  lemma QuietIsZeros(c: Word)
    ensures BitSerial(Quiet(), c) == Step8(c)
  {
    hide Xor;
    hide StepN;
    hide BitSerial;
    hide ShlN;
    hide Step8;
    hide Quiet;
    LowPart(0);
    FeedAtOnce(8, c, 0);
    XorZero(c);
    XorZero(BitSerial(Quiet(), c));
    EightSteps(c);
  }

  lemma LowEntersLast(high: Word, low: Word)
    requires low >> 56 == 0
    ensures StepN(8, Xor(high, low)) == Xor(Step8(high), low << 8)
  {
    hide Xor;
    hide StepN;
    hide BitSerial;
    hide ShlN;
    hide Step8;
    hide Quiet;
    LowPart(low);
    FeedAtOnce(8, high, low);
    QuietIsZeros(high);
  }

  /** One round of the loop divides in the eight bits of one byte. */
  lemma ByteStep(c: Word, b: Byte)
    ensures Xor(c << 8, Entry(Index(c, b))) == BitSerial(Bits(b), c)
  {
    hide *;
    BitsEnterAtTop(b, c);
    SplitByte(c, b);
    LowEntersLast(Index(c, b) << 56, Low(c));
    EntryIsEightSteps(Index(c, b));
    XorCommutes(Entry(Index(c, b)), c << 8);
  }

  // ---- whole messages ----

  lemma {:induction false} BitSerialComposes(xs: seq<bool>, ys: seq<bool>, c: Word)
    ensures BitSerial(xs + ys, c) == BitSerial(ys, BitSerial(xs, c))
    decreases |xs|
  {
    hide ShiftIn;
    if xs == [] {
      assert xs + ys == ys;
    } else {
      assert (xs + ys)[1..] == xs[1..] + ys;
      BitSerialComposes(xs[1..], ys, ShiftIn(c, xs[0]));
    }
  }

  lemma {:induction false} MessageBitsOfSum(a: seq<Byte>, b: seq<Byte>)
    ensures MessageBits(a + b) == MessageBits(a) + MessageBits(b)
  {
    hide Bits;
    if a == [] {
      assert a + b == b;
    } else {
      assert (a + b)[1..] == a[1..] + b;
      MessageBitsOfSum(a[1..], b);
    }
  }

  /** The division of a whole message. */
  function Division(buf: seq<Byte>, init: Word): Word {
    BitSerial(MessageBits(buf), init)
  }

  /** A message in two parts is divided part by part. */
  lemma DivisionComposes(a: seq<Byte>, b: seq<Byte>, init: Word)
    ensures Division(a + b, init) == Division(b, Division(a, init))
  {
    hide MessageBits;
    hide BitSerial;
    MessageBitsOfSum(a, b);
    BitSerialComposes(MessageBits(a), MessageBits(b), init);
  }

  lemma DivisionOfNothing(c: Word)
    ensures Division([], c) == c
  {
  }

  lemma DivisionOfByte(b: Byte, c: Word)
    ensures Division([b], c) == Xor(c << 8, Entry(Index(c, b)))
  {
    hide BitSerial;
    hide Bits;
    hide Xor;
    hide Entry;
    hide Index;
    assert [b][1..] == [];
    assert Bits(b) + [] == Bits(b);
    ByteStep(c, b);
  }

  method Crc(buf: seq<Byte>, init: Word) returns (crc: Word)
    ensures crc == Division(buf, init)
  {
    hide Entry;
    hide Index;
    hide MessageBits;
    hide BitSerial;
    crc := init;
    var i := 0;
    DivisionOfNothing(init);
    assert buf[..i] == [];
    while i < |buf|
      invariant 0 <= i <= |buf|
      invariant crc == Division(buf[..i], init)
    {
      DivisionComposes(buf[..i], [buf[i]], init);
      DivisionOfByte(buf[i], crc);
      assert buf[..i + 1] == buf[..i] + [buf[i]];
      crc := Xor(crc << 8, Entry(Index(crc, buf[i])));
      i := i + 1;
    }
    assert buf[..i] == buf;
  }
}
