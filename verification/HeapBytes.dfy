/** How the headers of std/mm.c lie in the bytes of the buffer. Stores write single fields: the padding behind the magic
    and around the free bit keeps whatever bytes were there. */
module HeapBytes {
  import opened HeapState
  import opened HeapAccounting

  const FREE_BIT: nat := 16   // offset of the byte whose lowest bit is the free bit

  /** The k-th byte, from the lowest, of a number. */
  function ByteOf(word: nat, k: nat): byte
    decreases k
  {
    if k == 0 then word % 256 else ByteOf(word / 256, k - 1)
  }

  /** The number stored for a pointer into a buffer that lies at address base. */
  function Raw(base: nat, p: int): nat {
    if p < 0 then 0 else base + p
  }

  /** The fields that are 8-byte words, by their place: size at 8, next, prev, next_free and prev_free from 24 on. */
  predicate IsWord(i: nat) {
    i == 1 || 3 <= i <= 6
  }

  function Word(base: nat, hd: Header, i: nat): nat
    requires IsWord(i)
  {
    match i
    case 1 => hd.size
    case 3 => Raw(base, hd.next)
    case 4 => Raw(base, hd.prev)
    case 5 => Raw(base, hd.nextFree)
    case _ => Raw(base, hd.prevFree)
  }

  predicate WordAt(m: seq<byte>, p: int, w: nat) {
    0 <= p && p + 8 <= |m| && forall k {:trigger ByteOf(w, k)} :: 0 <= k < 8 ==> m[p + k] == ByteOf(w, k)
  }

  /** MM_BLOCK_MAGIC, 0xC07DE, lowest byte first. */
  predicate MagicAt(m: seq<byte>, b: int) {
    0 <= b && b + HEADER <= |m| && m[b] == 0xDE && m[b + 1] == 0x07 && m[b + 2] == 0x0C && m[b + 3] == 0
  }

  predicate FreeAt(m: seq<byte>, b: int) {
    0 <= b && b + HEADER <= |m| && m[b + FREE_BIT] % 2 == 1
  }

  /** The test of mm_base_free and mm_realloc on the bytes in front of a pointer. */
  predicate Passes(m: seq<byte>, b: int) {
    MagicAt(m, b) && !FreeAt(m, b)
  }

  ghost predicate HeaderAt(m: seq<byte>, base: nat, b: int, hd: Header) {
    && MagicAt(m, b)
    && (FreeAt(m, b) <==> hd.free)
    && forall i: nat {:trigger IsWord(i)} :: IsWord(i) ==> WordAt(m, b + 8 * i, Word(base, hd, i))
  }

  /** All headers of h are in the bytes. */
  ghost predicate Imaged(m: seq<byte>, base: nat, h: Headers) {
    forall k {:trigger HeaderAt(m, base, k, h[k])} :: k in h ==> HeaderAt(m, base, k, h[k])
  }

  /** The first four bytes of a header hold the number 0xC07DE, the lowest byte first. */
  lemma MagicIsNumber(m: seq<byte>, b: int)
    requires 0 <= b && b + HEADER <= |m|
    ensures MagicAt(m, b) <==>
              m[b] as int + 0x100 * m[b + 1] as int + 0x10000 * m[b + 2] as int + 0x1000000 * m[b + 3] as int == 0xC07DE
  {
  }

  /** 256 to the power of n. */
  function Beyond(n: nat): nat {
    if n == 0 then 1 else 256 * Beyond(n - 1)
  }

  lemma {:induction false} BytesDecide(v: nat, w: nat, n: nat)
    requires v < Beyond(n) && w < Beyond(n)
    requires forall k {:trigger ByteOf(v, k)} :: 0 <= k < n ==> ByteOf(v, k) == ByteOf(w, k)
    ensures v == w
  {
    if n > 0 {
      assert ByteOf(v, 0) == ByteOf(w, 0);
      forall k | 0 <= k < n - 1 ensures ByteOf(v / 256, k) == ByteOf(w / 256, k) {
        assert ByteOf(v, k + 1) == ByteOf(w, k + 1);
      }
      BytesDecide(v / 256, w / 256, n - 1);
    }
  }

  lemma WordDecides(m: seq<byte>, p: int, v: nat, w: nat)
    requires WordAt(m, p, v) && WordAt(m, p, w) && v < SIZE_LIMIT && w < SIZE_LIMIT
    ensures v == w
  {
    assert Beyond(8) == SIZE_LIMIT by {
      assert Beyond(2) == 0x1_0000;
      assert Beyond(4) == 0x1_0000_0000;
      assert Beyond(6) == 0x1_0000_0000_0000;
    }
    forall k | 0 <= k < 8 ensures ByteOf(v, k) == ByteOf(w, k) {
      assert m[p + k] == ByteOf(v, k);
    }
    BytesDecide(v, w, 8);
  }

  /** The size and every link of a header fit into a word, and no link points in front of the buffer. */
  ghost predicate InWords(base: nat, hd: Header) {
    && hd.size < SIZE_LIMIT
    && forall p {:trigger Raw(base, p)} :: p in {hd.next, hd.prev, hd.nextFree, hd.prevFree} ==>
         NULL <= p && Raw(base, p) < SIZE_LIMIT
  }

  /** The bytes of a header decide what it says, for a buffer that does not lie at address 0. */
  lemma BytesAreHeader(m: seq<byte>, base: nat, b: int, hd: Header, hd': Header)
    requires base > 0 && HeaderAt(m, base, b, hd) && HeaderAt(m, base, b, hd')
    requires InWords(base, hd) && InWords(base, hd')
    ensures hd == hd'
  {
    assert IsWord(1) && IsWord(3) && IsWord(4) && IsWord(5) && IsWord(6);
    hide WordAt;
    WordDecides(m, b + 8, hd.size, hd'.size);
    WordDecides(m, b + 24, Raw(base, hd.next), Raw(base, hd'.next));
    WordDecides(m, b + 32, Raw(base, hd.prev), Raw(base, hd'.prev));
    WordDecides(m, b + 40, Raw(base, hd.nextFree), Raw(base, hd'.nextFree));
    WordDecides(m, b + 48, Raw(base, hd.prevFree), Raw(base, hd'.prevFree));
  }

  /** m' is m but for the bytes from lo up to hi. */
  ghost predicate OnlyWithin(m: seq<byte>, m': seq<byte>, lo: int, hi: int) {
    |m'| == |m| && forall i :: 0 <= i < |m| && !(lo <= i < hi) ==> m'[i] == m[i]
  }

  lemma HeaderElsewhere(m: seq<byte>, m': seq<byte>, base: nat, b: int, hd: Header, lo: int, hi: int)
    requires HeaderAt(m, base, b, hd) && OnlyWithin(m, m', lo, hi) && (b + HEADER <= lo || hi <= b)
    ensures HeaderAt(m', base, b, hd)
  {
    forall i: nat | IsWord(i) ensures WordAt(m', b + 8 * i, Word(base, hd, i)) {
      assert WordAt(m, b + 8 * i, Word(base, hd, i));
    }
  }

  /** Storing bytes away from every header keeps all of them. */
  lemma ImageElsewhere(m: seq<byte>, m': seq<byte>, base: nat, h: Headers, lo: int, hi: int)
    requires Imaged(m, base, h) && OnlyWithin(m, m', lo, hi)
    requires forall k :: k in h ==> k + HEADER <= lo || hi <= k
    ensures Imaged(m', base, h)
  {
    forall k | k in h ensures HeaderAt(m', base, k, h[k]) {
      assert HeaderAt(m, base, k, h[k]);
      HeaderElsewhere(m, m', base, k, h[k], lo, hi);
    }
  }

  /** hd' differs from hd in the word i at most. */
  ghost predicate DiffersIn(base: nat, hd: Header, hd': Header, i: nat) {
    hd'.free == hd.free && forall j: nat {:trigger IsWord(j)} :: IsWord(j) && j != i ==>
        Word(base, hd', j) == Word(base, hd, j)
  }

  /** Storing one word of a header changes this field and nothing else. */
  lemma WordStored(m: seq<byte>, m': seq<byte>, base: nat, b: int, hd: Header, hd': Header, i: nat)
    requires HeaderAt(m, base, b, hd) && IsWord(i) && DiffersIn(base, hd, hd', i)
    requires OnlyWithin(m, m', b + 8 * i, b + 8 * i + 8) && WordAt(m', b + 8 * i, Word(base, hd', i))
    ensures HeaderAt(m', base, b, hd')
  {
    forall j: nat | IsWord(j) ensures WordAt(m', b + 8 * j, Word(base, hd', j)) {
      assert WordAt(m, b + 8 * j, Word(base, hd, j));
    }
  }

  /** Storing the free bit changes the bit and nothing else. */
  lemma BitStored(m: seq<byte>, m': seq<byte>, base: nat, b: int, hd: Header, free: bool)
    requires HeaderAt(m, base, b, hd)
    requires OnlyWithin(m, m', b + FREE_BIT, b + FREE_BIT + 1) && m'[b + FREE_BIT] % 2 == if free then 1 else 0
    ensures HeaderAt(m', base, b, hd.(free := free))
  {
    var hd' := hd.(free := free);
    forall j: nat | IsWord(j) ensures WordAt(m', b + 8 * j, Word(base, hd', j)) {
      assert WordAt(m, b + 8 * j, Word(base, hd, j));
    }
  }

  /** One header replaced in place, the others untouched. */
  lemma ImageReplaced(m: seq<byte>, m': seq<byte>, base: nat, h: Headers, b: int, hd': Header)
    requires Imaged(m, base, h) && OnlyWithin(m, m', b, b + HEADER) && HeaderAt(m', base, b, hd')
    requires forall k :: k in h && k != b ==> Apart(k, b)
    ensures Imaged(m', base, h[b := hd'])
  {
    var h' := h[b := hd'];
    forall k | k in h' ensures HeaderAt(m', base, k, h'[k]) {
      if k != b {
        assert HeaderAt(m, base, k, h[k]);
        HeaderElsewhere(m, m', base, k, h[k], b, b + HEADER);
      }
    }
  }

  /** A header of the chain passes the test exactly if its block is in use. */
  lemma ChainDecides(m: seq<byte>, base: nat, h: Headers, b: int)
    requires Imaged(m, base, h) && b in h
    ensures Passes(m, b) <==> !h[b].free
  {
    assert HeaderAt(m, base, b, h[b]);
  }

  // ---- stores to fields ----

  /** i lies in some block's header, behind its magic. */
  ghost predicate InFields(blocks: set<int>, i: int) {
    exists b :: b in blocks && b + 8 <= i < b + HEADER
  }

  /** m' differs from m only in fields of the headers of `blocks`. */
  ghost predicate OnlyFields(m: seq<byte>, m': seq<byte>, blocks: set<int>) {
    |m'| == |m| && forall i :: 0 <= i < |m| && m'[i] != m[i] ==> InFields(blocks, i)
  }

  lemma OnlyFieldsTrans(m: seq<byte>, m': seq<byte>, m'': seq<byte>, s: set<int>, s': set<int>, t: set<int>)
    requires OnlyFields(m, m', s) && OnlyFields(m', m'', s') && s <= t && s' <= t
    ensures OnlyFields(m, m'', t)
  {
    forall i | 0 <= i < |m| && m''[i] != m[i] ensures InFields(t, i) {
      if m'[i] != m[i] {
        assert InFields(s, i);
      } else {
        assert InFields(s', i);
      }
    }
  }

  lemma FieldsAreHeaders(m: seq<byte>, m': seq<byte>, blocks: set<int>)
    requires OnlyFields(m, m', blocks)
    ensures OnlyHeaders(m, m', blocks)
  {
    forall i | 0 <= i < |m| && m'[i] != m[i] ensures InHeader(blocks, i) {
      assert InFields(blocks, i);
    }
  }

  /** Stores to fields of the headers of a tiled buffer leave the magic of every header there, also when its block is
      merged away. */
  lemma MagicStays(m: seq<byte>, m': seq<byte>, h: Headers, blocks: set<int>, b: int)
    requires OnlyFields(m, m', blocks) && Spaced(h) && h.Keys == blocks && b in blocks && MagicAt(m, b)
    ensures MagicAt(m', b)
  {
    forall i | b <= i < b + 4 ensures m'[i] == m[i] {
      forall k | k in blocks ensures !(k + 8 <= i < k + HEADER) {
        assert k != b ==> Apart(k, b);
      }
    }
  }

  /** The magic and the free bit of an address that is no block, apart from all of them, stay. */
  lemma PlaceStays(m: seq<byte>, m': seq<byte>, blocks: set<int>, b: int)
    requires OnlyFields(m, m', blocks) && 0 <= b && b + HEADER <= |m|
    requires forall k :: k in blocks ==> Apart(k, b)
    ensures FreeAt(m', b) == FreeAt(m, b) && MagicAt(m', b) == MagicAt(m, b)
  {
  }

  lemma WordElsewhere(m: seq<byte>, m': seq<byte>, p: int, w: nat, lo: int, hi: int)
    requires WordAt(m, p, w) && OnlyWithin(m, m', lo, hi) && (p + 8 <= lo || hi <= p)
    ensures WordAt(m', p, w)
  {
  }

  /** Storing size, free bit and the four links behind the magic makes a header. */
  lemma FieldsStored(m1: seq<byte>, m2: seq<byte>, m3: seq<byte>, m4: seq<byte>, m5: seq<byte>, m6: seq<byte>,
                     base: nat, a: int, hd: Header)
    requires MagicAt(m1, a) && WordAt(m1, a + 8, hd.size)
    requires OnlyWithin(m1, m2, a + FREE_BIT, a + FREE_BIT + 1) && m2[a + FREE_BIT] % 2 == if hd.free then 1 else 0
    requires OnlyWithin(m2, m3, a + 24, a + 32) && WordAt(m3, a + 24, Raw(base, hd.next))
    requires OnlyWithin(m3, m4, a + 32, a + 40) && WordAt(m4, a + 32, Raw(base, hd.prev))
    requires OnlyWithin(m4, m5, a + 40, a + 48) && WordAt(m5, a + 40, Raw(base, hd.nextFree))
    requires OnlyWithin(m5, m6, a + 48, a + 56) && WordAt(m6, a + 48, Raw(base, hd.prevFree))
    ensures HeaderAt(m6, base, a, hd)
  {
    WordElsewhere(m1, m2, a + 8, hd.size, a + FREE_BIT, a + FREE_BIT + 1);
    WordElsewhere(m2, m3, a + 8, hd.size, a + 24, a + 32);
    WordElsewhere(m3, m4, a + 8, hd.size, a + 32, a + 40);
    WordElsewhere(m4, m5, a + 8, hd.size, a + 40, a + 48);
    WordElsewhere(m5, m6, a + 8, hd.size, a + 48, a + 56);
    WordElsewhere(m3, m4, a + 24, Raw(base, hd.next), a + 32, a + 40);
    WordElsewhere(m4, m5, a + 24, Raw(base, hd.next), a + 40, a + 48);
    WordElsewhere(m5, m6, a + 24, Raw(base, hd.next), a + 48, a + 56);
    WordElsewhere(m4, m5, a + 32, Raw(base, hd.prev), a + 40, a + 48);
    WordElsewhere(m5, m6, a + 32, Raw(base, hd.prev), a + 48, a + 56);
    WordElsewhere(m5, m6, a + 40, Raw(base, hd.nextFree), a + 48, a + 56);
    forall i: nat | IsWord(i) ensures WordAt(m6, a + 8 * i, Word(base, hd, i)) {
      assert i == 1 || i == 3 || i == 4 || i == 5 || i == 6;
    }
  }

  lemma WithinFields(m: seq<byte>, m': seq<byte>, m'': seq<byte>, a: int, lo: int, hi: int, s: set<int>)
    requires OnlyFields(m, m', s) && OnlyWithin(m', m'', lo, hi) && a in s && a + 8 <= lo && hi <= a + HEADER
    ensures OnlyFields(m, m'', s)
  {
    forall i | 0 <= i < |m| && m''[i] != m[i] ensures InFields(s, i) {
      if lo <= i < hi {
        assert a in s && a + 8 <= i < a + HEADER;
      } else {
        assert m'[i] != m[i];
      }
    }
  }

  lemma SpacedMore(h: Headers, h': Headers, a: int)
    requires Spaced(h) && h'.Keys == h.Keys + {a} && forall k :: k in h ==> Apart(k, a)
    ensures Spaced(h')
  {
    forall j, k | j in h' && k in h' && j != k ensures Apart(j, k) {
      assert j in h && k in h ==> Apart(j, k);
    }
  }

  lemma ImageLess(m: seq<byte>, base: nat, h: Headers, k: int)
    requires Imaged(m, base, h)
    ensures Imaged(m, base, h - {k})
  {
    var h' := h - {k};
    forall j | j in h' ensures HeaderAt(m, base, j, h'[j]) {
      assert HeaderAt(m, base, j, h[j]);
    }
  }

  lemma ChainMagic(m: seq<byte>, base: nat, h: Headers)
    requires Imaged(m, base, h)
    ensures forall k {:trigger MagicAt(m, k)} :: k in h ==> MagicAt(m, k)
  {
    forall k | k in h ensures MagicAt(m, k) {
      assert HeaderAt(m, base, k, h[k]);
    }
  }
}
