/** The value-level description of the heap of std/mm.c: block headers, the tiling of the
    buffer by the address-ordered chain, the segregated free lists, and the accounting. */
module HeapState {
  import opened Common

  const ALIGNMENT: nat := 8
  const HEADER: nat := 56           // sizeof(mm_block_t) with 8-byte pointers and size_t
  const MIN_SPLIT_SIZE: nat := ALIGNMENT
  const FREE_LIST_COUNT: nat := 32
  const SIZE_LIMIT: nat := 0x1_0000_0000_0000_0000
  const NULL: int := -1

  type byte = x: int | 0 <= x < 256

  /** A block header. Addresses are offsets into the buffer. */
  datatype Header = Header(size: nat, free: bool, next: int, prev: int, nextFree: int, prevFree: int)

  type Headers = map<int, Header>

  /** The part of a header that describes the chain; the rest links the free lists. */
  datatype Shape = Shape(size: nat, free: bool, next: int, prev: int)

  function ShapeOf(hd: Header): Shape {
    Shape(hd.size, hd.free, hd.next, hd.prev)
  }

  function End(h: Headers, b: int): int
    requires b in h
  {
    b + HEADER + h[b].size
  }

  // ---- sizes and size classes ----

  /** (size + 7) & ~7 in 64-bit unsigned arithmetic. */
  function AlignUp(size: nat): nat {
    var sum := (size + (ALIGNMENT - 1)) % SIZE_LIMIT;
    sum - sum % ALIGNMENT
  }

  /** Rounding up loses bytes exactly when the addition wraps around, and then it loses all of them. */
  lemma AlignUpRounds(size: nat)
    requires size < SIZE_LIMIT
    ensures AlignUp(size) % ALIGNMENT == 0
    ensures size <= AlignUp(size) <==> size <= SIZE_LIMIT - ALIGNMENT
    ensures size <= SIZE_LIMIT - ALIGNMENT ==> AlignUp(size) < size + ALIGNMENT
    ensures 0 < size <= SIZE_LIMIT - ALIGNMENT ==> ALIGNMENT <= AlignUp(size)
    ensures SIZE_LIMIT - ALIGNMENT < size ==> AlignUp(size) == 0
  {
    var sum := size + (ALIGNMENT - 1);
    if sum >= SIZE_LIMIT {
      assert sum % SIZE_LIMIT == sum - SIZE_LIMIT;
    } else {
      assert sum % SIZE_LIMIT == sum;
    }
  }

  /** Largest size the i-th list holds (the last list has no bound). */
  function ClassLimit(i: nat): (limit: nat)
    ensures limit >= ALIGNMENT
  {
    if i == 0 then ALIGNMENT else 2 * ClassLimit(i - 1)
  }

  lemma ClassLimitMonotone(i: nat, j: nat)
    requires i <= j
    ensures ClassLimit(i) <= ClassLimit(j)
    decreases j - i
  {
    if i < j {
      ClassLimitMonotone(i, j - 1);
    }
  }

  /** i is the list that a block of the given size belongs to. */
  predicate InClass(size: nat, i: int) {
    && 0 <= i < FREE_LIST_COUNT
    && (i == FREE_LIST_COUNT - 1 || size <= ClassLimit(i))
    && (i == 0 || ClassLimit(i - 1) < size)
  }

  /** Every size has one list, and the list number never decreases with the size. */
  lemma ClassesMonotone(small: nat, large: nat, i: int, j: int)
    requires small <= large && InClass(small, i) && InClass(large, j)
    ensures i <= j
  {
    if j < i {
      ClassLimitMonotone(j, i - 1);
    }
  }

  /** The number of the list of a size: 0 up to 8, one more for every doubling, at most 31. */
  function ListOf(size: nat): nat {
    if size <= 8 then 0 else
    var half := ListOf((size + 1) / 2);
    if half < 31 then half + 1 else 31
  }

  lemma {:induction false} LimitIsPower(i: nat)
    ensures ClassLimit(i) == 8 * Pow2(i)
  {
    if i > 0 {
      LimitIsPower(i - 1);
    }
  }

  lemma {:induction false} InListOf(size: nat)
    ensures InClass(size, ListOf(size))
  {
    if size > 8 {
      var half := (size + 1) / 2;
      InListOf(half);
      var l := ListOf(half);
      LimitIsPower(l);
      if l > 0 {
        LimitIsPower(l - 1);
      }
    }
  }

  /** Where the lists begin and end. */
  lemma ClassIsListOf(size: nat, i: int)
    ensures InClass(size, i) <==> i == ListOf(size)
  {
    InListOf(size);
    if InClass(size, i) {
      ClassesMonotone(size, size, i, ListOf(size));
      ClassesMonotone(size, size, ListOf(size), i);
    }
  }

  /** 8 times a power of two is the largest size of its list, which is not the last one. */
  lemma ListEnds(k: nat)
    requires k < 31
    ensures InClass(8 * Pow2(k), k) && InClass(8 * Pow2(k) + 1, k + 1)
  {
    LimitIsPower(k);
    LimitIsPower(k + 1);
    if k > 0 {
      LimitIsPower(k - 1);
    }
  }

  /** Two sizes of one list, other than the first and the last, differ by less than a factor of two. */
  lemma SameListFactor(a: nat, b: nat, i: int)
    requires InClass(a, i) && InClass(b, i) && 0 < i < 31
    ensures a < 2 * b
  {
  }

  // ---- the address-ordered chain ----

  /** Block a ends at or before address b. */
  predicate Before(h: Headers, a: int, b: int)
    requires a in h
  {
    End(h, a) <= b
  }

  predicate WellSized(hd: Header, b: int, n: int) {
    0 <= b && b % ALIGNMENT == 0 && hd.size % ALIGNMENT == 0 && b + HEADER < n && b + HEADER + hd.size <= n
  }

  ghost predicate NextOk(n: int, h: Headers, blocks: set<int>, b: int)
    requires b in h && forall c <- blocks :: c in h
  {
    if h[b].next == NULL then End(h, b) == n
    else h[b].next in blocks && h[b].next == End(h, b) && h[h[b].next].prev == b
  }

  ghost predicate PrevOk(h: Headers, blocks: set<int>, b: int)
    requires b in h && forall c <- blocks :: c in h
  {
    if h[b].prev == NULL then b == 0
    else h[b].prev in blocks && h[b].prev < b && h[h[b].prev].next == b
  }

  /** The blocks tile the buffer: each starts where its predecessor ends, next and prev mirror
      each other, and sizes are multiples of the alignment. */
  ghost predicate Tiled(n: int, h: Headers, blocks: set<int>) {
    && 0 in blocks
    && (forall b <- blocks :: b in h)
    && (forall b {:trigger WellSized(h[b], b, n)} :: b in blocks ==> WellSized(h[b], b, n))
    && (forall b {:trigger NextOk(n, h, blocks, b)} :: b in blocks ==> NextOk(n, h, blocks, b))
    && (forall b {:trigger PrevOk(h, blocks, b)} :: b in blocks ==> PrevOk(h, blocks, b))
    && (forall a, b {:trigger Before(h, a, b)} :: a in blocks && b in blocks && a < b ==> Before(h, a, b))
  }

  /** Two headers do not overlap. */
  predicate Apart(j: int, k: int) {
    j + HEADER <= k || k + HEADER <= j
  }

  /** No two neighbours are both free. */
  ghost predicate Coalesced(h: Headers, blocks: set<int>) {
    && (forall b <- blocks :: b in h)
    && (forall b <- blocks :: h[b].free && h[b].next in blocks ==> !h[h[b].next].free)
  }

  /** The chain is determined by the shapes of its headers. */
  lemma TiledByShape(n: int, h: Headers, h': Headers, blocks: set<int>)
    requires Tiled(n, h, blocks)
    requires forall k <- blocks :: k in h' && ShapeOf(h'[k]).(free := h[k].free) == ShapeOf(h[k])
    ensures Tiled(n, h', blocks)
  {
    forall k | k in blocks ensures WellSized(h'[k], k, n) && NextOk(n, h', blocks, k) && PrevOk(h', blocks, k) {
      assert WellSized(h[k], k, n) && NextOk(n, h, blocks, k) && PrevOk(h, blocks, k);
    }
    forall a, b | a in blocks && b in blocks && a < b ensures Before(h', a, b) {
      assert Before(h, a, b);
    }
  }

  /** No two headers overlap. */
  ghost predicate Spaced(h: Headers) {
    forall j, k {:trigger Apart(j, k)} :: j in h && k in h && j != k ==> Apart(j, k)
  }

  /** The headers of a tiled buffer lie in it, apart from each other. */
  lemma TiledSpaced(n: int, h: Headers, blocks: set<int>)
    requires Tiled(n, h, blocks) && h.Keys == blocks
    ensures Spaced(h)
    ensures forall k {:trigger k in blocks} :: k in blocks ==> 0 <= k && k + HEADER <= n
  {
    forall k | k in blocks ensures 0 <= k && k + HEADER <= n {
      assert WellSized(h[k], k, n);
    }
    forall j, k | j in h && k in h && j != k ensures Apart(j, k) {
      assert WellSized(h[j], j, n) && WellSized(h[k], k, n);
      assert j < k ==> Before(h, j, k);
      assert k < j ==> Before(h, k, j);
    }
  }

  // ---- the free lists ----

  function Head(s: seq<int>): int {
    if s == [] then NULL else s[0]
  }

  predicate NodeOk(h: Headers, s: seq<int>, j: nat)
    requires j < |s|
  {
    && s[j] in h
    && h[s[j]].nextFree == (if j + 1 < |s| then s[j + 1] else NULL)
    && h[s[j]].prevFree == (if 0 < j then s[j - 1] else NULL)
  }

  /** The nodes of s are chained by nextFree and prevFree in order. */
  ghost predicate Linked(h: Headers, s: seq<int>) {
    && (forall j {:trigger NodeOk(h, s, j)} :: 0 <= j < |s| ==> NodeOk(h, s, j))
    && (forall j, k :: 0 <= j < k < |s| ==> s[j] != s[k])
  }

  /** s is the content of list i: chained from its head, and made of listed blocks of class i. */
  ghost predicate ListOk(h: Headers, head: int, s: seq<int>, i: int, listed: set<int>) {
    && head == Head(s)
    && Linked(h, s)
    && (forall j :: 0 <= j < |s| ==> s[j] in listed && s[j] in h && 0 <= s[j] && InClass(h[s[j]].size, i))
  }

  /** b is in the list its size selects. */
  ghost predicate Filed(h: Headers, chains: seq<seq<int>>, b: int)
    requires |chains| == FREE_LIST_COUNT
  {
    b in h && exists i :: InClass(h[b].size, i) && b in chains[i]
  }

  /** The lists together hold exactly the blocks of `listed`, each in the list its size selects. */
  ghost predicate ListsHold(h: Headers, heads: seq<int>, chains: seq<seq<int>>, listed: set<int>) {
    && |heads| == |chains| == FREE_LIST_COUNT
    && (forall i {:trigger ListOk(h, heads[i], chains[i], i, listed)} :: 0 <= i < FREE_LIST_COUNT ==>
          ListOk(h, heads[i], chains[i], i, listed))
    && (forall b {:trigger Filed(h, chains, b)} :: b in listed ==> Filed(h, chains, b))
  }
}
