/** The type table of src/symtab/typetb.c as a value, and the sizes and offsets it stands for. */
module TypeTable {
  import opened Common

  const NONE := -1   // SMT_NULL and NO_SYMBOL_ID

  type Width = n: int | n > 0 witness 1

  /** The byte widths of src/config.c; all four are positive. */
  datatype Conf = Conf(full: Width, half: Width, quarter: Width, eighth: Width)

  /** The tokens of primitive types, as far as TKN_variable_bitness tells them apart, and i8 for the initialisers. */
  datatype Token = Wide | Half | Quarter | I8 | Narrow

  datatype Body =
    | Generic
    | Custom(size: int, align: int, multiple: bool, vtable: bool, children: seq<int>)
    | Primitive(token: Token)
    | Method(fId: int, inVtable: bool, index: int)
    | Array(element: int, length: int)   // length: the size in bytes
    | Signature

  /** A string_t* that may be NULL. */
  datatype Name = Unnamed | Named(text: string)

  /** p: the type this one is a copy of; ptr: the depth of indirection; scope: where the name is known, or NONE. */
  datatype TypeInfo = TypeInfo(p: int, ptr: int, name: Name, scope: int, body: Body)

  // ---- rounding ----

  /** Bitwise and of two's complement integers of unbounded width. */
  function And(a: int, b: int): int
    decreases if a < 0 then -a else a, if b < 0 then -b else b
  {
    if a == 0 || b == 0 then 0
    else if a == -1 then b
    else if b == -1 then a
    else 2 * And(a / 2, b / 2) + (a % 2) * (b % 2)
  }

  /** The ALIGN macro: (x + b - 1) & ~(b - 1). */
  function Align(x: int, b: int): int {
    And(x + b - 1, -b)
  }

  ghost predicate PowerOfTwo(b: int) {
    exists k: nat :: b == Pow2(k)
  }

  lemma PowerPositive(b: int)
    requires PowerOfTwo(b)
    ensures b > 0
  {
  }

  lemma AndEven(y: int, m: int)
    requires m < 0
    ensures And(y, 2 * m) == 2 * And(y / 2, m)
  {
    assert (2 * m) / 2 == m && (2 * m) % 2 == 0;
  }

  lemma AndAll(y: int)
    ensures And(y, -1) == y && y % 1 == 0
  {
  }

  lemma AtLeastOnce(b: Width, d: int)
    requires d >= 1
    ensures b * d >= b
  {
    assert b * d == b * (d - 1) + b;
    assert b * (d - 1) >= 0;
  }

  lemma Unique(b: Width, q: int, r: int, q': int, r': int)
    requires b * q + r == b * q' + r' && 0 <= r < b && 0 <= r' < b
    ensures q == q' && r == r'
  {
    assert b * (q - q') == b * q - b * q';
    assert b * (q' - q) == b * q' - b * q;
    if q > q' {
      AtLeastOnce(b, q - q');
    } else if q < q' {
      AtLeastOnce(b, q' - q);
    }
  }

  lemma Quotient(y: int, b: Width, q: int, r: int)
    requires y == b * q + r && 0 <= r < b
    ensures y % b == r && y / b == q
  {
    Unique(b, q, r, y / b, y % b);
  }

  lemma HalfMod(y: int, h: Width)
    ensures 2 * (y / 2 - (y / 2) % h) == y - y % (2 * h)
  {
    var q, r := (y / 2) / h, (y / 2) % h;
    assert y / 2 == q * h + r;
    assert y == (2 * h) * q + (2 * r + y % 2);
    Quotient(y, 2 * h, q, 2 * r + y % 2);
  }

  lemma {:induction false} AndMask(y: int, k: nat)
    ensures And(y, 0 - Pow2(k)) == y - y % Pow2(k)
    decreases k
  {
    hide And;
    if k == 0 {
      AndAll(y);
    } else {
      var h: int := Pow2(k - 1);
      AndMask(y / 2, k - 1);
      assert Pow2(k) == 2 * h && 0 - Pow2(k) == 2 * (0 - h);
      hide Pow2;
      AndEven(y, 0 - h);
      HalfMod(y, h);
    }
  }

  lemma DivMod(y: int, b: Width, q: int, r: int)
    requires q == y / b && r == y % b
    ensures y == b * q + r && 0 <= r < b
  {
  }

  lemma RoundUp(x: int, b: Width, q: int, r: int)
    requires x + b - 1 == b * q + r && 0 <= r < b
    ensures x <= b * q < x + b && (b * q) % b == 0
  {
    Quotient(b * q, b, q, 0);
  }

  /** For a power of two the mask rounds up to the next multiple. */
  lemma AlignRoundsUp(x: int, b: int)
    requires PowerOfTwo(b)
    ensures b > 0 && x <= Align(x, b) < x + b && Align(x, b) % b == 0
  {
    hide And;
    hide Pow2;
    var k: nat :| b == Pow2(k);
    var y := x + b - 1;
    AndMask(y, k);
    var q, r := y / b, y % b;
    DivMod(y, b, q, r);
    RoundUp(x, b, q, r);
  }

  // ---- sizes ----

  /** TKN_variable_bitness and TKN_convert_type_size for the token of a primitive. */
  function TokenSize(conf: Conf, token: Token): Width {
    match token
    case Wide => conf.full
    case Half => conf.half
    case Quarter => conf.quarter
    case _ => conf.eighth
  }

  datatype Table = Table(types: map<int, TypeInfo>, conf: Conf) {

    function RawSize(b: Body, vtable: bool): int {
      match b
      case Primitive(token) => TokenSize(conf, token)
      case Custom(size, _, _, _, _) => size
      case Array(_, length) => length
      case Method(_, inVtable, _) => if vtable && inVtable then conf.full else NONE
      case _ => NONE
    }

    /** TPTB_get_memory_size_id */
    function MemSize(id: int): int {
      if id !in types then NONE
      else if types[id].ptr != 0 then conf.full
      else RawSize(types[id].body, false)
    }

    predicate IsMethod(id: int) {
      id in types && types[id].body.Method?
    }

    predicate InVtable(id: int) {
      id in types && types[id].body.Method? && types[id].body.inVtable
    }

    predicate IsCustom(id: int) {
      id in types && types[id].body.Custom?
    }

    /** Copies come after what they copy, so that the chain of parents ends. */
    ghost predicate Copies() {
      forall id :: id in types ==> 0 <= id && types[id].p < id
    }

    /** TPTB_resolve_parent */
    function Resolve(c: int): (root: int)
      requires Copies()
      ensures root in types ==> types[root].p == NONE
      decreases if c in types then c + 1 else 0
    {
      if c in types && types[c].p != NONE then Resolve(types[c].p) else c
    }

    // ---- vtable ----

    /** The index of an in-vtable child, where fallback such children come before it. */
    function Index(id: int, fallback: nat): int
      requires InVtable(id)
    {
      if types[id].body.index == NONE then fallback else types[id].body.index
    }

    /** How many in-vtable methods there are among the first n children. */
    function Fallback(children: seq<int>, n: nat): nat
      requires n <= |children|
    {
      if n == 0 then 0 else Fallback(children, n - 1) + (if InVtable(children[n - 1]) then 1 else 0)
    }

    /** One more than the highest index among the first n children. */
    function Slots(children: seq<int>, n: nat): nat
      requires n <= |children|
    {
      if n == 0 then 0 else
      var before := Slots(children, n - 1);
      if !InVtable(children[n - 1]) then before else
      var index := Index(children[n - 1], Fallback(children, n - 1));
      if index >= before then index + 1 else before
    }

    /** _vtable_slot_count */
    function SlotCount(b: Body): nat {
      if !b.Custom? || !b.vtable then 0 else Slots(b.children, |b.children|)
    }

    /** _vtable_prefix_size */
    function Prefix(b: Body): nat {
      if SlotCount(b) != 0 then conf.full else 0
    }

    // ---- layout ----

    /** A child that takes room of its own in the container. */
    predicate IsField(id: int) {
      id in types && !types[id].body.Method? && MemSize(id) > 0
    }

    /** The room child c takes in a struct. */
    function Room(c: int, align: int): int {
      if IsField(c) then Align(MemSize(c), align) else 0
    }

    /** Where child n begins in a struct whose fields are padded to align, behind a vtable word of the given size. */
    function Offset(prefix: nat, align: int, children: seq<int>, n: nat): int
      requires n <= |children|
    {
      if n == 0 then prefix
      else Offset(prefix, align, children, n - 1) + Room(children[n - 1], align)
    }

    /** The end of the fields: a sum for a struct, a maximum for a union. */
    function Extent(b: Body, n: nat): int
      requires b.Custom? && n <= |b.children|
    {
      if n == 0 then 0 else
      var before, c := Extent(b, n - 1), b.children[n - 1];
      if !IsField(c) then before
      else if !b.multiple then (if before > Align(MemSize(c), b.align) then before else Align(MemSize(c), b.align))
      else before + (if b.align != NONE then Align(MemSize(c), b.align) else Align(MemSize(c), MemSize(c)))
    }

    /** What _recalculate_custom_layout stores. */
    function LayoutSize(b: Body): int
      requires b.Custom?
    {
      Extent(b, |b.children|) + Prefix(b)
    }

    lemma {:induction false} ExtentIsOffset(b: Body, n: nat)
      requires b.Custom? && n <= |b.children| && b.multiple && b.align != NONE
      ensures Offset(Prefix(b), b.align, b.children, n) == Prefix(b) + Extent(b, n)
    {
      if n != 0 {
        ExtentIsOffset(b, n - 1);
      }
    }

    lemma RoomFits(c: int, align: int)
      requires PowerOfTwo(align)
      ensures Room(c, align) >= 0 && (IsField(c) ==> Room(c, align) >= MemSize(c))
    {
      if IsField(c) {
        AlignRoundsUp(MemSize(c), align);
      }
    }

    /** Offsets never go back, and leave room for every field between. */
    lemma {:induction false} OffsetsGrow(prefix: nat, align: int, children: seq<int>, i: nat, n: nat)
      requires PowerOfTwo(align) && i <= n <= |children|
      ensures Offset(prefix, align, children, i) <= Offset(prefix, align, children, n)
      ensures i < n && IsField(children[i]) ==>
                Offset(prefix, align, children, i) + MemSize(children[i]) <= Offset(prefix, align, children, n)
      decreases n - i
    {
      if i < n {
        RoomFits(children[i], align);
        OffsetsGrow(prefix, align, children, i + 1, n);
        assert Offset(prefix, align, children, i + 1) == Offset(prefix, align, children, i) + Room(children[i], align);
      }
    }
  }
}
