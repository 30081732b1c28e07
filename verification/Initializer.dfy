/** The data directives of _generate_typed_initializer, src/asm/i386_gnu_nasm/asmgen.c, counted in bytes. */
module Initializer {
  import opened TypeTable
  import opened TypeSlots
  import opened TypeElements
  import opened TypeFind

  /** array_elem_info_t: a number, a string, or the address of a function, a vtable or a label. */
  datatype Elem = Const(value: int) | Text(sId: int) | Address(symbol: int)

  datatype Held = Nothing | Holding(elem: Elem)

  /** "times n db 0", "dd/dw/db v", "dd string", and "dq/dd/dw/db symbol". */
  datatype Directive = Zeros(n: int) | Value(width: int, v: int) | Pointer(sId: int) | Symbol(width: int, symbol: int)

  /** _emit_typed_value: everything that is not 4 or 2 bytes wide becomes a "db". */
  function ValueWidth(size: int): int {
    if size == 4 then 4 else if size == 2 then 2 else 1
  }

  /** NASMFMT_emit_typed_value knows 8 as well. */
  function SymbolWidth(size: int): int {
    if size == 8 then 8 else ValueWidth(size)
  }

  function Bytes(d: Directive): int {
    match d
    case Zeros(n) => n
    case Value(width, _) => width
    case Pointer(_) => 4
    case Symbol(width, _) => width
  }

  function Total(out: seq<Directive>): int {
    if out == [] then 0 else Total(out[..|out| - 1]) + Bytes(out[|out| - 1])
  }

  /** _emit_zero_bytes: nothing for a count that is not positive. */
  function Padding(count: int): (r: seq<Directive>)
    ensures |r| <= 1 && forall d :: d in r ==> d.Zeros? && d.n > 0
  {
    if count <= 0 then [] else [Zeros(count)]
  }

  /** A slot that can take one character of a string. */
  predicate TakesChar(tab: Table, slot: Slot) {
    && slot.kind in tab.types
    && tab.types[slot.kind].body == Primitive(I8)
    && tab.types[slot.kind].ptr == 0
  }

  /** What the loop carries from slot to slot. */
  datatype Progress = Progress(held: Held, values: nat, chars: nat, owner: int, end: int)

  const FRESH := Progress(Nothing, 0, 0, NONE, 0)

  /** The element a slot is to show: the string in hand goes on inside its owner, anything else gives way to the next
      value. */
  function Fetch(tab: Table, values: seq<Elem>, slot: Slot, p: Progress): Progress
    requires p.values <= |values|
  {
    if p.held.Holding? && p.held.elem.Text? && TakesChar(tab, slot) && p.owner == slot.owner then p
    else if p.values < |values| then Progress(Holding(values[p.values]), p.values + 1, 0, NONE, p.end)
    else p
  }

  function CharAt(strings: map<int, seq<int>>, sId: int, k: nat): int {
    if sId in strings && k < |strings[sId]| then strings[sId][k] else 0
  }

  /** The directive for a slot, once its element is in hand. */
  function Show(tab: Table, strings: map<int, seq<int>>, slot: Slot, p: Progress): Directive {
    match p.held
    case Nothing => Value(ValueWidth(slot.size), 0)
    case Holding(Const(v)) => Value(ValueWidth(slot.size), v)
    case Holding(Address(symbol)) => Symbol(SymbolWidth(slot.size), symbol)
    case Holding(Text(sId)) =>
      if !TakesChar(tab, slot) then Pointer(sId)
      else if p.owner != NONE && p.owner != slot.owner then Value(ValueWidth(slot.size), 0)
      else Value(ValueWidth(slot.size), CharAt(strings, sId, p.chars))
  }

  function Advance(tab: Table, slot: Slot, p: Progress): Progress {
    var end := slot.off + slot.size;
    if !TakesChar(tab, slot) then p.(held := Nothing, end := end)
    else if p.held.Holding? && p.held.elem.Text? && (p.owner == NONE || p.owner == slot.owner)
    then p.(chars := p.chars + 1, owner := slot.owner, end := end)
    else p.(end := end)
  }

  /** The loop after its first n slots. */
  function Run(tab: Table, strings: map<int, seq<int>>, values: seq<Elem>, slots: seq<Slot>, n: nat): (p: Progress)
    requires n <= |slots|
    ensures p.values <= |values|
  {
    if n == 0 then FRESH else
    Advance(tab, slots[n - 1], Fetch(tab, values, slots[n - 1], Run(tab, strings, values, slots, n - 1)))
  }

  /** The directive of slot n. */
  function Shown(tab: Table, strings: map<int, seq<int>>, values: seq<Elem>, slots: seq<Slot>, n: nat): Directive
    requires n < |slots|
  {
    Show(tab, strings, slots[n], Fetch(tab, values, slots[n], Run(tab, strings, values, slots, n)))
  }

  /** Everything written for the first n slots. */
  function Written(tab: Table, strings: map<int, seq<int>>, values: seq<Elem>, slots: seq<Slot>, n: nat): seq<Directive>
    requires n <= |slots|
  {
    if n == 0 then [] else
    Written(tab, strings, values, slots, n - 1)
    + Padding(slots[n - 1].off - Run(tab, strings, values, slots, n - 1).end)
    + [Shown(tab, strings, values, slots, n - 1)]
  }

  /** _array_reserve_size without an element token. */
  function Reserve(tab: Table, tId: int, length: int): int {
    if tab.MemSize(tId) != NONE then tab.MemSize(tId) else length * 4
  }

  lemma ReservesSize(tab: Table, tId: int, length: int)
    ensures tab.MemSize(tId) >= 0 ==> Reserve(tab, tId, length) == tab.MemSize(tId)
  {
  }

  /** One round: picks the element for the slot, and forms the directive. */
  method EmitSlot(tab: Table, slot: Slot, values: seq<Elem>, strings: map<int, seq<int>>, held: Held, count: nat,
                  chars: nat, owner: int, end: int)
    returns (elem: Held, valuePos: nat, stringPos: nat, stringOwner: int, directive: Directive)
    requires count <= |values|
    ensures valuePos <= |values|
    ensures var p := Fetch(tab, values, slot, Progress(held, count, chars, owner, end));
      && directive == Show(tab, strings, slot, p)
      && Progress(elem, valuePos, stringPos, stringOwner, slot.off + slot.size) == Advance(tab, slot, p)
  {
    elem, valuePos, stringPos, stringOwner := held, count, chars, owner;
    var takesChar := TakesChar(tab, slot);
    if elem.Holding? && elem.elem.Text? && takesChar && stringOwner == slot.owner {
      // the string in hand goes on
    } else if valuePos < |values| {
      elem, stringPos, stringOwner := Holding(values[valuePos]), 0, NONE;
      valuePos := valuePos + 1;
    }
    match elem {
      case Nothing =>
        directive := Value(ValueWidth(slot.size), 0);
      case Holding(Const(v)) =>
        directive := Value(ValueWidth(slot.size), v);
      case Holding(Address(symbol)) =>
        directive := Symbol(SymbolWidth(slot.size), symbol);
      case Holding(Text(sId)) =>
        if !takesChar {
          directive := Pointer(sId);
        } else if stringOwner != NONE && stringOwner != slot.owner {
          directive := Value(ValueWidth(slot.size), 0);
        } else {
          if stringOwner == NONE {
            stringOwner := slot.owner;
          }
          directive := Value(ValueWidth(slot.size), CharAt(strings, sId, stringPos));
          stringPos := stringPos + 1;
        }
    }
    if !takesChar {
      elem := Nothing;
    }
  }

  /** The bytes in front of the directive of slot n. */
  function Ahead(tab: Table, strings: map<int, seq<int>>, values: seq<Elem>, slots: seq<Slot>, n: nat): int
    requires n < |slots|
  {
    Total(Written(tab, strings, values, slots, n) + Padding(slots[n].off - Run(tab, strings, values, slots, n).end))
  }

  /** Every directive begins at the offset of its slot, and the output fills the object. */
  ghost predicate Placed(tab: Table, strings: map<int, seq<int>>, values: seq<Elem>, slots: seq<Slot>, size: int) {
    && (forall n {:trigger Ahead(tab, strings, values, slots, n)} :: 0 <= n < |slots| ==>
          Ahead(tab, strings, values, slots, n) == slots[n].off)
    && size == Total(Written(tab, strings, values, slots, |slots|)
                     + Padding(size - Run(tab, strings, values, slots, |slots|).end))
  }

  predicate NoText(values: seq<Elem>) {
    forall i :: 0 <= i < |values| ==> !values[i].Text?
  }

  /** The directive holds the number, the address, or the place of the string. */
  predicate Shows(d: Directive, e: Elem) {
    match e
    case Const(v) => d.Value? && d.v == v
    case Address(symbol) => d.Symbol? && d.symbol == symbol
    case Text(sId) => d == Pointer(sId)
  }

  /** At byte off of the output there begins a directive that holds e. */
  ghost predicate Carries(out: seq<Directive>, off: int, e: Elem) {
    exists k :: 0 <= k < |out| && Total(out[..k]) == off && Shows(out[k], e)
  }

  // ---- the bytes ----

  lemma {:induction false} TotalAppends(a: seq<Directive>, b: seq<Directive>)
    ensures Total(a + b) == Total(a) + Total(b)
    decreases |b|
  {
    if b == [] {
      assert a + b == a;
    } else {
      assert (a + b)[..|a + b| - 1] == a + b[..|b| - 1];
      TotalAppends(a, b[..|b| - 1]);
    }
  }

  lemma PaddingBytes(count: int)
    ensures Total(Padding(count)) == if count <= 0 then 0 else count
  {
    if count > 0 {
      assert Padding(count)[..0] == [];
    }
  }

  /** By how much the directives of the first n slots are wider than their slots. */
  function Excess(tab: Table, strings: map<int, seq<int>>, values: seq<Elem>, slots: seq<Slot>, n: nat): int
    requires n <= |slots|
  {
    if n == 0 then 0 else
    Excess(tab, strings, values, slots, n - 1) + Bytes(Shown(tab, strings, values, slots, n - 1)) - slots[n - 1].size
  }

  lemma EndOf(tab: Table, strings: map<int, seq<int>>, values: seq<Elem>, slots: seq<Slot>, n: nat)
    requires n <= |slots|
    ensures Run(tab, strings, values, slots, n).end == if n == 0 then 0 else slots[n - 1].off + slots[n - 1].size
  {
    if n > 0 {
      assert Run(tab, strings, values, slots, n)
             == Advance(tab, slots[n - 1], Fetch(tab, values, slots[n - 1], Run(tab, strings, values, slots, n - 1)));
    }
  }

  lemma AheadOf(tab: Table, strings: map<int, seq<int>>, values: seq<Elem>, slots: seq<Slot>, size: int, n: nat)
    requires Ordered(slots, 0, size) && n < |slots|
    requires Total(Written(tab, strings, values, slots, n))
             == Run(tab, strings, values, slots, n).end + Excess(tab, strings, values, slots, n)
    ensures Ahead(tab, strings, values, slots, n) == slots[n].off + Excess(tab, strings, values, slots, n)
  {
    hide Run;
    hide Padding;
    hide Written;
    hide Excess;
    EndOf(tab, strings, values, slots, n);
    var pad := slots[n].off - Run(tab, strings, values, slots, n).end;
    assert pad >= 0;
    PaddingBytes(pad);
    TotalAppends(Written(tab, strings, values, slots, n), Padding(pad));
  }

  lemma TotalShort(d: Directive)
    ensures Total([]) == 0 && Total([d]) == Bytes(d)
  {
    assert [d][..0] == [];
  }

  lemma {:induction false} WrittenBytes(tab: Table, strings: map<int, seq<int>>, values: seq<Elem>, slots: seq<Slot>,
                                        size: int, n: nat)
    requires Ordered(slots, 0, size) && n <= |slots|
    ensures Total(Written(tab, strings, values, slots, n))
            == Run(tab, strings, values, slots, n).end + Excess(tab, strings, values, slots, n)
    decreases n
  {
    hide Run;
    hide Shown;
    hide Bytes;
    hide Padding;
    hide Ordered;
    hide Total;
    EndOf(tab, strings, values, slots, n);
    if n == 0 {
      TotalShort(Zeros(0));
    } else {
      WrittenBytes(tab, strings, values, slots, size, n - 1);
      AheadOf(tab, strings, values, slots, size, n - 1);
      var front := Written(tab, strings, values, slots, n - 1)
                   + Padding(slots[n - 1].off - Run(tab, strings, values, slots, n - 1).end);
      var d := Shown(tab, strings, values, slots, n - 1);
      assert Written(tab, strings, values, slots, n) == front + [d];
      TotalAppends(front, [d]);
      TotalShort(d);
    }
  }

  /** The whole output is as long as the object, up to the excess of its directives. */
  lemma OutputBytes(tab: Table, strings: map<int, seq<int>>, values: seq<Elem>, slots: seq<Slot>, size: int)
    requires size >= 0 && Ordered(slots, 0, size)
    ensures Total(Written(tab, strings, values, slots, |slots|)
                  + Padding(size - Run(tab, strings, values, slots, |slots|).end))
            == size + Excess(tab, strings, values, slots, |slots|)
  {
    hide Run;
    hide Padding;
    hide Written;
    hide Excess;
    WrittenBytes(tab, strings, values, slots, size, |slots|);
    EndOf(tab, strings, values, slots, |slots|);
    var pad := size - Run(tab, strings, values, slots, |slots|).end;
    assert pad >= 0;
    PaddingBytes(pad);
    TotalAppends(Written(tab, strings, values, slots, |slots|), Padding(pad));
  }

  /** The directive of slot n is as wide as the slot. */
  predicate Fits(tab: Table, strings: map<int, seq<int>>, values: seq<Elem>, slots: seq<Slot>, n: nat)
    requires n < |slots|
  {
    Bytes(Shown(tab, strings, values, slots, n)) == slots[n].size
  }

  lemma {:induction false} NoExcess(tab: Table, strings: map<int, seq<int>>, values: seq<Elem>, slots: seq<Slot>,
                                    n: nat)
    requires n <= |slots| && forall k :: 0 <= k < n ==> Fits(tab, strings, values, slots, k)
    ensures Excess(tab, strings, values, slots, n) == 0
  {
    hide Shown;
    hide Run;
    hide Bytes;
    if n > 0 {
      assert Fits(tab, strings, values, slots, n - 1);
      NoExcess(tab, strings, values, slots, n - 1);
    }
  }

  /** That is so exactly when every directive is as wide as its slot. */
  lemma PlacedIffFits(tab: Table, strings: map<int, seq<int>>, values: seq<Elem>, slots: seq<Slot>, size: int)
    requires size >= 0 && Ordered(slots, 0, size)
    ensures Placed(tab, strings, values, slots, size) <==>
              forall k :: 0 <= k < |slots| ==> Fits(tab, strings, values, slots, k)
  {
    hide Shown;
    hide Run;
    hide Bytes;
    hide Padding;
    hide Written;
    hide Ahead;
    hide Ordered;
    hide Total;
    forall n | 0 <= n < |slots|
      ensures Ahead(tab, strings, values, slots, n) == slots[n].off + Excess(tab, strings, values, slots, n)
    {
      WrittenBytes(tab, strings, values, slots, size, n);
      AheadOf(tab, strings, values, slots, size, n);
    }
    OutputBytes(tab, strings, values, slots, size);
    if forall k :: 0 <= k < |slots| ==> Fits(tab, strings, values, slots, k) {
      forall n | 0 <= n <= |slots| ensures Excess(tab, strings, values, slots, n) == 0 {
        NoExcess(tab, strings, values, slots, n);
      }
    }
    if Placed(tab, strings, values, slots, size) {
      forall k | 0 <= k < |slots| ensures Fits(tab, strings, values, slots, k) {
        assert Ahead(tab, strings, values, slots, k) == slots[k].off;
        if k + 1 < |slots| {
          assert Ahead(tab, strings, values, slots, k + 1) == slots[k + 1].off;
        }
        assert Excess(tab, strings, values, slots, k + 1) == 0;
      }
    }
  }

  // ---- a target whose words are at most four bytes ----

  predicate Directives(w: int) {
    w == 1 || w == 2 || w == 4
  }

  /** The widths a 32-bit target is set up with: every slot has a directive of its own width. */
  predicate Small(conf: Conf) {
    Directives(conf.full) && Directives(conf.half) && Directives(conf.quarter) && Directives(conf.eighth)
  }

  /** Slot k is reached with a string in hand, and takes no characters. */
  predicate MeetsString(tab: Table, strings: map<int, seq<int>>, values: seq<Elem>, slots: seq<Slot>, k: nat)
    requires k < |slots|
  {
    var held := Fetch(tab, values, slots[k], Run(tab, strings, values, slots, k)).held;
    held.Holding? && held.elem.Text? && !TakesChar(tab, slots[k])
  }

  /** Strings only ever meet character slots and slots of four bytes. */
  predicate StringsFit(tab: Table, strings: map<int, seq<int>>, values: seq<Elem>, slots: seq<Slot>) {
    forall k :: 0 <= k < |slots| && MeetsString(tab, strings, values, slots, k) ==> slots[k].size == 4
  }

  lemma ShownWidth(tab: Table, strings: map<int, seq<int>>, values: seq<Elem>, slots: seq<Slot>, k: nat)
    requires k < |slots| && Directives(slots[k].size)
    ensures Fits(tab, strings, values, slots, k) <==>
              (MeetsString(tab, strings, values, slots, k) ==> slots[k].size == 4)
  {
    hide Fetch;
    hide Run;
    hide TakesChar;
    var p := Fetch(tab, values, slots[k], Run(tab, strings, values, slots, k));
    match p.held
    case Nothing =>
    case Holding(Const(v)) =>
    case Holding(Address(symbol)) =>
    case Holding(Text(sId)) =>
  }

  /** On such a target the initialiser of a laid out type fills its object, each value at its offset, exactly
      when no string meets a slot that neither takes characters nor is four bytes wide. */
  lemma InitializerFillsObject(tab: Table, rank: map<int, nat>, strings: map<int, seq<int>>, values: seq<Elem>,
                               tId: int)
    requires tab.Copies() && Ranked(tab, rank) && Laid(tab, rank, tId)
    requires Small(tab.conf) && tab.MemSize(tId) >= 0
    ensures Placed(tab, strings, values, Slots(tab, rank, tId, 0), tab.MemSize(tId))
            <==> StringsFit(tab, strings, values, Slots(tab, rank, tId, 0))
  {
    hide Shown;
    hide Fits;
    hide Ordered;
    hide Laid;
    hide Ranked;
    hide Placed;
    var slots := Slots(tab, rank, tId, 0);
    SlotsTile(tab, rank, tId, 0);
    PlacedIffFits(tab, strings, values, slots, tab.MemSize(tId));
    LeafWidths(tab, rank, tId, 0);
    forall k | 0 <= k < |slots|
      ensures Fits(tab, strings, values, slots, k) <==>
                (MeetsString(tab, strings, values, slots, k) ==> slots[k].size == 4)
    {
      ShownWidth(tab, strings, values, slots, k);
    }
  }

  lemma {:induction false} HeldIsValue(tab: Table, strings: map<int, seq<int>>, values: seq<Elem>, slots: seq<Slot>,
                                       n: nat)
    requires n <= |slots|
    ensures var held := Run(tab, strings, values, slots, n).held; held.Holding? ==> held.elem in values
  {
    if n > 0 {
      HeldIsValue(tab, strings, values, slots, n - 1);
      var p := Fetch(tab, values, slots[n - 1], Run(tab, strings, values, slots, n - 1));
      assert Run(tab, strings, values, slots, n) == Advance(tab, slots[n - 1], p);
    }
  }

  /** All slots but those of characters are four bytes wide. */
  predicate CharsOrWords(tab: Table, slots: seq<Slot>) {
    forall k :: 0 <= k < |slots| ==> TakesChar(tab, slots[k]) || slots[k].size == 4
  }

  /** The string in hand is one of the values. */
  lemma StringComesFrom(tab: Table, strings: map<int, seq<int>>, values: seq<Elem>, slots: seq<Slot>, k: nat)
    returns (i: nat)
    requires k < |slots| && MeetsString(tab, strings, values, slots, k)
    ensures i < |values| && values[i].Text?
  {
    HeldIsValue(tab, strings, values, slots, k);
    var held := Fetch(tab, values, slots[k], Run(tab, strings, values, slots, k)).held;
    i :| 0 <= i < |values| && values[i] == held.elem;
  }

  /** Numbers and addresses alone always fill the object; so do strings, where all slots but those of characters are
      four bytes wide. */
  lemma PlainValuesFill(tab: Table, rank: map<int, nat>, strings: map<int, seq<int>>, values: seq<Elem>, tId: int)
    requires tab.Copies() && Ranked(tab, rank) && Laid(tab, rank, tId)
    requires Small(tab.conf) && tab.MemSize(tId) >= 0
    requires NoText(values) || CharsOrWords(tab, Slots(tab, rank, tId, 0))
    ensures Placed(tab, strings, values, Slots(tab, rank, tId, 0), tab.MemSize(tId))
  {
    hide Placed;
    hide Laid;
    hide Ranked;
    hide Slots;
    hide TakesChar;
    var slots := Slots(tab, rank, tId, 0);
    forall k | 0 <= k < |slots| && MeetsString(tab, strings, values, slots, k) ensures slots[k].size == 4 {
      var i := StringComesFrom(tab, strings, values, slots, k);
    }
    InitializerFillsObject(tab, rank, strings, values, tId);
  }

  /** A struct of one two-byte field. */
  const HALF_WORD := Table(map[0 := TypeInfo(NONE, 0, Unnamed, NONE, Primitive(Half)),
                               1 := TypeInfo(NONE, 0, Unnamed, NONE, Custom(2, 1, true, false, [0]))], Conf(4, 2, 1, 1))

  /** Initialised by a string, it is written as four bytes. */
  lemma StringInTwoBytes(rank: map<int, nat>, strings: map<int, seq<int>>, sId: int)
    requires Ranked(HALF_WORD, rank)
    ensures var slots := Slots(HALF_WORD, rank, 1, 0);
      && slots == [Slot(0, 2, 0, 0)]
      && MeetsString(HALF_WORD, strings, [Text(sId)], slots, 0)
      && !Placed(HALF_WORD, strings, [Text(sId)], slots, 2)
  {
    var tab, values := HALF_WORD, [Text(sId)];
    var b := tab.types[1].body;
    assert Scan(tab, 1) == 1 && tab.IsField(0) && Within(tab, 0, 1);
    assert Fields(tab, rank, rank[1], b, 0, 0) == ([], 0);
    assert Fields(tab, rank, rank[1], b, 0, 1).0 == [Slot(0, 2, 0, 0)];
    var slots := Slots(tab, rank, 1, 0);
    assert slots == [Slot(0, 2, 0, 0)];
    assert Run(tab, strings, values, slots, 0) == FRESH;
    assert !Fits(tab, strings, values, slots, 0);
    PlacedIffFits(tab, strings, values, slots, 2);
  }

  /** The general directives have no width of eight: a number in such a slot falls seven bytes short. */
  lemma EightByteNumber(tab: Table, strings: map<int, seq<int>>, values: seq<Elem>, slots: seq<Slot>, n: nat)
    requires n < |slots| && slots[n].size == 8
    requires Fetch(tab, values, slots[n], Run(tab, strings, values, slots, n)).held == Nothing
          || Fetch(tab, values, slots[n], Run(tab, strings, values, slots, n)).held.elem.Const?
    ensures Bytes(Shown(tab, strings, values, slots, n)) == 1 && !Fits(tab, strings, values, slots, n)
  {
    hide Fetch;
    hide Run;
    hide TakesChar;
  }

  // ---- the contents ----

  /** Which element slot n shows when there are no strings: its own value; past the last value, the value before it
      goes on through character slots and ends at the first other slot. */
  function Assigned(tab: Table, values: seq<Elem>, slots: seq<Slot>, n: nat): Held
    requires n < |slots|
  {
    if n < |values| then Holding(values[n])
    else if n > 0 && TakesChar(tab, slots[n - 1]) then Assigned(tab, values, slots, n - 1)
    else Nothing
  }

  lemma {:induction false} ValuesInOrder(tab: Table, strings: map<int, seq<int>>, values: seq<Elem>, slots: seq<Slot>,
                                         n: nat)
    requires n < |slots| && forall i :: 0 <= i < |values| ==> !values[i].Text?
    ensures Run(tab, strings, values, slots, n).values == if n < |values| then n else |values|
    ensures Fetch(tab, values, slots[n], Run(tab, strings, values, slots, n)).held == Assigned(tab, values, slots, n)
    ensures Assigned(tab, values, slots, n).Holding? ==> Assigned(tab, values, slots, n).elem in values
    decreases n
  {
    if n > 0 {
      ValuesInOrder(tab, strings, values, slots, n - 1);
      var p := Fetch(tab, values, slots[n - 1], Run(tab, strings, values, slots, n - 1));
      assert Run(tab, strings, values, slots, n) == Advance(tab, slots[n - 1], p);
    }
  }

  /** Slots m to m + j take characters of one owner. */
  predicate OneString(tab: Table, slots: seq<Slot>, m: nat, j: nat)
    requires m + j < |slots|
  {
    forall i :: m <= i <= m + j ==> TakesChar(tab, slots[i]) && slots[i].owner == slots[m].owner
  }

  /** Slot m brings a new value into hand, and it is e. */
  predicate Brings(tab: Table, strings: map<int, seq<int>>, values: seq<Elem>, slots: seq<Slot>, m: nat, e: Elem)
    requires m < |slots|
  {
    var p := Run(tab, strings, values, slots, m);
    p.values < |values| && values[p.values] == e && Fetch(tab, values, slots[m], p).values == p.values + 1
  }

  /** A string that is fetched for a character slot spreads over the character slots of its owner, followed by zeros. */
  lemma {:induction false} StringSpreads(tab: Table, strings: map<int, seq<int>>, values: seq<Elem>, slots: seq<Slot>,
                                         m: nat, j: nat, sId: int)
    requires m + j < |slots| && OneString(tab, slots, m, j) && slots[m].owner != NONE
    requires Brings(tab, strings, values, slots, m, Text(sId))
    ensures Shown(tab, strings, values, slots, m + j) == Value(ValueWidth(slots[m + j].size), CharAt(strings, sId, j))
    ensures var p := Run(tab, strings, values, slots, m + j + 1);
            p.held == Holding(Text(sId)) && p.chars == j + 1 && p.owner == slots[m].owner
    decreases j
  {
    var n := m + j;
    if j > 0 {
      StringSpreads(tab, strings, values, slots, m, j - 1, sId);
    }
    var p := Fetch(tab, values, slots[n], Run(tab, strings, values, slots, n));
    assert Run(tab, strings, values, slots, n + 1) == Advance(tab, slots[n], p);
  }

  // ---- what the directives hold ----

  /** A directive is as wide as its slot, where there is one of that width. */
  lemma WidthsMatch(tab: Table, strings: map<int, seq<int>>, values: seq<Elem>, slots: seq<Slot>, n: nat)
    requires n < |slots|
    ensures Shown(tab, strings, values, slots, n).Value? && slots[n].size in {1, 2, 4} ==>
              Shown(tab, strings, values, slots, n).width == slots[n].size
    ensures Shown(tab, strings, values, slots, n).Symbol? && slots[n].size in {1, 2, 4, 8} ==>
              Shown(tab, strings, values, slots, n).width == slots[n].size
  {
    hide Fetch;
    hide Run;
  }

  /** Without strings the n-th slot holds the n-th value. */
  lemma NumbersInOrder(tab: Table, strings: map<int, seq<int>>, values: seq<Elem>, slots: seq<Slot>, n: nat)
    requires n < |slots| && n < |values| && NoText(values)
    ensures Shows(Shown(tab, strings, values, slots, n), values[n])
  {
    ValuesInOrder(tab, strings, values, slots, n);
    hide Fetch;
    hide Run;
  }

  lemma {:induction false} LastGoesOn(tab: Table, values: seq<Elem>, slots: seq<Slot>, n: nat)
    requires |values| <= n < |slots|
    ensures var last := |values| - 1;
      Assigned(tab, values, slots, n) ==
      if last >= 0 && forall k :: last <= k < n ==> TakesChar(tab, slots[k]) then Holding(values[last]) else Nothing
  {
    if n > |values| && n > 0 && TakesChar(tab, slots[n - 1]) {
      LastGoesOn(tab, values, slots, n - 1);
    }
  }

  /** Behind the last value there are zeros, but in the character slots that follow its own without a gap and the slot
      behind them: there it is repeated. */
  lemma NumbersEnd(tab: Table, strings: map<int, seq<int>>, values: seq<Elem>, slots: seq<Slot>, n: nat)
    requires |values| <= n < |slots| && NoText(values)
    ensures var last := |values| - 1;
      if last >= 0 && forall k :: last <= k < n ==> TakesChar(tab, slots[k])
      then Shows(Shown(tab, strings, values, slots, n), values[last])
      else Shows(Shown(tab, strings, values, slots, n), Const(0))
  {
    ValuesInOrder(tab, strings, values, slots, n);
    LastGoesOn(tab, values, slots, n);
    hide Fetch;
    hide Run;
  }

  /** The type of a character. */
  predicate IsChar(tab: Table, e: int) {
    e in tab.types && tab.types[e].ptr == 0 && tab.types[e].body == Primitive(I8)
  }

  lemma LeafSlots(tab: Table, rank: map<int, nat>, e: int, base: int)
    requires tab.Copies() && Ranked(tab, rank) && IsLeaf(tab, e)
    ensures Slots(tab, rank, e, base) == [Slot(base, tab.MemSize(e), e, e)]
  {
  }

  lemma ElementsFit(total: int, size: Width, n: nat, i: nat)
    requires n == if total < 0 then 0 else total / size
    ensures total < (n + 1) * size && (n > 0 ==> n * size <= total)
    ensures i < n ==> (i + 1) * size <= total
  {
    if total >= 0 {
      DivMod(total, size, n, total % size);
    }
    if i + 1 < n {
      AtLeastOnce(size, n - i - 1);
      assert size * (n - i - 1) == n * size - (i + 1) * size;
    }
  }

  /** A string at a slot that takes no character is its address. */
  lemma StringElsewhere(tab: Table, strings: map<int, seq<int>>, values: seq<Elem>, slots: seq<Slot>, n: nat)
    requires n < |slots| && MeetsString(tab, strings, values, slots, n)
    ensures Shows(Shown(tab, strings, values, slots, n),
                  Fetch(tab, values, slots[n], Run(tab, strings, values, slots, n)).held.elem)
  {
    hide Fetch;
    hide Run;
  }

  /** The characters of a string stand in the slots of its owner, in order, and zeros behind them. */
  lemma CharactersInOrder(tab: Table, strings: map<int, seq<int>>, values: seq<Elem>, slots: seq<Slot>, m: nat, j: nat,
                          sId: int)
    requires m + j < |slots| && OneString(tab, slots, m, j) && slots[m].owner != NONE && sId in strings
    requires Brings(tab, strings, values, slots, m, Text(sId))
    ensures Shows(Shown(tab, strings, values, slots, m + j),
                  Const(if j < |strings[sId]| then strings[sId][j] else 0))
  {
    StringSpreads(tab, strings, values, slots, m, j, sId);
    hide Shown;
  }

  lemma SlotOfCharacter(tab: Table, rank: map<int, nat>, id: int, e: int, i: nat)
    requires tab.Copies() && Ranked(tab, rank) && IsArrayOf(tab, id, e) && IsChar(tab, e)
    requires i < |Slots(tab, rank, id, 0)|
    ensures Slots(tab, rank, id, 0)[i].kind == e && Slots(tab, rank, id, 0)[i].owner == Scan(tab, id)
  {
    var size, total := tab.MemSize(e), tab.MemSize(id);
    var n: nat := if total < 0 then 0 else total / size;
    LeafSlots(tab, rank, e, i * size);
    LeafSlots(tab, rank, e, 0);
    ElementsFit(total, size, n, i);
    ArraySlotCount(tab, rank, id, e, 0, n);
    hide Slots;
    SlotOfElement(tab, rank, id, e, 0, i, 0);
  }

  /** An array of characters that is initialised by one string holds its characters, and zeros behind them. */
  lemma StringFillsArray(tab: Table, rank: map<int, nat>, strings: map<int, seq<int>>, id: int, e: int, sId: int,
                         j: nat)
    requires tab.Copies() && Ranked(tab, rank) && IsArrayOf(tab, id, e) && IsChar(tab, e)
    requires j < |Slots(tab, rank, id, 0)| && sId in strings
    ensures Shows(Shown(tab, strings, [Text(sId)], Slots(tab, rank, id, 0), j),
                  Const(if j < |strings[sId]| then strings[sId][j] else 0))
  {
    var slots := Slots(tab, rank, id, 0);
    hide Slots;
    forall i: nat | i < |slots| ensures slots[i].kind == e && slots[i].owner == Scan(tab, id) {
      SlotOfCharacter(tab, rank, id, e, i);
    }
    assert Run(tab, strings, [Text(sId)], slots, 0) == FRESH;
    CharactersInOrder(tab, strings, [Text(sId)], slots, 0, j, sId);
  }

  /** A pointer takes no character: a string in hand there is written as its address. */
  lemma StringAtPointer(tab: Table, strings: map<int, seq<int>>, values: seq<Elem>, slots: seq<Slot>, n: nat, sId: int)
    requires n < |slots| && slots[n].kind in tab.types && tab.types[slots[n].kind].ptr != 0
    requires Brings(tab, strings, values, slots, n, Text(sId))
    ensures Shown(tab, strings, values, slots, n) == Pointer(sId)
  {
    hide Run;
  }

  /** When the values are used up, a string does not go on in the character slots of another owner. */
  lemma StringStaysInside(tab: Table, strings: map<int, seq<int>>, values: seq<Elem>, slots: seq<Slot>, n: nat)
    requires n < |slots| && TakesChar(tab, slots[n])
    requires var p := Run(tab, strings, values, slots, n);
             && p.held.Holding? && p.held.elem.Text? && p.values == |values|
             && p.owner != NONE && p.owner != slots[n].owner
    ensures Shows(Shown(tab, strings, values, slots, n), Const(0))
  {
    hide Run;
  }

  /** The directive of slot n, and what is written in front of it. */
  lemma {:induction false} DirectiveOf(tab: Table, strings: map<int, seq<int>>, values: seq<Elem>, slots: seq<Slot>,
                                       n: nat, m: nat)
    requires n < m <= |slots|
    ensures var front := Written(tab, strings, values, slots, n)
                         + Padding(slots[n].off - Run(tab, strings, values, slots, n).end);
            front + [Shown(tab, strings, values, slots, n)] <= Written(tab, strings, values, slots, m)
    decreases m
  {
    hide Run;
    hide Shown;
    hide Padding;
    if n + 1 < m {
      DirectiveOf(tab, strings, values, slots, n, m - 1);
    }
  }

  lemma PlacedAt(tab: Table, strings: map<int, seq<int>>, values: seq<Elem>, slots: seq<Slot>, size: int, n: nat)
    requires Placed(tab, strings, values, slots, size) && n < |slots|
    ensures Total(Written(tab, strings, values, slots, n)
                  + Padding(slots[n].off - Run(tab, strings, values, slots, n).end)) == slots[n].off
  {
    hide Total;
    hide Written;
    hide Run;
    hide Padding;
    assert Ahead(tab, strings, values, slots, n) == slots[n].off;
  }

  /** Where all slots fit, every value is found in the output at the offset of its slot. */
  lemma ValuesInPlace(tab: Table, strings: map<int, seq<int>>, values: seq<Elem>, slots: seq<Slot>, size: int,
                      out: seq<Directive>, n: nat)
    requires NoText(values) && Placed(tab, strings, values, slots, size) && n < |slots| && n < |values|
    requires Written(tab, strings, values, slots, |slots|) <= out
    ensures Carries(out, slots[n].off, values[n])
  {
    hide Placed;
    hide NoText;
    hide Total;
    hide Written;
    hide Run;
    hide Padding;
    hide Shown;
    hide Shows;
    NumbersInOrder(tab, strings, values, slots, n);
    DirectiveOf(tab, strings, values, slots, n, |slots|);
    PlacedAt(tab, strings, values, slots, size, n);
    var front := Written(tab, strings, values, slots, n)
                 + Padding(slots[n].off - Run(tab, strings, values, slots, n).end);
    var k := |front|;
    assert out[..k] == front && out[k] == Shown(tab, strings, values, slots, n);
  }

  /** Where all slots fit, the output is as long as the object and holds the values at the offsets of the slots. */
  lemma OutputHolds(tab: Table, strings: map<int, seq<int>>, values: seq<Elem>, slots: seq<Slot>, size: int,
                    out: seq<Directive>)
    requires Placed(tab, strings, values, slots, size)
    requires out == Written(tab, strings, values, slots, |slots|)
                    + Padding(size - Run(tab, strings, values, slots, |slots|).end)
    ensures Total(out) == size
    ensures NoText(values) ==> forall n: nat :: n < |slots| && n < |values| ==> Carries(out, slots[n].off, values[n])
  {
    hide Total;
    hide Written;
    hide Run;
    hide Padding;
    hide Carries;
    hide NoText;
    assert Total(out) == size;
    hide Placed;
    if NoText(values) {
      forall n: nat | n < |slots| && n < |values| ensures Carries(out, slots[n].off, values[n]) {
        ValuesInPlace(tab, strings, values, slots, size, out, n);
      }
    }
  }

  /** A type that is not in the table has no slots, and four bytes are reserved for each element. */
  lemma UnknownIsReserved(tab: Table, rank: map<int, nat>, strings: map<int, seq<int>>, values: seq<Elem>, tId: int,
                          length: int)
    requires tab.Copies() && Ranked(tab, rank) && tId !in tab.types
    ensures Slots(tab, rank, tId, 0) == [] && Written(tab, strings, values, [], 0) == []
    ensures Total([] + Padding(Reserve(tab, tId, length) - Run(tab, strings, values, [], 0).end))
            == if length <= 0 then 0 else length * 4
  {
    PaddingBytes(length * 4);
    assert [] + Padding(length * 4) == Padding(length * 4);
  }

  // ---- the loop ----

  method GenerateTypedInitializer(tab: Table, tId: int, length: int, values: seq<Elem>, strings: map<int, seq<int>>,
                                  ghost rank: map<int, nat>)
    returns (out: seq<Directive>)
    requires tab.Copies() && Ranked(tab, rank)
    ensures var slots := Slots(tab, rank, tId, 0);
      && out == Written(tab, strings, values, slots, |slots|)
                + Padding(Reserve(tab, tId, length) - Run(tab, strings, values, slots, |slots|).end)
    // where all slots fit the output is as long as the object, and holds the values at the offsets of the slots
    ensures var slots, size := Slots(tab, rank, tId, 0), tab.MemSize(tId);
      Placed(tab, strings, values, slots, size) && size >= 0 ==>
        && Total(out) == size
        && (NoText(values) ==> forall n: nat :: n < |slots| && n < |values| ==> Carries(out, slots[n].off, values[n]))
    // a type without a size has no slots: four bytes for each element are reserved
    ensures tId !in tab.types ==> Total(out) == if length <= 0 then 0 else length * 4
  {
    hide Slots;
    hide Ranked;
    hide Show;
    hide Fetch;
    hide Advance;
    hide Reserve;
    hide Padding;
    hide Placed;
    hide Carries;
    hide NoText;
    hide Total;
    hide Table.MemSize;
    var emittedEnd, reserve := 0, Reserve(tab, tId, length);
    var elem := Nothing;
    var valuePos: nat, stringPos: nat, stringOwner := 0, 0, NONE;
    ghost var slots := Slots(tab, rank, tId, 0);
    out := [];
    var slot: nat := 0;
    while true
      invariant slot <= |slots| && valuePos <= |values|
      invariant Progress(elem, valuePos, stringPos, stringOwner, emittedEnd) == Run(tab, strings, values, slots, slot)
      invariant out == Written(tab, strings, values, slots, slot)
      decreases |slots| - slot
    {
      var info := new SlotInfo();
      var found := FindTypeInitSlot(tab, tId, slot, 0, info, rank);
      if !found {
        break;
      }
      out := out + Padding(info.slot.off - emittedEnd);
      var directive;
      elem, valuePos, stringPos, stringOwner, directive := EmitSlot(tab, info.slot, values, strings, elem, valuePos,
                                                                    stringPos, stringOwner, emittedEnd);
      out := out + [directive];
      emittedEnd := info.slot.off + info.slot.size;
      slot := slot + 1;
    }
    out := out + Padding(reserve - emittedEnd);
    if tId !in tab.types {
      UnknownIsReserved(tab, rank, strings, values, tId, length);
    }
    if Placed(tab, strings, values, slots, tab.MemSize(tId)) && tab.MemSize(tId) >= 0 {
      assert reserve == tab.MemSize(tId) by { ReservesSize(tab, tId, length); }
      OutputHolds(tab, strings, values, slots, reserve, out);
    }
  }
}
