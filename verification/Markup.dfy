/** The modifier pass of src/prep/markup.c: it removes tokens from the list it is walking over. */
module Markup {
  import opened Common
  import opened LinkedList

  /** Token types as far as the pass tells them apart. */
  datatype Kind = Extern | Glob | Ptr | Ro | Ordinary

  /** basic_object_info_t */
  datatype Flags = Flags(ptr: nat, ro: bool, glob: bool, ext: bool, vla: bool)

  const EMPTY := Flags(0, false, false, false, false)

  class Token {
    const kind: Kind
    var flags: Flags

    constructor (kind: Kind, flags: Flags)
      ensures this.kind == kind && this.flags == flags
    {
      this.kind, this.flags := kind, flags;
    }
  }

  /** Tokens that are taken out of the list. */
  predicate Consumed(kind: Kind) {
    kind == Glob || kind == Ptr || kind == Ro
  }

  /** What the token in hand adds to the flags for the next one. */
  function Gather(kind: Kind, flags: Flags): Flags {
    match kind
    case Extern => flags.(ext := true)
    case Glob => flags.(glob := true)
    case Ptr => flags.(ptr := flags.ptr + 1)
    case Ro => flags.(ro := true)
    case Ordinary => EMPTY
  }

  /** What the loop has accumulated when it comes to token k. */
  function Gathered(tokens: seq<Token>, k: nat): Flags
    requires k <= |tokens|
  {
    if k == 0 then EMPTY else Gather(tokens[k - 1].kind, Gathered(tokens, k - 1))
  }

  /** The tokens left of the first k, when none of them is the last of the list. */
  function Remaining(tokens: seq<Token>, k: nat): seq<Token>
    requires k <= |tokens|
  {
    if k == 0 then []
    else if Consumed(tokens[k - 1].kind) then Remaining(tokens, k - 1)
    else Remaining(tokens, k - 1) + [tokens[k - 1]]
  }

  /** The list the pass leaves behind: the last token stays, whatever it is. */
  function Result(tokens: seq<Token>): seq<Token> {
    if tokens == [] then [] else Remaining(tokens, |tokens| - 1) + [tokens[|tokens| - 1]]
  }

  ghost predicate Distinct(tokens: seq<Token>) {
    forall i, j :: 0 <= i < j < |tokens| ==> tokens[i] != tokens[j]
  }

  /** A token the pass gives flags to: an ordinary one that is not the last. */
  predicate Marked(tokens: seq<Token>, k: nat)
    requires k < |tokens|
  {
    tokens[k].kind == Ordinary && k < |tokens| - 1
  }

  /** The list when the loop comes to token k; the last token is never looked at. */
  function Midway(tokens: seq<Token>, k: nat): seq<Token>
    requires k <= |tokens|
  {
    if tokens == [] then [] else
    var j := if k < |tokens| then k else k - 1;
    Remaining(tokens, j) + tokens[j..]
  }

  /** Where token k stands in that list. */
  function Place(tokens: seq<Token>, k: nat): nat
    requires k <= |tokens|
  {
    if k < |tokens| then |Remaining(tokens, k)| else |Midway(tokens, k)|
  }

  lemma TokenAtPlace(tokens: seq<Token>, k: nat)
    requires k < |tokens|
    ensures Place(tokens, k) < |Midway(tokens, k)| && Midway(tokens, k)[Place(tokens, k)] == tokens[k]
  {
  }

  /** A token that stays is passed by. */
  lemma KeepCurrent(tokens: seq<Token>, k: nat)
    requires k < |tokens| && (k + 1 == |tokens| || !Consumed(tokens[k].kind))
    ensures Midway(tokens, k + 1) == Midway(tokens, k) && Place(tokens, k + 1) == Place(tokens, k) + 1
  {
    if k + 1 < |tokens| {
      assert tokens[k..] == [tokens[k]] + tokens[k + 1..];
    }
  }

  lemma {:induction false} NotBefore(tokens: seq<Token>, k: nat, j: nat, i: nat)
    requires Distinct(tokens) && j <= k < |tokens| && i < |Remaining(tokens, j)|
    ensures Remaining(tokens, j)[i] != tokens[k]
    decreases j
  {
    if i < |Remaining(tokens, j - 1)| {
      NotBefore(tokens, k, j - 1, i);
    }
  }

  lemma FindAt(s: seq<Token>, x: Token, n: nat)
    requires n < |s| && s[n] == x && forall i :: 0 <= i < n ==> s[i] != x
    ensures IndexOf(s, x, 0) == n
  {
  }

  /** A token that is consumed stands at its place for the first time, and the list closes over it. */
  lemma RemoveCurrent(tokens: seq<Token>, k: nat)
    requires Distinct(tokens) && k + 1 < |tokens| && Consumed(tokens[k].kind)
    ensures IndexOf(Midway(tokens, k), tokens[k], 0) == Place(tokens, k) < |Midway(tokens, k)|
    ensures Midway(tokens, k + 1) == Without(Midway(tokens, k), Place(tokens, k))
    ensures Place(tokens, k + 1) == Place(tokens, k)
  {
    var rest := Remaining(tokens, k);
    assert tokens[k..] == [tokens[k]] + tokens[k + 1..];
    assert Without(rest + ([tokens[k]] + tokens[k + 1..]), |rest|) == rest + tokens[k + 1..];
    forall i | 0 <= i < |rest| ensures Midway(tokens, k)[i] != tokens[k] {
      NotBefore(tokens, k, k, i);
    }
    FindAt(Midway(tokens, k), tokens[k], |rest|);
  }

  /** The list and its cursor when the loop comes to token k. */
  ghost predicate Walking(list: List<Token>, tokens: seq<Token>, k: nat, cursor: Node?<Token>)
    requires k <= |tokens|
    reads list, list.nodes
  {
    && list.Valid()
    && list.Contents() == Midway(tokens, k)
    && cursor == if Place(tokens, k) < |list.nodes| then list.nodes[Place(tokens, k)] else null
  }

  lemma WalkOn(list: List<Token>, tokens: seq<Token>, k: nat, cursor: Node<Token>)
    requires k < |tokens| && Walking(list, tokens, k, cursor)
    ensures cursor in list.nodes && cursor.data == tokens[k]
    ensures cursor.n == null <==> k + 1 == |tokens|
    ensures k + 1 == |tokens| || !Consumed(tokens[k].kind) ==> Walking(list, tokens, k + 1, cursor.n)
  {
    TokenAtPlace(tokens, k);
    assert Linked(list.nodes, Place(tokens, k));
    if k + 1 == |tokens| || !Consumed(tokens[k].kind) {
      KeepCurrent(tokens, k);
    }
  }

  /** _remove_token: the node in hand goes, the cursor has already left it. */
  method RemoveToken(list: List<Token>, curr: Token, ghost tokens: seq<Token>, ghost k: nat, ghost cursor: Node<Token>)
    requires k + 1 < |tokens| && Distinct(tokens) && Consumed(tokens[k].kind)
    requires Walking(list, tokens, k, cursor) && curr == tokens[k]
    modifies list, list.Repr()
    ensures Walking(list, tokens, k + 1, old(cursor.n))
    ensures list.Repr() <= old(list.Repr())
  {
    hide Midway;
    hide Place;
    hide Remaining;
    hide IndexOf;
    RemoveCurrent(tokens, k);
    assert Linked(list.nodes, Place(tokens, k));
    var _ := list.Remove(curr);
  }

  lemma WalkStarts(list: List<Token>, tokens: seq<Token>)
    requires list.Valid() && tokens == list.Contents()
    ensures Walking(list, tokens, 0, list.h) && (list.h == null <==> tokens == [])
  {
    assert tokens[0..] == tokens;
  }

  lemma WalkEnds(list: List<Token>, tokens: seq<Token>, cursor: Node?<Token>)
    requires Walking(list, tokens, |tokens|, cursor)
    ensures list.Valid() && list.Contents() == Result(tokens)
  {
  }

  /** The switch of the loop, for a token that is not the last. */
  method ApplyOne(list: List<Token>, curr: Token, cflags: Flags, ghost tokens: seq<Token>, ghost k: nat,
                  ghost cursor: Node<Token>)
    returns (flags: Flags)
    requires k + 1 < |tokens| && Distinct(tokens) && Walking(list, tokens, k, cursor) && curr == tokens[k]
    modifies list, list.Repr(), curr
    ensures Walking(list, tokens, k + 1, old(cursor.n))
    ensures list.Repr() <= old(list.Repr())
    ensures flags == Gather(curr.kind, cflags)
    ensures forall i :: 0 <= i < |tokens| ==>
              tokens[i].flags == if i == k && curr.kind == Ordinary then cflags else old(tokens[i].flags)
  {
    hide Walking;
    WalkOn(list, tokens, k, cursor);
    match curr.kind {
      case Extern =>
        flags := cflags.(ext := true);
      case Glob =>
        flags := cflags.(glob := true);
        RemoveToken(list, curr, tokens, k, cursor);
      case Ptr =>
        flags := cflags.(ptr := cflags.ptr + 1);
        RemoveToken(list, curr, tokens, k, cursor);
      case Ro =>
        flags := cflags.(ro := true);
        RemoveToken(list, curr, tokens, k, cursor);
      case Ordinary =>
        curr.flags := cflags;
        flags := EMPTY;
    }
  }

  /** _apply_modifiers */
  method ApplyModifiers(list: List<Token>)
    requires list.Valid() && Distinct(list.Contents())
    modifies list, list.Repr(), list.Contents()
    ensures list.Valid() && list.Contents() == Result(old(list.Contents()))
    ensures var tokens := old(list.Contents());
      forall k :: 0 <= k < |tokens| ==>
        tokens[k].flags == if Marked(tokens, k) then Gathered(tokens, k) else old(tokens[k].flags)
  {
    hide List.Repr;
    hide List.Valid;
    hide Distinct;
    hide Walking;
    hide Gather;
    hide Midway;
    hide Place;
    hide Remaining;
    hide Result;
    ghost var tokens := list.Contents();
    WalkStarts(list, tokens);
    var cflags := EMPTY;
    var cursor := list.h;
    ghost var k: nat := 0;
    while cursor != null
      invariant k <= |tokens| && (cursor == null <==> k == |tokens|)
      invariant Walking(list, tokens, k, cursor)
      invariant k < |tokens| ==> cflags == Gathered(tokens, k)
      invariant list.Repr() <= old(list.Repr())
      invariant forall i :: 0 <= i < |tokens| ==>
                  tokens[i].flags == if i < k && Marked(tokens, i) then Gathered(tokens, i) else old(tokens[i].flags)
      decreases |tokens| - k
    {
      WalkOn(list, tokens, k, cursor);
      ghost var here := cursor;
      var curr := cursor.data;
      cursor := cursor.n;
      if cursor != null {
        cflags := ApplyOne(list, curr, cflags, tokens, k, here);
      }
      k := k + 1;
    }
    WalkEnds(list, tokens, cursor);
  }

  // ---- what the pass means ----

  predicate Occurs(tokens: seq<Token>, kind: Kind, j: nat, k: nat)
    requires j <= k <= |tokens|
  {
    exists i :: j <= i < k && tokens[i].kind == kind
  }

  function PtrCount(tokens: seq<Token>, j: nat, k: nat): nat
    requires j <= k <= |tokens|
  {
    if j == k then 0 else PtrCount(tokens, j, k - 1) + (if tokens[k - 1].kind == Ptr then 1 else 0)
  }

  /** The position after the last ordinary token before k. */
  function Since(tokens: seq<Token>, k: nat): (j: nat)
    requires k <= |tokens|
    ensures j <= k && !Occurs(tokens, Ordinary, j, k)
    ensures j > 0 ==> tokens[j - 1].kind == Ordinary
  {
    if k == 0 then 0 else if tokens[k - 1].kind == Ordinary then k else Since(tokens, k - 1)
  }

  /** An ordinary token is given just the modifiers that stand between it and the ordinary token before it. */
  lemma {:induction false} GatheredSinceLast(tokens: seq<Token>, k: nat)
    requires k <= |tokens|
    ensures var f, j := Gathered(tokens, k), Since(tokens, k);
      && (f.ext <==> Occurs(tokens, Extern, j, k))
      && (f.glob <==> Occurs(tokens, Glob, j, k))
      && (f.ro <==> Occurs(tokens, Ro, j, k))
      && f.ptr == PtrCount(tokens, j, k)
      && !f.vla
  {
    if k > 0 {
      GatheredSinceLast(tokens, k - 1);
      var j := Since(tokens, k - 1);
      forall kind | kind != tokens[k - 1].kind ensures Occurs(tokens, kind, j, k - 1) == Occurs(tokens, kind, j, k) {
      }
    }
  }

  /** The modifier at i is among those given to token k. */
  predicate Reaches(tokens: seq<Token>, i: nat, k: nat)
    requires k < |tokens|
  {
    Marked(tokens, k) && Since(tokens, k) <= i < k
  }

  /** The first ordinary token from k on, or the length. */
  function NextOrdinary(tokens: seq<Token>, k: nat): (r: nat)
    requires k <= |tokens|
    ensures k <= r <= |tokens| && !Occurs(tokens, Ordinary, k, r) && (r < |tokens| ==> tokens[r].kind == Ordinary)
    decreases |tokens| - k
  {
    if k == |tokens| || tokens[k].kind == Ordinary then k else NextOrdinary(tokens, k + 1)
  }

  lemma {:induction false} SinceBefore(tokens: seq<Token>, i: nat, k: nat)
    requires i <= k <= |tokens| && !Occurs(tokens, Ordinary, i, k)
    ensures Since(tokens, k) <= i
    decreases k
  {
    if i < k {
      assert tokens[k - 1].kind != Ordinary;
      forall j | i <= j < k - 1 ensures tokens[j].kind != Ordinary {}
      SinceBefore(tokens, i, k - 1);
    }
  }

  /** A modifier is given to nobody exactly when the next ordinary token, if there is one, is the last of the list. */
  lemma LostWhen(tokens: seq<Token>, i: nat)
    requires i < |tokens| && tokens[i].kind != Ordinary
    ensures (exists k: nat :: k < |tokens| && Reaches(tokens, i, k)) <==> NextOrdinary(tokens, i) < |tokens| - 1
  {
    var r := NextOrdinary(tokens, i);
    if r < |tokens| - 1 {
      SinceBefore(tokens, i, r);
      assert Reaches(tokens, i, r);
    }
    if k: nat :| k < |tokens| && Reaches(tokens, i, k) {
      assert k < r ==> Occurs(tokens, Ordinary, i, r);
    }
  }

  /** As in a list of ptr and a type: the type is left alone in it, and is no pointer. */
  lemma PtrBeforeLast(tokens: seq<Token>)
    requires |tokens| == 2 && tokens[0].kind == Ptr && tokens[1].kind == Ordinary
    ensures Result(tokens) == [tokens[1]] && !Marked(tokens, 1)
    ensures Gathered(tokens, 1).ptr == 1 && forall k: nat :: k < 2 ==> !Reaches(tokens, 0, k)
  {
    assert Remaining(tokens, 1) == Remaining(tokens, 0) == [];
    assert Gathered(tokens, 1) == Gather(Ptr, Gathered(tokens, 0));
  }

  lemma {:induction false} RemainingHolds(tokens: seq<Token>, k: nat, x: Token)
    requires k <= |tokens|
    ensures x in Remaining(tokens, k) <==> exists i :: 0 <= i < k && tokens[i] == x && !Consumed(x.kind)
  {
    if k > 0 {
      RemainingHolds(tokens, k - 1, x);
      assert tokens[k - 1] == x && !Consumed(x.kind) ==> x in Remaining(tokens, k);
    }
  }

  /** The list that is left holds exactly the last token and every token that is no glob, ptr or ro. */
  lemma ResultHolds(tokens: seq<Token>, x: Token)
    requires Distinct(tokens)
    ensures x in Result(tokens) <==> exists i ::
              0 <= i < |tokens| && tokens[i] == x && (i == |tokens| - 1 || x.kind == Extern || x.kind == Ordinary)
  {
    if tokens != [] {
      RemainingHolds(tokens, |tokens| - 1, x);
      assert tokens[|tokens| - 1] in Result(tokens);
    }
  }

  lemma {:induction false} Origin(tokens: seq<Token>, k: nat, a: nat) returns (i: nat)
    requires k <= |tokens| && a < |Remaining(tokens, k)|
    ensures i < k && tokens[i] == Remaining(tokens, k)[a]
  {
    if a < |Remaining(tokens, k - 1)| {
      i := Origin(tokens, k - 1, a);
    } else {
      i := k - 1;
    }
  }

  /** Two tokens that are left stand in the order they stood in. */
  lemma {:induction false} OrderIsKept(tokens: seq<Token>, k: nat, a: nat, b: nat) returns (i: nat, j: nat)
    requires k <= |tokens| && a < b < |Remaining(tokens, k)|
    ensures i < j < k && tokens[i] == Remaining(tokens, k)[a] && tokens[j] == Remaining(tokens, k)[b]
  {
    if b < |Remaining(tokens, k - 1)| {
      i, j := OrderIsKept(tokens, k - 1, a, b);
    } else {
      j := k - 1;
      i := Origin(tokens, k - 1, a);
    }
  }
}
