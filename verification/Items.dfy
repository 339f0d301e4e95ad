/**
 The cJSON node of include/cJSON.h, the ghost picture of a tree of nodes, and cJSON_Delete.
 The picture is a value: only the predicates that compare it with the nodes read the heap.
 */
module Items {
  import opened Bytes
  import opened Json
  import opened Allocation
  import opened TextBlocks

  /** The low eight bits of `type`; a new node has none of them set. */
  datatype Kind = NoKind | FalseKind | TrueKind | NullKind | NumberKind | StringKind | ArrayKind | ObjectKind

  /** The fields `valuedouble` and `valueint`. */
  datatype Numeric = Numeric(valuedouble: real, valueint: int)

  /** The int is the double as C converts it, where that is defined. */
  predicate Converted(n: Numeric) {
    INT_MIN as real - 1.0 < n.valuedouble < INT_MAX as real + 1.0 ==> n.valueint == Truncate(n.valuedouble)
  }

  class Item {
    var next: Item?
    var prev: Item?
    var child: Item?
    var kind: Kind
    /** The flag cJSON_IsReference: child and valuestring belong to another item. */
    var isReference: bool
    var valuestring: array?<byte>
    var number: Numeric
    /** The field `string`. */
    var name: array?<byte>

    constructor ()
      ensures IsRoot(this) && HoldsNothing(this) && name == null
    {
      next, prev, child := null, null, null;
      kind, isReference, valuestring, number, name := NoKind, false, null, Numeric(0.0, 0), null;
    }
  }

  ghost predicate IsRoot(item: Item)
    reads item`next, item`prev
  {
    item.next == null && item.prev == null
  }

  ghost predicate HoldsNothing(item: Item)
    reads item`child, item`valuestring, item`isReference
  {
    item.child == null && item.valuestring == null && !item.isReference
  }

  /** cJSON_New_Item. */
  method NewItem(heap: Allocator) returns (item: Item?)
    modifies heap
    ensures item == null ==> heap.live == old(heap.live) && heap.denied > old(heap.denied)
    ensures item != null ==>
              && fresh(item) && heap.live == old(heap.live) + {item} && heap.denied == old(heap.denied)
              && IsRoot(item) && HoldsNothing(item) && item.name == null
  {
    if * {
      item := null;
      heap.denied := heap.denied + 1;
    } else {
      item := new Item();
      heap.live := heap.live + {item};
    }
  }

  // ----- Pictures ---------------------------------------------------------------

  /** A string's block, and its text once it is complete. */
  datatype Block = Block(at: array<byte>, text: Option<Text>)

  /** A node, the strings it points to, and its children. */
  datatype Shape = Shape(item: Item, kind: Kind, num: Numeric, str: Option<Block>, name: Option<Block>, kids: seq<Shape>)

  /** At a reference: what it owns, or what it shares; or there is no reference. */
  datatype View = Own | Follow | Plain

  /** The nodes of a sibling list. */
  ghost function Roots(ks: seq<Shape>): (r: seq<Item>)
    ensures |r| == |ks|
  {
    if ks == [] then [] else [ks[0].item] + Roots(ks[1..])
  }

  ghost function Tops(ks: seq<Shape>): (r: set<Item>)
    ensures forall x | x in Roots(ks) :: x in r
  {
    if ks == [] then {} else {ks[0].item} + Tops(ks[1..])
  }

  /** The nodes below a sibling list. */
  ghost function Inner(ks: seq<Shape>): set<Item> {
    if ks == [] then {} else Tops(ks[0].kids) + Inner(ks[0].kids) + Inner(ks[1..])
  }

  ghost function Arrays(b: Option<Block>): set<array<byte>> {
    if b.None? then {} else {b.value.at}
  }

  /** The string blocks in and below a sibling list. */
  ghost function Blocks(ks: seq<Shape>): set<array<byte>> {
    if ks == [] then {} else Arrays(ks[0].str) + Arrays(ks[0].name) + Blocks(ks[0].kids) + Blocks(ks[1..])
  }

  ghost function Cells(b: Option<Block>): set<object> {
    if b.None? then {} else {b.value.at}
  }

  /** What the list owns: every node and string in and below it. */
  ghost function FootAll(ks: seq<Shape>): set<object>
    decreases ks, 2
  {
    if ks == [] then {} else Foot(ks[0]) + FootAll(ks[1..])
  }

  ghost function Foot(t: Shape): set<object>
    decreases t, 1
  {
    {t.item} + Cells(t.name) + Under(t)
  }

  /** What a node owns besides itself and its name. */
  ghost function Under(t: Shape): set<object>
    decreases t, 0
  {
    Cells(t.str) + FootAll(t.kids)
  }

  /** No node or string occurs twice. */
  ghost predicate Sep(t: Shape)
    decreases t, 1
  {
    Cells(t.name) !! Under(t) && t.item !in Under(t) && SepUnder(t)
  }

  ghost predicate SepUnder(t: Shape)
    decreases t, 0
  {
    Cells(t.str) !! FootAll(t.kids) && SepAll(t.kids)
  }

  ghost predicate SepAll(ks: seq<Shape>)
    decreases ks, 2
  {
    ks == [] || (Sep(ks[0]) && SepAll(ks[1..]) && Foot(ks[0]) !! FootAll(ks[1..]))
  }

  // ----- Pictures and nodes -------------------------------------------------------

  ghost function Nth(s: seq<Item>, i: int): Item? {
    if 0 <= i < |s| then s[i] else null
  }

  ghost predicate Chain(head: Item?, s: seq<Item>)
    reads (set x | x in s)`next
  {
    head == Nth(s, 0) && forall i | 0 <= i < |s| :: s[i].next == Nth(s, i + 1)
  }

  /** `next` and `prev` are mutually inverse along the list and null at its ends. */
  ghost predicate Linked(head: Item?, s: seq<Item>)
    reads (set x | x in s)`next, (set x | x in s)`prev
  {
    Chain(head, s) && forall i | 0 <= i < |s| :: s[i].prev == Nth(s, i - 1)
  }

  ghost predicate Stored(p: array?<byte>, b: Option<Block>)
    reads Arrays(b)
  {
    match b
    case None => p == null
    case Some(x) => p == x.at && (x.text.Some? ==> Holds(x.at, x.text.value))
  }

  /**
   The node is as pictured, apart from its name and its place in a list. As the view is,
   a reference shows the children and the string it shares, or what it owns: none.
   */
  ghost predicate Body(t: Shape, view: View)
    reads t.item`kind, t.item`number, t.item`isReference, t.item`valuestring, t.item`child
    reads Arrays(t.str), Tops(t.kids), Inner(t.kids), Blocks(t.kids)
    decreases t, 0
  {
    && t.item.kind == t.kind && t.item.number == t.num
    && (view == Plain ==> !t.item.isReference)
    && if t.item.isReference && view == Own then t.str == None && t.kids == []
       else Stored(t.item.valuestring, t.str) && Linked(t.item.child, Roots(t.kids)) && TreeAll(t.kids, view)
  }

  ghost predicate Tree(t: Shape, view: View)
    reads t.item`kind, t.item`number, t.item`isReference, t.item`valuestring, t.item`child, t.item`name
    reads Arrays(t.str), Arrays(t.name), Tops(t.kids), Inner(t.kids), Blocks(t.kids)
    decreases t, 1
  {
    Stored(t.item.name, t.name) && Body(t, view)
  }

  ghost predicate TreeAll(ks: seq<Shape>, view: View)
    reads Tops(ks)`kind, Tops(ks)`number, Tops(ks)`isReference, Tops(ks)`valuestring, Tops(ks)`child, Tops(ks)`name
    reads Inner(ks), Blocks(ks)
    decreases ks, 2
  {
    ks == [] || (Tree(ks[0], view) && TreeAll(ks[1..], view))
  }

  /** The JSON value a picture shows. */
  ghost predicate Means(t: Shape, v: Value)
    decreases v, 0
  {
    match v
    case Null => t.kind == NullKind
    case False => t.kind == FalseKind
    case True => t.kind == TrueKind
    case Number(d) => t.kind == NumberKind && t.num.valuedouble == d && Converted(t.num)
    case String(s) => t.kind == StringKind && t.str.Some? && t.str.value.text == Some(s)
    case Array(items) => t.kind == ArrayKind && MeansItems(t.kids, items)
    case Object(ms) => t.kind == ObjectKind && MeansMembers(t.kids, ms)
  }

  ghost predicate MeansItems(ks: seq<Shape>, items: seq<Value>)
    decreases items, 0
  {
    |ks| == |items| && forall i | 0 <= i < |ks| :: Means(ks[i], items[i])
  }

  ghost predicate MeansMembers(ks: seq<Shape>, ms: seq<Member>)
    decreases ms, 0
  {
    |ks| == |ms| && forall i | 0 <= i < |ks| :: Called(ks[i], ms[i].name) && Means(ks[i], ms[i].value)
  }

  ghost predicate Called(t: Shape, name: Text) {
    t.name.Some? && t.name.value.text == Some(name)
  }

  // ----- Lists ----------------------------------------------------------------------

  lemma {:induction false} ListAppend(a: seq<Shape>, b: seq<Shape>)
    ensures Roots(a + b) == Roots(a) + Roots(b)
    ensures Tops(a + b) == Tops(a) + Tops(b) && Inner(a + b) == Inner(a) + Inner(b)
    ensures Blocks(a + b) == Blocks(a) + Blocks(b)
    ensures FootAll(a + b) == FootAll(a) + FootAll(b)
    ensures SepAll(a + b) == (SepAll(a) && SepAll(b) && FootAll(a) !! FootAll(b))
  {
    if a == [] {
      assert a + b == b;
    } else {
      assert (a + b)[1..] == a[1..] + b;
      ListAppend(a[1..], b);
    }
  }

  lemma {:induction false} TreeAppend(a: seq<Shape>, b: seq<Shape>, view: View)
    ensures TreeAll(a + b, view) == (TreeAll(a, view) && TreeAll(b, view))
  {
    if a == [] {
      assert a + b == b;
    } else {
      assert (a + b)[1..] == a[1..] + b;
      TreeAppend(a[1..], b, view);
    }
  }

  /** Without references the views agree. */
  lemma {:induction false} PlainAll(ks: seq<Shape>)
    requires TreeAll(ks, Plain)
    ensures TreeAll(ks, Own) && TreeAll(ks, Follow)
    decreases ks
  {
    if ks != [] {
      PlainTree(ks[0]);
      PlainAll(ks[1..]);
    }
  }

  lemma PlainTree(t: Shape)
    requires Tree(t, Plain)
    ensures Tree(t, Own) && Tree(t, Follow)
    decreases t
  {
    assert Body(t, Plain);
    PlainAll(t.kids);
    assert Body(t, Own) && Body(t, Follow);
  }

  lemma LeafTree(t: Shape)
    requires t.item.kind == t.kind && t.item.number == t.num && t.kids == [] && t.item.child == null && !t.item.isReference
    requires Stored(t.item.valuestring, t.str) && Stored(t.item.name, t.name)
    ensures Tree(t, Plain) && (t.str == None || t.name == None ==> Sep(t))
  {}

  lemma FootParts(n: Shape)
    ensures Foot(n) == {n.item} + Cells(n.name) + Under(n)
    ensures n.item !in Cells(n.name)
    ensures Sep(n) ==> Cells(n.name) !! Under(n)
  {}

  lemma One(t: Shape)
    ensures Roots([t]) == [t.item] && Tops([t]) == {t.item} && Inner([t]) == Tops(t.kids) + Inner(t.kids)
    ensures Blocks([t]) == Arrays(t.str) + Arrays(t.name) + Blocks(t.kids)
    ensures FootAll([t]) == Foot(t) && SepAll([t]) == Sep(t)
  {
    assert [t][1..] == [];
  }

  lemma {:induction false} NodesInFoot(ks: seq<Shape>)
    ensures forall x | x in Tops(ks) :: x in FootAll(ks)
    ensures forall x | x in Inner(ks) :: x in FootAll(ks)
    ensures forall x | x in Blocks(ks) :: x in FootAll(ks)
  {
    if ks != [] {
      NodesInFoot(ks[0].kids);
      NodesInFoot(ks[1..]);
      assert FootAll(ks) == Foot(ks[0]) + FootAll(ks[1..]) && Under(ks[0]) == Cells(ks[0].str) + FootAll(ks[0].kids);
    }
  }

  lemma {:induction false} TopsNotInner(ks: seq<Shape>)
    requires SepAll(ks)
    ensures Tops(ks) !! Inner(ks)
  {
    if ks != [] {
      TopsNotInner(ks[1..]);
      NodesInFoot(ks[0].kids);
      NodesInFoot(ks[1..]);
      assert forall x | x in Foot(ks[0]) :: x !in FootAll(ks[1..]);
      assert Under(ks[0]) == Cells(ks[0].str) + FootAll(ks[0].kids);
    }
  }

  /** What a picture shows exists; the verifier needs to be told to carry `TreeAll` over a call. */
  lemma Here(ks: seq<Shape>)
    ensures allocated(Roots(ks)) && allocated(Tops(ks)) && allocated(Inner(ks)) && allocated(Blocks(ks))
    ensures forall b | b in Blocks(ks) :: !((b as object) is Item)
  {}

  lemma HereTree(t: Shape)
    ensures allocated(t.item) && allocated(Tops(t.kids)) && allocated(Inner(t.kids)) && allocated(Blocks(t.kids))
    ensures allocated(Arrays(t.str)) && allocated(Arrays(t.name))
    ensures forall b | b in Blocks(t.kids) + Arrays(t.str) + Arrays(t.name) :: !((b as object) is Item)
  {}

  /** Relinking a list's own nodes leaves their contents alone. */
  twostate lemma Kept(ks: seq<Shape>, new view: View)
    requires old(TreeAll(ks, view) && allocated(Tops(ks)) && allocated(Inner(ks)) && allocated(Blocks(ks)))
    requires unchanged(Tops(ks)`kind) && unchanged(Tops(ks)`number) && unchanged(Tops(ks)`isReference)
    requires unchanged(Tops(ks)`valuestring) && unchanged(Tops(ks)`child) && unchanged(Tops(ks)`name)
    requires unchanged(Inner(ks)) && unchanged(Blocks(ks))
    ensures TreeAll(ks, view)
  {}

  twostate lemma KeptName(p: array?<byte>, new b: Option<Block>)
    requires old(allocated(b) && Stored(p, b) && allocated(Arrays(b))) && unchanged(Arrays(b))
    ensures Stored(p, b)
  {}

  twostate lemma KeptBody(t: Shape, new view: View)
    requires old(Body(t, view) && allocated(t.item) && allocated(Tops(t.kids)) && allocated(Inner(t.kids)))
    requires old(allocated(Arrays(t.str)) && allocated(Blocks(t.kids)))
    requires unchanged(t.item) && unchanged(Tops(t.kids)) && unchanged(Inner(t.kids))
    requires unchanged(Arrays(t.str)) && unchanged(Blocks(t.kids))
    ensures Body(t, view)
  {}

  twostate lemma KeptTree(t: Shape, new view: View)
    requires old(Tree(t, view) && allocated(t.item) && allocated(Tops(t.kids)) && allocated(Inner(t.kids)))
    requires old(allocated(Arrays(t.str)) && allocated(Arrays(t.name)) && allocated(Blocks(t.kids)))
    requires unchanged(t.item) && unchanged(Tops(t.kids)) && unchanged(Inner(t.kids))
    requires unchanged(Arrays(t.str)) && unchanged(Arrays(t.name)) && unchanged(Blocks(t.kids))
    ensures Tree(t, view)
  {}

  lemma {:induction false} RootsAt(ks: seq<Shape>, i: nat)
    requires i < |ks|
    ensures Roots(ks)[i] == ks[i].item
  {
    if i > 0 { RootsAt(ks[1..], i - 1); }
  }

  // ----- Linking ----------------------------------------------------------------------

  lemma NthAppend(s: seq<Item>, x: Item)
    ensures forall i :: Nth(s + [x], i) == if i == |s| then x else Nth(s, i)
  {}

  /** `item` becomes the last child: suffix_object, or the child pointer of a childless parent. */
  method LinkLast(parent: Item, last: Item?, item: Item, ghost s: seq<Item>)
    requires Linked(parent.child, s) && last == Nth(s, |s| - 1) && item !in s && IsRoot(item)
    modifies parent`child, (if last == null then {} else {last})`next, item`prev
    ensures Linked(parent.child, s + [item])
  {
    NthAppend(s, item);
    if last == null {
      parent.child := item;
    } else {
      last.next := item;
      item.prev := last;
    }
  }

  // ----- cJSON_Delete -----------------------------------------------------------------

  lemma {:induction false} ChainTail(c: Item, ks: seq<Shape>)
    requires Chain(c, Roots(ks))
    ensures ks != [] && c == ks[0].item && Chain(c.next, Roots(ks[1..]))
  {
    var s, rest := Roots(ks), Roots(ks[1..]);
    assert s == [ks[0].item] + rest;
    assert forall i | 0 <= i < |rest| :: rest[i] == s[i + 1];
  }

  lemma Without(rest: set<object>, a: set<object>, b: set<object>)
    requires rest !! a + b && a !! b
    ensures rest + (a + b) - a == rest + b && rest !! b
  {}

  /**
   Frees everything the list owns, each block once, and nothing else; what a reference
   shares is neither freed nor looked at. Only live nodes are dereferenced.
   */
  method Delete(heap: Allocator, first: Item?, ghost ks: seq<Shape>)
    requires Chain(first, Roots(ks)) && TreeAll(ks, Own) && SepAll(ks) && FootAll(ks) <= heap.live
    modifies heap
    ensures heap.live == old(heap.live) - FootAll(ks) && heap.denied == old(heap.denied)
    decreases ks
  {
    ghost var rest := heap.live - FootAll(ks);
    ghost var left, n := ks, 0;
    var c := first;
    while c != null
      invariant n <= |ks| && left == ks[n..]
      invariant Chain(c, Roots(left)) && TreeAll(left, Own) && SepAll(left)
      invariant heap.live == rest + FootAll(left) && rest !! FootAll(left) && heap.denied == old(heap.denied)
      decreases |ks| - n
    {
      ghost var t := left[0];
      ChainTail(c, left);
      Without(rest, Foot(t), FootAll(left[1..]));
      assert c in heap.live && TreeAll(left[1..], Own);
      Here(left[1..]);
      var next := c.next;
      DeleteItem(heap, c, t);
      c := next;
      left, n := left[1..], n + 1;
    }
  }

  method DeleteItem(heap: Allocator, c: Item, ghost t: Shape)
    requires c == t.item && Tree(t, Own) && Sep(t) && Foot(t) <= heap.live
    modifies heap
    ensures heap.live == old(heap.live) - Foot(t) && heap.denied == old(heap.denied)
    decreases t
  {
    if !c.isReference && c.child != null { Delete(heap, c.child, t.kids); }
    if !c.isReference && c.valuestring != null { heap.Free(c.valuestring); }
    if c.name != null { heap.Free(c.name); }
    heap.Free(c);
  }

  method DeleteOne(heap: Allocator, c: Item, ghost t: Shape)
    requires t.item == c && IsRoot(c) && Tree(t, Own) && Sep(t) && Foot(t) <= heap.live
    modifies heap
    ensures heap.live == old(heap.live) - Foot(t) && heap.denied == old(heap.denied)
  {
    One(t);
    Delete(heap, c, [t]);
  }
}
