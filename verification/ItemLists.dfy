/** The list operations of src/cJSON.c: pointer surgery on the child chain, and references. */
module ItemLists {
  import opened Bytes
  import opened Json
  import opened Allocation
  import opened TextBlocks
  import opened Items

  // ----- Walking --------------------------------------------------------------------

  /** while (c && which>0) c=c->next,which--; */
  method Walk(first: Item?, which: int, ghost s: seq<Item>) returns (c: Item?)
    requires Chain(first, s)
    ensures c == Nth(s, if which < 0 then 0 else which)
  {
    c := first;
    var left := which;
    ghost var i := 0;
    while c != null && left > 0
      invariant i <= |s| && c == Nth(s, i) && if left > 0 then left + i == which else i == if which < 0 then 0 else which
      decreases |s| - i
    {
      c := c.next;
      left := left - 1;
      i := i + 1;
    }
  }

  /** while (c && c->next) c=c->next; */
  method Last(first: Item, ghost s: seq<Item>) returns (c: Item)
    requires Chain(first, s)
    ensures s != [] && c == s[|s| - 1]
  {
    c := first;
    ghost var i := 0;
    while c.next != null
      invariant i < |s| && c == s[i]
      decreases |s| - i
    {
      c := c.next;
      i := i + 1;
    }
  }

  lemma {:induction false} NoRepeats(first: Item?, s: seq<Item>, i: nat, j: nat)
    requires Chain(first, s) && i < j < |s|
    ensures s[i] != s[j]
    decreases |s| - j
  {
    if j + 1 < |s| { NoRepeats(first, s, i + 1, j + 1); }
  }

  // ----- Surgery ----------------------------------------------------------------------

  /** A stretch of a list between two neighbours. */
  ghost predicate Stretch(s: seq<Item>, before: Item?, after: Item?)
    reads (set x | x in s)`next, (set x | x in s)`prev
  {
    forall i | 0 <= i < |s| :: s[i].next == NthOr(s, i + 1, after) && s[i].prev == NthOr(s, i - 1, before)
  }

  ghost function NthOr(s: seq<Item>, i: int, other: Item?): Item? {
    if 0 <= i < |s| then s[i] else other
  }

  lemma NthJoin(a: seq<Item>, b: seq<Item>)
    ensures forall i: int | i < |a| :: Nth(a + b, i) == Nth(a, i)
    ensures forall i: int | i >= |a| :: Nth(a + b, i) == Nth(b, i - |a|)
  {}

  lemma Divide(head: Item?, a: seq<Item>, b: seq<Item>)
    requires Linked(head, a + b)
    ensures Stretch(a, null, Nth(b, 0)) && Stretch(b, Nth(a, |a| - 1), null)
    ensures head == if a == [] then Nth(b, 0) else a[0]
  {
    var s := a + b;
    assert forall i | 0 <= i < |a| :: a[i] == s[i];
    assert forall i | 0 <= i < |b| :: b[i] == s[|a| + i];
  }

  lemma Join(head: Item?, a: seq<Item>, b: seq<Item>)
    requires Stretch(a, null, Nth(b, 0)) && Stretch(b, Nth(a, |a| - 1), null)
    requires head == if a == [] then Nth(b, 0) else a[0]
    ensures Linked(head, a + b)
  {
    NthJoin(a, b);
    var s := a + b;
    forall i | 0 <= i < |s| ensures s[i].next == Nth(s, i + 1) && s[i].prev == Nth(s, i - 1) {
      if i < |a| { assert s[i] == a[i]; } else { assert s[i] == b[i - |a|]; }
    }
  }

  /** What `c` is linked to. */
  lemma Middle(head: Item?, a: seq<Item>, c: Item, b: seq<Item>)
    requires Linked(head, a + ([c] + b))
    ensures Stretch(a, null, c) && Stretch(b, c, null) && c.prev == Nth(a, |a| - 1) && c.next == Nth(b, 0)
    ensures head == if a == [] then c else a[0]
  {
    var r := [c] + b;
    Divide(head, a, r);
    assert r[0] == c && Nth(r, 1) == Nth(b, 0);
    assert forall i | 0 <= i < |b| :: b[i] == r[1 + i];
  }

  /** No node occurs twice. */
  lemma Different(head: Item?, a: seq<Item>, c: Item, b: seq<Item>)
    requires Linked(head, a + ([c] + b))
    ensures c !in a && c !in b && forall x | x in a :: x !in b
  {
    var s := a + ([c] + b);
    forall i, j | 0 <= i < j < |s| ensures s[i] != s[j] { NoRepeats(head, s, i, j); }
    assert s[|a|] == c;
    assert forall i | 0 <= i < |a| :: a[i] == s[i];
    assert forall i | 0 <= i < |b| :: b[i] == s[|a| + 1 + i];
  }

  lemma {:induction false} BackNoRepeats(s: seq<Item>, after: Item?, i: nat, j: nat)
    requires Stretch(s, null, after) && i < j < |s|
    ensures s[i] != s[j]
    decreases i
  {
    if i > 0 { BackNoRepeats(s, after, i - 1, j - 1); }
  }

  lemma {:induction false} OnNoRepeats(s: seq<Item>, before: Item?, i: nat, j: nat)
    requires Stretch(s, before, null) && i < j < |s|
    ensures s[i] != s[j]
    decreases |s| - j
  {
    if j + 1 < |s| { OnNoRepeats(s, before, i + 1, j + 1); }
  }

  /** `item` takes the place between `a` and `c`. */
  method LinkBefore(parent: Item, c: Item, item: Item, ghost a: seq<Item>, ghost b: seq<Item>)
    requires Linked(parent.child, a + ([c] + b)) && item !in a && item !in b && item != c
    modifies parent`child, (set x | x in a)`next, c`prev, item`next, item`prev
    ensures Linked(parent.child, a + ([item] + ([c] + b)))
  {
    Middle(parent.child, a, c, b);
    Different(parent.child, a, c, b);
    item.next := c;
    item.prev := c.prev;
    c.prev := item;
    RelinkBefore(parent, c, item, a);
    Opened(parent.child, a, item, c, b);
  }

  lemma Opened(head: Item?, a: seq<Item>, item: Item, c: Item, b: seq<Item>)
    requires Stretch(a, null, item) && Stretch(b, c, null) && item.prev == Nth(a, |a| - 1) && item.next == c
    requires c.prev == item && c.next == Nth(b, 0) && head == if a == [] then item else a[0]
    ensures Linked(head, a + ([item] + ([c] + b)))
  {
    var r := [c] + b;
    assert forall i | 0 < i < |r| :: r[i] == b[i - 1];
    JoinThree(head, a, item, r);
  }

  lemma JoinThree(head: Item?, a: seq<Item>, c: Item, b: seq<Item>)
    requires Stretch(a, null, c) && Stretch(b, c, null) && c.prev == Nth(a, |a| - 1) && c.next == Nth(b, 0)
    requires head == if a == [] then c else a[0]
    ensures Linked(head, a + ([c] + b))
  {
    var r := [c] + b;
    assert forall i | 0 < i < |r| :: r[i] == b[i - 1];
    Join(head, a, r);
  }

  /** `c` leaves the list. */
  method Unlink(parent: Item, c: Item, ghost a: seq<Item>, ghost b: seq<Item>)
    requires Linked(parent.child, a + ([c] + b))
    modifies parent`child, (set x | x in a)`next, (set x | x in b)`prev, c`next, c`prev
    ensures Linked(parent.child, a + b) && IsRoot(c)
  {
    Middle(parent.child, a, c, b);
    Different(parent.child, a, c, b);
    CloseBefore(c, a, b);
    CloseBehind(c, a, b);
    Release(parent, c, a, b);
  }

  /** if (c==array->child) array->child=c->next;c->prev=c->next=0; */
  method Release(parent: Item, c: Item, ghost a: seq<Item>, ghost b: seq<Item>)
    requires Stretch(a, null, Nth(b, 0)) && Stretch(b, Nth(a, |a| - 1), null) && c !in a && c !in b
    requires c.next == Nth(b, 0) && parent.child == if a == [] then c else a[0]
    modifies parent`child, c`next, c`prev
    ensures Linked(parent.child, a + b) && IsRoot(c)
  {
    assert a != [] ==> a[0] in a;
    if c == parent.child { parent.child := c.next; }
    c.prev, c.next := null, null;
    Join(parent.child, a, b);
  }

  /** if (c->prev) c->prev->next=c->next; */
  method CloseBefore(c: Item, ghost a: seq<Item>, ghost b: seq<Item>)
    requires Stretch(a, null, c) && c !in a && c.prev == Nth(a, |a| - 1) && c.next == Nth(b, 0)
    modifies (set x | x in a)`next
    ensures Stretch(a, null, Nth(b, 0))
  {
    forall i | 0 <= i < |a| - 1 ensures a[i] != a[|a| - 1] { BackNoRepeats(a, c, i, |a| - 1); }
    assert a != [] ==> a[|a| - 1] in a;
    if c.prev != null { c.prev.next := c.next; }
  }

  /** if (c->next) c->next->prev=c->prev; */
  method CloseBehind(c: Item, ghost a: seq<Item>, ghost b: seq<Item>)
    requires Stretch(b, c, null) && c !in b && c.prev == Nth(a, |a| - 1) && c.next == Nth(b, 0)
    modifies (set x | x in b)`prev
    ensures Stretch(b, Nth(a, |a| - 1), null)
  {
    forall i | 0 < i < |b| ensures b[0] != b[i] { OnNoRepeats(b, c, 0, i); }
    assert b != [] ==> b[0] in b;
    if c.next != null { c.next.prev := c.prev; }
  }

  /** `item` takes the place of `c`. */
  method Exchange(parent: Item, c: Item, item: Item, ghost a: seq<Item>, ghost b: seq<Item>)
    requires Linked(parent.child, a + ([c] + b)) && item !in a && item !in b && item != c
    modifies parent`child, (set x | x in a)`next, (set x | x in b)`prev, c`next, c`prev, item`next, item`prev
    ensures Linked(parent.child, a + ([item] + b)) && IsRoot(c)
  {
    Middle(parent.child, a, c, b);
    Different(parent.child, a, c, b);
    item.next := c.next;
    item.prev := c.prev;
    ghost var before, after := item.prev, item.next;
    RelinkNext(c, item, b);
    assert Stretch(a, null, c);
    RelinkBefore(parent, c, item, a);
    assert item.prev == before && item.next == after;
    Part(parent, c, item, a, b);
  }

  /** c->next=c->prev=0; */
  method Part(parent: Item, c: Item, item: Item, ghost a: seq<Item>, ghost b: seq<Item>)
    requires Stretch(a, null, item) && Stretch(b, item, null) && item.prev == Nth(a, |a| - 1) && item.next == Nth(b, 0)
    requires c !in a && c !in b && item != c && parent.child == if a == [] then item else a[0]
    modifies c`next, c`prev
    ensures Linked(parent.child, a + ([item] + b)) && IsRoot(c)
  {
    c.next, c.prev := null, null;
    JoinThree(parent.child, a, item, b);
  }

  /** if (newitem->next) newitem->next->prev=newitem; */
  method RelinkNext(c: Item, item: Item, ghost b: seq<Item>)
    requires Stretch(b, c, null) && item.next == Nth(b, 0) && item !in b
    modifies (set x | x in b)`prev
    ensures Stretch(b, item, null)
  {
    forall i | 0 < i < |b| ensures b[0] != b[i] { OnNoRepeats(b, c, 0, i); }
    assert b != [] ==> b[0] in b;
    if item.next != null { item.next.prev := item; }
  }

  /** The child pointer, or the `next` of the node before. */
  method RelinkBefore(parent: Item, c: Item, item: Item, ghost a: seq<Item>)
    requires Stretch(a, null, c) && item.prev == Nth(a, |a| - 1) && item !in a && c !in a
    requires parent.child == if a == [] then c else a[0]
    modifies parent`child, (set x | x in a)`next
    ensures Stretch(a, null, item) && parent.child == if a == [] then item else a[0]
  {
    forall i | 0 <= i < |a| - 1 ensures a[i] != a[|a| - 1] { BackNoRepeats(a, c, i, |a| - 1); }
    assert a != [] ==> a[0] in a && a[|a| - 1] in a;
    if c == parent.child {
      parent.child := item;
    } else {
      item.prev.next := item;
    }
  }

  // ----- Trees ------------------------------------------------------------------------

  /** An array or object that owns its children. */
  ghost predicate Owner(t: Shape)
    reads t.item`kind, t.item`number, t.item`isReference, t.item`valuestring, t.item`child, t.item`name
    reads Arrays(t.str), Arrays(t.name), Tops(t.kids), Inner(t.kids), Blocks(t.kids)
  {
    Tree(t, Own) && Sep(t) && !t.item.isReference
  }

  /** A tree that is not part of another. */
  ghost predicate Detached(n: Shape)
    reads n.item, Arrays(n.str), Arrays(n.name), Tops(n.kids), Inner(n.kids), Blocks(n.kids)
  {
    Tree(n, Own) && Sep(n) && IsRoot(n.item)
  }

  /** The children of `t` and `n`, which is about to become one. */
  lemma {:induction false} Beside(t: Shape, n: Shape, all: seq<Shape>)
    requires Sep(t) && Sep(n) && Foot(t) !! Foot(n) && all == t.kids + [n]
    ensures SepAll(all) && FootAll(all) == FootAll(t.kids) + Foot(n) && Clear(t, all)
    ensures Tops(all) == Tops(t.kids) + {n.item} && Roots(all) == Roots(t.kids) + [n.item] && n.item !in Roots(t.kids)
    ensures FootAll(all) !! Rim(t)
  {
    One(n);
    ListAppend(t.kids, [n]);
    assert t.item in Foot(t) && t.item !in Foot(n) && Rim(t) <= Foot(t) && FootAll(t.kids) <= Foot(t);
    NodesInFoot(t.kids);
    ClearOf(t, all);
  }

  /** What a parent owns apart from its children. */
  ghost function Rim(t: Shape): set<object> {
    {t.item} + Cells(t.name) + Cells(t.str)
  }

  /** Relinking the nodes of `all` under `t` changes no contents. */
  ghost predicate Clear(t: Shape, all: seq<Shape>) {
    Tops(all) !! Inner(all) && t.item !in Tops(all) && t.item !in Inner(all)
  }

  lemma ClearOf(t: Shape, all: seq<Shape>)
    requires SepAll(all) && t.item !in FootAll(all)
    ensures Clear(t, all)
  {
    TopsNotInner(all);
    NodesInFoot(all);
  }

  /** The footprint and separation of `t` with other children. */
  lemma Resized(t: Shape, ks: seq<Shape>)
    requires Sep(t) && SepAll(ks) && FootAll(ks) !! Rim(t)
    ensures Sep(t.(kids := ks)) && Foot(t.(kids := ks)) == Rim(t) + FootAll(ks) && Foot(t) == Rim(t) + FootAll(t.kids)
  {}

  lemma OwnerParts(t: Shape)
    requires Owner(t)
    ensures RimHolds(t) && Linked(t.item.child, Roots(t.kids)) && TreeAll(t.kids, Own)
  {
    assert Body(t, Own);
  }

  /** All that relinking the children of `t` and `n` needs. */
  lemma {:induction false} Ready(t: Shape, n: Shape, all: seq<Shape>, view: View)
    requires Tree(t, view) && Tree(n, view) && !t.item.isReference && Sep(t) && Sep(n) && Foot(t) !! Foot(n) && all == t.kids + [n]
    ensures RimHolds(t) && Linked(t.item.child, Roots(t.kids)) && n.item !in Roots(t.kids)
    ensures TreeAll(all, view) && Clear(t, all) && n.item in Tops(all) && forall x | x in Roots(t.kids) :: x in Tops(all)
  {
    assert Body(t, view);
    Beside(t, n, all);
    One(n);
    TreeAppend(t.kids, [n], view);
  }

  /** What the parent itself holds. */
  ghost predicate RimHolds(t: Shape)
    reads t.item`kind, t.item`number, t.item`isReference, t.item`valuestring, t.item`name, Arrays(t.str), Arrays(t.name)
  {
    && Stored(t.item.name, t.name) && Stored(t.item.valuestring, t.str)
    && t.item.kind == t.kind && t.item.number == t.num && !t.item.isReference
  }

  twostate lemma KeptRim(t: Shape)
    requires old(RimHolds(t) && allocated(t.item) && allocated(Arrays(t.str)) && allocated(Arrays(t.name)))
    requires t.item.kind == old(t.item.kind) && t.item.number == old(t.item.number)
    requires t.item.valuestring == old(t.item.valuestring) && t.item.name == old(t.item.name) && !t.item.isReference
    requires unchanged(Arrays(t.str)) && unchanged(Arrays(t.name))
    ensures RimHolds(t)
  {}

  /** What relinking leaves alone: contents, and all that is neither the parent nor relinked. */
  twostate lemma KeptLinks(t: Shape, new all: seq<Shape>, new view: View)
    requires old(RimHolds(t) && allocated(t.item) && allocated(Arrays(t.str)) && allocated(Arrays(t.name)))
    requires old(allocated(all) && TreeAll(all, view) && allocated(Tops(all)) && allocated(Inner(all)) && allocated(Blocks(all)))
    requires Clear(t, all)
    requires forall x: Item | old(allocated(x)) :: x.kind == old(x.kind)
    requires forall x: Item | old(allocated(x)) :: x.number == old(x.number)
    requires forall x: Item | old(allocated(x)) :: x.isReference == old(x.isReference)
    requires forall x: Item | old(allocated(x)) :: x.valuestring == old(x.valuestring)
    requires forall x: Item | old(allocated(x)) :: x.name == old(x.name)
    requires forall x: Item | old(allocated(x)) && x != t.item :: x.child == old(x.child)
    requires unchanged(Inner(all)) && unchanged(Blocks(all)) && unchanged(Arrays(t.str)) && unchanged(Arrays(t.name))
    ensures RimHolds(t) && TreeAll(all, view)
  {
    Kept(all, view);
    KeptRim(t);
  }

  /** The parent as it was, with other children. */
  lemma Rehomed(t: Shape, ks: seq<Shape>, view: View)
    requires RimHolds(t) && Linked(t.item.child, Roots(ks)) && TreeAll(ks, view)
    ensures Tree(t.(kids := ks), view)
  {}

  method AddItemToArray(parent: Item, item: Item?, ghost t: Shape, ghost n: Shape)
    requires t.item == parent && Owner(t)
    requires item != null ==> n.item == item && Detached(n) && Foot(t) !! Foot(n)
    modifies parent`child, Tops(t.kids)`next, (if item == null then {} else {item})`prev
    ensures item == null ==> Owner(t)
    ensures item != null ==> Owner(t.(kids := t.kids + [n])) && Foot(t.(kids := t.kids + [n])) == Foot(t) + Foot(n)
  {
    if item != null { Append(parent, item, t, n, t.kids + [n], Own); }
  }

  lemma {:induction false} AppendShape(t: Shape, n: Shape, all: seq<Shape>)
    requires Sep(t) && Sep(n) && Foot(t) !! Foot(n) && all == t.kids + [n]
    ensures Sep(t.(kids := all)) && Foot(t.(kids := all)) == Foot(t) + Foot(n) && Roots(all) == Roots(t.kids) + [n.item]
  {
    Beside(t, n, all);
    Resized(t, all);
  }

  method Append(parent: Item, item: Item, ghost t: Shape, ghost n: Shape, ghost all: seq<Shape>, ghost view: View)
    requires t.item == parent && Tree(t, view) && Sep(t) && !parent.isReference && all == t.kids + [n]
    requires n.item == item && Tree(n, view) && Sep(n) && IsRoot(item) && Foot(t) !! Foot(n)
    modifies parent`child, Tops(t.kids)`next, item`prev
    ensures Tree(t.(kids := all), view) && Sep(t.(kids := all)) && Foot(t.(kids := all)) == Foot(t) + Foot(n)
  {
    Ready(t, n, all, view);
    AppendShape(t, n, all);
    AppendLinks(parent, item, Roots(t.kids), all, view, t);
    Rehomed(t, all, view);
  }

  method AppendLinks(parent: Item, item: Item, ghost s: seq<Item>, ghost all: seq<Shape>, ghost view: View, ghost t: Shape)
    requires t.item == parent && RimHolds(t)
    requires Linked(parent.child, s) && IsRoot(item) && item !in s
    requires TreeAll(all, view) && Tops(all) !! Inner(all) && parent !in Tops(all) && parent !in Inner(all)
    requires item in Tops(all) && forall x | x in s :: x in Tops(all)
    modifies parent`child, (set x | x in s)`next, item`prev
    ensures RimHolds(t)
    ensures Linked(parent.child, s + [item]) && TreeAll(all, view)
  {
    Here(all);
    HereTree(t);
    var c := parent.child;
    if c != null { c := Last(c, s); }
    LinkLast(parent, c, item, s);
    KeptLinks(t, all, view);
  }

  /** `x` is no node of `t`. */
  ghost predicate Outside(x: Item?, t: Shape) {
    x != t.item && x !in Tops(t.kids) && x !in Inner(t.kids)
  }

  /** The same with the last child at hand, beside a tree `o` that is not touched. */
  method AppendAfter(parent: Item, last: Item?, item: Item, ghost t: Shape, ghost n: Shape, ghost all: seq<Shape>, ghost view: View, ghost o: Shape)
    requires t.item == parent && Tree(t, view) && Sep(t) && !parent.isReference && all == t.kids + [n]
    requires n.item == item && Tree(n, view) && Sep(n) && IsRoot(item) && Foot(t) !! Foot(n)
    requires last == Nth(Roots(t.kids), |t.kids| - 1)
    requires Tree(o, Follow) && Outside(parent, o) && Outside(last, o) && Outside(item, o)
    modifies parent`child, (if last == null then {} else {last})`next, item`prev
    ensures Tree(t.(kids := all), view) && Sep(t.(kids := all)) && Foot(t.(kids := all)) == Foot(t) + Foot(n)
    ensures Tree(o, Follow)
  {
    Ready(t, n, all, view);
    LinkLastKept(parent, last, item, Roots(t.kids), all, view, t, o);
    AppendShape(t, n, all);
    Rehomed(t, all, view);
  }

  method LinkLastKept(parent: Item, last: Item?, item: Item, ghost s: seq<Item>, ghost all: seq<Shape>, ghost view: View, ghost t: Shape, ghost o: Shape)
    requires t.item == parent && RimHolds(t)
    requires Linked(parent.child, s) && last == Nth(s, |s| - 1) && IsRoot(item) && item !in s
    requires TreeAll(all, view) && Tops(all) !! Inner(all) && parent !in Tops(all) && parent !in Inner(all)
    requires item in Tops(all) && forall x | x in s :: x in Tops(all)
    requires Tree(o, Follow) && Outside(parent, o) && Outside(last, o) && Outside(item, o)
    modifies parent`child, (if last == null then {} else {last})`next, item`prev
    ensures RimHolds(t)
    ensures Linked(parent.child, s + [item]) && TreeAll(all, view) && Tree(o, Follow)
  {
    Here(all);
    HereTree(t);
    assert last != null ==> last in s;
    assert parent !in Inner(all) && last !in Inner(all) && item !in Inner(all);
    LinkLastBeside(parent, last, item, s, o);
    KeptLinks(t, all, view);
  }

  method LinkLastBeside(parent: Item, last: Item?, item: Item, ghost s: seq<Item>, ghost o: Shape)
    requires Linked(parent.child, s) && last == Nth(s, |s| - 1) && item !in s && IsRoot(item)
    requires Tree(o, Follow) && Outside(parent, o) && Outside(last, o) && Outside(item, o)
    modifies parent`child, (if last == null then {} else {last})`next, item`prev
    ensures Linked(parent.child, s + [item]) && Tree(o, Follow)
  {
    HereTree(o);
    label before:
    LinkLast(parent, last, item, s);
    assert unchanged@before(o.item);
    assert unchanged@before(Tops(o.kids));
    assert unchanged@before(Inner(o.kids));
    KeptTree@before(o, Follow);
  }

  /** `n` among the children instead of behind them. */
  lemma Moved(a: seq<Shape>, b: seq<Shape>, n: Shape)
    ensures FootAll(a + [n] + b) == FootAll(a + b) + Foot(n)
    ensures SepAll(a + [n] + b) == (SepAll(a + b) && Sep(n) && FootAll(a + b) !! Foot(n))
  {
    One(n);
    var x := [n];
    ListAppend(a, x);
    var y := a + x;
    ListAppend(y, b);
    ListAppend(a, b);
    DisjointThree(FootAll(a), Foot(n), FootAll(b));
    Recombined(SepAll(a), Sep(n), SepAll(b), FootAll(a), Foot(n), FootAll(b), SepAll(y), SepAll(y + b), SepAll(a + b));
  }

  lemma MovedRoots(a: seq<Shape>, b: seq<Shape>, n: Shape)
    ensures Roots(a + [n] + b) == Roots(a) + ([n.item] + Roots(b))
  {
    ListAppend([n], b);
    ListAppend(a, [n] + b);
    assert a + [n] + b == a + ([n] + b);
    One(n);
  }

  lemma Recombined(p: bool, q: bool, r: bool, a: set<object>, n: set<object>, b: set<object>, pq: bool, pqr: bool, pr: bool)
    requires pq == (p && q && a !! n) && pqr == (pq && r && a + n !! b) && pr == (p && r && a !! b)
    ensures pqr == (pr && q && a + b !! n)
  {}

  lemma DisjointThree(a: set<object>, n: set<object>, b: set<object>)
    ensures (a !! n && a + n !! b) == (a !! b && a + b !! n)
    ensures a + n + b == a + b + n
  {}

  lemma MovedTree(a: seq<Shape>, b: seq<Shape>, n: Shape)
    ensures TreeAll(a + [n] + b, Own) == TreeAll(a + b + [n], Own)
  {
    TreeParts(a, n, b);
    TreeAppend(a + b, [n], Own);
  }

  /** The item stands at the index asked for, at the front for a negative one, at the end for one past it. */
  method InsertItemInArray(parent: Item, which: int, newitem: Item, ghost t: Shape, ghost n: Shape) returns (ghost ks: seq<Shape>)
    requires t.item == parent && Owner(t) && n.item == newitem && Detached(n) && Foot(t) !! Foot(n)
    modifies parent`child, Tops(t.kids)`next, Tops(t.kids)`prev, newitem`next, newitem`prev
    ensures var i := if which < 0 then 0 else if which < |t.kids| then which else |t.kids|; ks == t.kids[..i] + [n] + t.kids[i..]
    ensures Owner(t.(kids := ks)) && Foot(t.(kids := ks)) == Foot(t) + Foot(n)
  {
    OwnerParts(t);
    HereTree(t);
    HereTree(n);
    label before:
    var c := Walk(parent.child, which, Roots(t.kids));
    KeptTree@before(t, Own);
    KeptTree@before(n, Own);
    ghost var i := if which < 0 then 0 else if which < |t.kids| then which else |t.kids|;
    ghost var a, b := t.kids[..i], t.kids[i..];
    ks := a + [n] + b;
    assert a + b == t.kids;
    if c == null {
      assert b == [] && ks == t.kids + [n];
      Append(parent, newitem, t, n, ks, Own);
    } else {
      RootsAt(t.kids, i);
      assert c in Roots(t.kids) && b[0] == t.kids[i];
      Insert(parent, c, newitem, t, n, a, b, ks);
    }
  }

  lemma {:induction false} Placed(t: Shape, n: Shape, a: seq<Shape>, b: seq<Shape>)
    requires Sep(t) && Sep(n) && Foot(t) !! Foot(n) && t.kids == a + b
    ensures var t' := t.(kids := a + [n] + b); Sep(t') && Foot(t') == Foot(t) + Foot(n)
    ensures Roots(t.kids) == Roots(a) + Roots(b) && Roots(a + [n] + b) == Roots(a) + ([n.item] + Roots(b))
  {
    Moved(a, b, n);
    MovedRoots(a, b, n);
    ListAppend(a, b);
    Resized(t, t.kids);
    assert Rim(t) <= Foot(t) && FootAll(t.kids) <= Foot(t) && Rim(t) !! FootAll(t.kids);
    Resized(t, a + [n] + b);
  }

  method Insert(parent: Item, c: Item, item: Item, ghost t: Shape, ghost n: Shape, ghost a: seq<Shape>, ghost b: seq<Shape>, ghost ks: seq<Shape>)
    requires t.item == parent && Owner(t) && n.item == item && Detached(n) && Foot(t) !! Foot(n)
    requires t.kids == a + b && ks == a + [n] + b && b != [] && c == b[0].item
    modifies parent`child, Tops(t.kids)`next, c`prev, item`next, item`prev
    ensures Owner(t.(kids := ks)) && Foot(t.(kids := ks)) == Foot(t) + Foot(n)
  {
    ghost var all := a + b + [n];
    Ready(t, n, all, Own);
    Placed(t, n, a, b);
    InsertLinks(parent, c, item, Roots(a), Roots(b[1..]), all, t);
    MovedTree(a, b, n);
    Rehomed(t, ks, Own);
  }

  method InsertLinks(parent: Item, c: Item, item: Item, ghost a: seq<Item>, ghost b: seq<Item>, ghost all: seq<Shape>, ghost t: Shape)
    requires t.item == parent && RimHolds(t)
    requires Linked(parent.child, a + ([c] + b)) && item !in a && item !in b && item != c
    requires TreeAll(all, Own) && Tops(all) !! Inner(all) && parent !in Tops(all) && parent !in Inner(all)
    requires item in Tops(all) && c in Tops(all) && forall x | x in a :: x in Tops(all)
    modifies parent`child, (set x | x in a)`next, c`prev, item`next, item`prev
    ensures RimHolds(t)
    ensures Linked(parent.child, a + ([item] + ([c] + b))) && TreeAll(all, Own)
  {
    Here(all);
    HereTree(t);
    LinkBefore(parent, c, item, a, b);
    KeptLinks(t, all, Own);
  }

  lemma Cut(ks: seq<Shape>, i: nat)
    requires i < |ks|
    ensures ks == ks[..i] + [ks[i]] + ks[i + 1..]
  {}

  method DetachItemFromArray(parent: Item, which: int, ghost t: Shape) returns (c: Item?, ghost ks: seq<Shape>)
    requires t.item == parent && Owner(t)
    modifies parent`child, Tops(t.kids)`next, Tops(t.kids)`prev
    ensures which >= |t.kids| || t.kids == [] ==> c == null && ks == t.kids && Owner(t)
    ensures which < |t.kids| && t.kids != [] ==>
              var i := if which < 0 then 0 else which;
              && c == t.kids[i].item && Detached(t.kids[i])
              && ks == t.kids[..i] + t.kids[i + 1..] && Owner(t.(kids := ks))
              && Foot(t) == Foot(t.(kids := ks)) + Foot(t.kids[i]) && Foot(t.(kids := ks)) !! Foot(t.kids[i])
  {
    OwnerParts(t);
    HereTree(t);
    label before:
    c := Walk(parent.child, which, Roots(t.kids));
    KeptTree@before(t, Own);
    ks := t.kids;
    if c == null { return; }
    ghost var i := if which < 0 then 0 else which;
    RootsAt(t.kids, i);
    ghost var a, b := t.kids[..i], t.kids[i + 1..];
    Cut(t.kids, i);
    ks := a + b;
    Detach(parent, c, t, t.kids[i], a, b);
  }

  /** Taking `k` out of the children leaves two separate trees. */
  lemma {:induction false} Without(t: Shape, a: seq<Shape>, k: Shape, b: seq<Shape>)
    requires Sep(t) && t.kids == a + [k] + b
    ensures Sep(k) && Sep(t.(kids := a + b)) && Clear(t, t.kids)
    ensures Foot(t) == Foot(t.(kids := a + b)) + Foot(k) && Foot(t.(kids := a + b)) !! Foot(k)
  {
    assert Under(t) == Cells(t.str) + FootAll(t.kids);
    ClearOf(t, t.kids);
    Moved(a, b, k);
    Resized(t, a + b);
    Resized(t, t.kids);
  }

  lemma DetachReady(t: Shape, a: seq<Shape>, k: Shape, b: seq<Shape>)
    requires t.kids == a + [k] + b
    ensures Roots(t.kids) == Roots(a) + ([k.item] + Roots(b)) && Roots(a + b) == Roots(a) + Roots(b)
    ensures k.item in Tops(t.kids) && (forall x | x in Roots(a) :: x in Tops(t.kids)) && forall x | x in Roots(b) :: x in Tops(t.kids)
  {
    MovedRoots(a, b, k);
    ListAppend(a, b);
    assert forall x | x in Roots(a) + ([k.item] + Roots(b)) :: x in Tops(t.kids);
  }

  method Detach(parent: Item, c: Item, ghost t: Shape, ghost k: Shape, ghost a: seq<Shape>, ghost b: seq<Shape>)
    requires t.item == parent && Owner(t) && t.kids == a + [k] + b && k.item == c
    modifies parent`child, Tops(t.kids)`next, Tops(t.kids)`prev
    ensures Detached(k) && Owner(t.(kids := a + b))
    ensures Foot(t) == Foot(t.(kids := a + b)) + Foot(k) && Foot(t.(kids := a + b)) !! Foot(k)
  {
    OwnerParts(t);
    Without(t, a, k, b);
    DetachReady(t, a, k, b);
    DetachLinks(parent, c, Roots(a), Roots(b), t.kids, t);
    TreeParts(a, k, b);
    Rehomed(t, a + b, Own);
  }

  lemma TreeParts(a: seq<Shape>, k: Shape, b: seq<Shape>)
    ensures TreeAll(a + [k] + b, Own) == (TreeAll(a + b, Own) && Tree(k, Own))
  {
    TreeAppend(a, [k], Own);
    TreeAppend(a + [k], b, Own);
    TreeAppend(a, b, Own);
  }

  method DetachLinks(parent: Item, c: Item, ghost a: seq<Item>, ghost b: seq<Item>, ghost all: seq<Shape>, ghost t: Shape)
    requires t.item == parent && RimHolds(t)
    requires Linked(parent.child, a + ([c] + b))
    requires TreeAll(all, Own) && Tops(all) !! Inner(all) && parent !in Tops(all) && parent !in Inner(all)
    requires c in Tops(all) && (forall x | x in a :: x in Tops(all)) && forall x | x in b :: x in Tops(all)
    modifies parent`child, (set x | x in a)`next, (set x | x in b)`prev, c`next, c`prev
    ensures RimHolds(t)
    ensures Linked(parent.child, a + b) && IsRoot(c) && TreeAll(all, Own)
  {
    Here(all);
    HereTree(t);
    Unlink(parent, c, a, b);
    KeptLinks(t, all, Own);
  }

  /** The item is deleted; past the end nothing happens and the new item stays the caller's. */
  method ReplaceItemInArray(heap: Allocator, parent: Item, which: int, newitem: Item, ghost t: Shape, ghost n: Shape) returns (ghost ks: seq<Shape>)
    requires t.item == parent && Owner(t) && Foot(t) <= heap.live
    requires n.item == newitem && Detached(n) && Foot(t) !! Foot(n)
    modifies heap, parent`child, Tops(t.kids)`next, Tops(t.kids)`prev, newitem`next, newitem`prev
    ensures heap.denied == old(heap.denied)
    ensures which >= |t.kids| || t.kids == [] ==> ks == t.kids && Owner(t) && Detached(n) && heap.live == old(heap.live)
    ensures which < |t.kids| && t.kids != [] ==>
              var i := if which < 0 then 0 else which;
              && ks == t.kids[..i] + [n] + t.kids[i + 1..] && Owner(t.(kids := ks))
              && heap.live == old(heap.live) - Foot(t.kids[i])
              && Foot(t.(kids := ks)) + Foot(t.kids[i]) == Foot(t) + Foot(n) && Foot(t.(kids := ks)) !! Foot(t.kids[i])
  {
    OwnerParts(t);
    HereTree(t);
    HereTree(n);
    label before:
    var c := Walk(parent.child, which, Roots(t.kids));
    KeptTree@before(t, Own);
    KeptTree@before(n, Own);
    ks := t.kids;
    if c == null { return; }
    ghost var i := if which < 0 then 0 else which;
    RootsAt(t.kids, i);
    ghost var a, b, k := t.kids[..i], t.kids[i + 1..], t.kids[i];
    Cut(t.kids, i);
    ks := a + [n] + b;
    ReplaceAndDelete(heap, parent, c, newitem, t, n, a, k, b, t.(kids := ks));
  }

  method ReplaceAndDelete(heap: Allocator, parent: Item, c: Item, item: Item, ghost t: Shape, ghost n: Shape,
                          ghost a: seq<Shape>, ghost k: Shape, ghost b: seq<Shape>, ghost t': Shape)
    requires t.item == parent && Owner(t) && n.item == item && Detached(n) && Foot(t) !! Foot(n) && Foot(t) <= heap.live
    requires t.kids == a + [k] + b && k.item == c && t' == t.(kids := a + [n] + b)
    modifies heap, parent`child, Tops(t.kids)`next, Tops(t.kids)`prev, item`next, item`prev
    ensures Owner(t') && heap.live == old(heap.live) - Foot(k) && heap.denied == old(heap.denied)
    ensures Foot(t') + Foot(k) == Foot(t) + Foot(n) && Foot(t') !! Foot(k)
  {
    Swapped(t, n, a, k, b);
    Replace(parent, c, item, t, n, a, k, b, t'.kids);
    HereTree(t');
    label exchanged:
    DeleteOne(heap, c, k);
    KeptTree@exchanged(t', Own);
  }

  lemma {:induction false} Swapped(t: Shape, n: Shape, a: seq<Shape>, k: Shape, b: seq<Shape>)
    requires Sep(t) && Sep(n) && Foot(t) !! Foot(n) && t.kids == a + [k] + b
    ensures var t' := t.(kids := a + [n] + b);
            Sep(t') && Sep(k) && Foot(t') + Foot(k) == Foot(t) + Foot(n) && Foot(t') !! Foot(k) && Foot(k) <= Foot(t)
  {
    Without(t, a, k, b);
    Placed(t.(kids := a + b), n, a, b);
  }

  method Replace(parent: Item, c: Item, item: Item, ghost t: Shape, ghost n: Shape,
                 ghost a: seq<Shape>, ghost k: Shape, ghost b: seq<Shape>, ghost ks: seq<Shape>)
    requires t.item == parent && Owner(t) && n.item == item && Detached(n) && Foot(t) !! Foot(n)
    requires t.kids == a + [k] + b && k.item == c && ks == a + [n] + b
    modifies parent`child, Tops(t.kids)`next, Tops(t.kids)`prev, item`next, item`prev
    ensures Detached(k) && Owner(t.(kids := ks))
  {
    ghost var all := a + [k] + b + [n];
    Ready(t, n, all, Own);
    DetachReady(t, a, k, b);
    ExchangeLinks(parent, c, item, Roots(a), Roots(b), all, t);
    ExchangedTree(a, k, b, n);
    MovedRoots(a, b, n);
    Rehomed(t, ks, Own);
    Swapped(t, n, a, k, b);
  }

  lemma ExchangedTree(a: seq<Shape>, k: Shape, b: seq<Shape>, n: Shape)
    requires TreeAll(a + [k] + b + [n], Own)
    ensures TreeAll(a + [n] + b, Own) && Tree(k, Own)
  {
    One(n);
    TreeAppend(a + [k] + b, [n], Own);
    TreeParts(a, k, b);
    TreeParts(a, n, b);
    assert TreeAll([n], Own);
  }

  method ExchangeLinks(parent: Item, c: Item, item: Item, ghost a: seq<Item>, ghost b: seq<Item>, ghost all: seq<Shape>, ghost t: Shape)
    requires t.item == parent && RimHolds(t)
    requires Linked(parent.child, a + ([c] + b)) && item !in a && item !in b && item != c
    requires TreeAll(all, Own) && Tops(all) !! Inner(all) && parent !in Tops(all) && parent !in Inner(all)
    requires c in Tops(all) && item in Tops(all) && (forall x | x in a :: x in Tops(all)) && forall x | x in b :: x in Tops(all)
    modifies parent`child, (set x | x in a)`next, (set x | x in b)`prev, c`next, c`prev, item`next, item`prev
    ensures RimHolds(t)
    ensures Linked(parent.child, a + ([item] + b)) && IsRoot(c) && TreeAll(all, Own)
  {
    Here(all);
    HereTree(t);
    Exchange(parent, c, item, a, b);
    KeptLinks(t, all, Own);
  }

  /** cJSON_Delete of what has been detached; of nothing if there was no such item. */
  method DeleteItemFromArray(heap: Allocator, parent: Item, which: int, ghost t: Shape) returns (ghost ks: seq<Shape>)
    requires t.item == parent && Owner(t) && Foot(t) <= heap.live
    modifies heap, parent`child, Tops(t.kids)`next, Tops(t.kids)`prev
    ensures heap.denied == old(heap.denied)
    ensures which >= |t.kids| || t.kids == [] ==> ks == t.kids && Owner(t) && heap.live == old(heap.live)
    ensures which < |t.kids| && t.kids != [] ==>
              var i := if which < 0 then 0 else which;
              && ks == t.kids[..i] + t.kids[i + 1..] && Owner(t.(kids := ks))
              && heap.live == old(heap.live) - Foot(t.kids[i]) && Foot(t.(kids := ks)) <= heap.live
  {
    var c;
    c, ks := DetachItemFromArray(parent, which, t);
    if c != null {
      HereTree(t.(kids := ks));
      label detached:
      DeleteOne(heap, c, t.kids[if which < 0 then 0 else which]);
      KeptTree@detached(t.(kids := ks), Own);
    }
  }

  // ----- Names ------------------------------------------------------------------------

  /** Whether a node's name is the key looked for; a null key is that of a node without a name. */
  ghost predicate SameName(b: Option<Block>, key: Option<Text>) {
    if b.Some? && key.Some? then b.value.text.Some? && SameLetters(b.value.text.value, key.value)
    else b.None? && key.None?
  }

  /** Two names are taken for the same if a capital A to Z and its small letter are. */
  lemma SameNameIff(at: array<byte>, a: Text, b: Text)
    ensures SameName(Some(Block(at, Some(a))), Some(b)) <==>
              |a| == |b| && forall i | 0 <= i < |a| ::
                              a[i] == b[i] || (65 <= a[i] <= 90 && b[i] == a[i] + 32) || (65 <= b[i] <= 90 && a[i] == b[i] + 32)
  {
    if SameLetters(a, b) {
      forall i | 0 <= i < |a| ensures a[i] == b[i] || (65 <= a[i] <= 90 && b[i] == a[i] + 32) || (65 <= b[i] <= 90 && a[i] == b[i] + 32) {
        assert SameLetter(a[i], b[i]);
      }
    }
  }

  /** The first child of that name, or the number of children. */
  ghost function FirstNamed(ks: seq<Shape>, name: Option<Text>): (i: nat)
    ensures i <= |ks| && (i < |ks| ==> SameName(ks[i].name, name))
    ensures forall j | 0 <= j < i :: !SameName(ks[j].name, name)
  {
    if ks == [] || SameName(ks[0].name, name) then 0 else 1 + FirstNamed(ks[1..], name)
  }

  /** cJSON_strcasecmp; only its being zero is ever looked at. */
  method StrCaseCmp(s1: array?<byte>, key: Option<Text>, ghost b: Option<Block>) returns (diff: int)
    requires Stored(s1, b) && (b.Some? ==> b.value.text.Some?)
    ensures (diff == 0) == SameName(b, key)
  {
    if s1 == null { return if key == None then 0 else 1; }
    if key == None { return 1; }
    var s2 := key.value;
    ghost var t := b.value.text.value;
    var i := 0;
    while Lower(s1[i]) == Lower(Peek(s2, i))
      invariant i <= |t| && i <= |s2| && forall j | 0 <= j < i :: SameLetter(t[j], s2[j])
      decreases |t| - i
    {
      assert i < |t| ==> s1[i] == s1[..|t|][i];
      LowerIff(s1[i], Peek(s2, i));
      if s1[i] == 0 { return 0; }
      i := i + 1;
    }
    assert i < |t| ==> s1[i] == s1[..|t|][i];
    LowerIff(s1[i], Peek(s2, i));
    diff := Lower(s1[i]) - Lower(Peek(s2, i));
  }

  /** No name is left unfinished, as after a failed parse. */
  ghost predicate NamesKnown(ks: seq<Shape>) {
    forall i | 0 <= i < |ks| && ks[i].name.Some? :: ks[i].name.value.text.Some?
  }

  lemma {:induction false} TreeAt(ks: seq<Shape>, i: nat, view: View)
    requires TreeAll(ks, view) && i < |ks|
    ensures Tree(ks[i], view) && Stored(ks[i].item.name, ks[i].name)
  {
    if i > 0 { TreeAt(ks[1..], i - 1, view); }
  }

  lemma {:induction false} FirstNamedIs(ks: seq<Shape>, name: Option<Text>, i: nat)
    requires i <= |ks| && (i < |ks| ==> SameName(ks[i].name, name))
    requires forall j | 0 <= j < i :: !SameName(ks[j].name, name)
    ensures i == FirstNamed(ks, name)
  {
    if ks != [] && i > 0 {
      assert forall j | 0 <= j < i - 1 :: ks[1..][j] == ks[j + 1];
      FirstNamedIs(ks[1..], name, i - 1);
    }
  }

  method CompareName(c: Item, name: Option<Text>, ghost t: Shape, ghost i: nat, ghost view: View) returns (diff: int)
    requires Tree(t, view) && TreeAll(t.kids, view) && NamesKnown(t.kids) && i < |t.kids| && c == t.kids[i].item
    ensures Tree(t, view) && (diff == 0) == SameName(t.kids[i].name, name)
  {
    TreeAt(t.kids, i, view);
    HereTree(t);
    label before:
    diff := StrCaseCmp(c.name, name, t.kids[i].name);
    KeptTree@before(t, view);
  }

  /** The comparison with an item, and the item behind it. */
  method CompareNext(c: Item, name: Option<Text>, ghost t: Shape, ghost i: nat, ghost view: View) returns (diff: int, next: Item?)
    requires Tree(t, view) && (view == Follow || !t.item.isReference) && NamesKnown(t.kids) && c == Nth(Roots(t.kids), i)
    ensures Tree(t, view) && (diff == 0) == SameName(t.kids[i].name, name) && next == Nth(Roots(t.kids), i + 1)
  {
    Children(t, view);
    RootsAt(t.kids, i);
    diff := CompareName(c, name, t, i, view);
    Children(t, view);
    next := c.next;
  }

  lemma Children(t: Shape, view: View)
    requires Tree(t, view) && (view == Follow || !t.item.isReference)
    ensures Linked(t.item.child, Roots(t.kids)) && TreeAll(t.kids, view)
  {
    assert Body(t, view);
  }

  lemma ChildAt(t: Shape, i: nat)
    requires Tree(t, Follow) && i < |t.kids|
    ensures Tree(t.kids[i], Follow) && Nth(Roots(t.kids), i) == t.kids[i].item
    ensures t.kids[i].item.next == Nth(Roots(t.kids), i + 1)
  {
    Children(t, Follow);
    TreeAt(t.kids, i, Follow);
    RootsAt(t.kids, i);
  }

  /** The loop of the by-name operations; what it finds is what cJSON_GetObjectItem returns. */
  method FindNamed(parent: Item, name: Option<Text>, ghost t: Shape, ghost view: View) returns (c: Item?, i: nat)
    requires t.item == parent && Tree(t, view) && (view == Follow || !parent.isReference) && NamesKnown(t.kids)
    ensures Tree(t, view) && i == FirstNamed(t.kids, name) && c == Nth(Roots(t.kids), i)
  {
    ghost var s := Roots(t.kids);
    Children(t, view);
    c, i := parent.child, 0;
    var found := false;
    while c != null && !found
      invariant Tree(t, view) && i <= |s| && c == Nth(s, i) && (found ==> i < |s| && SameName(t.kids[i].name, name))
      invariant forall j | 0 <= j < i :: !SameName(t.kids[j].name, name)
      decreases |s| - i, if found then 0 else 1
    {
      var diff, next := CompareNext(c, name, t, i, view);
      if diff == 0 {
        found := true;
      } else {
        i := i + 1;
        c := next;
      }
    }
    FirstNamedIs(t.kids, name, i);
  }

  method GetObjectItem(object_: Item?, name: Option<Text>, ghost t: Shape, ghost view: View) returns (c: Item?)
    requires object_ != null ==> t.item == object_ && Tree(t, view) && (view == Follow || !object_.isReference) && NamesKnown(t.kids)
    ensures c == if object_ == null then null else Nth(Roots(t.kids), FirstNamed(t.kids, name))
    ensures object_ != null && name.Some? ==>
              if c == null then forall i | 0 <= i < |t.kids| && t.kids[i].name.Some? :: !SameLetters(t.kids[i].name.value.text.value, name.value)
              else exists i | 0 <= i < |t.kids| && t.kids[i].name.Some? ::
                     c == t.kids[i].item && SameLetters(t.kids[i].name.value.text.value, name.value)
  {
    if object_ == null { return null; }
    var i;
    c, i := FindNamed(object_, name, t, view);
    if c != null { RootsAt(t.kids, i); }
  }

  method DetachItemFromObject(parent: Item, name: Option<Text>, ghost t: Shape) returns (c: Item?, ghost ks: seq<Shape>)
    requires t.item == parent && Owner(t) && NamesKnown(t.kids)
    modifies parent`child, Tops(t.kids)`next, Tops(t.kids)`prev
    ensures FirstNamed(t.kids, name) == |t.kids| ==> c == null && ks == t.kids && Owner(t)
    ensures FirstNamed(t.kids, name) < |t.kids| ==>
              var i := FirstNamed(t.kids, name);
              && c == t.kids[i].item && Detached(t.kids[i])
              && ks == t.kids[..i] + t.kids[i + 1..] && Owner(t.(kids := ks))
              && Foot(t) == Foot(t.(kids := ks)) + Foot(t.kids[i]) && Foot(t.(kids := ks)) !! Foot(t.kids[i])
  {
    var i;
    c, i := FindNamed(parent, name, t, Own);
    ks := t.kids;
    if c != null { c, ks := DetachItemFromArray(parent, i, t); }
  }

  /** item->string=cJSON_strdup(string): without memory the item is left with no name. */
  method SetName(heap: Allocator, item: Item, name: Text, ghost n: Shape) returns (ghost n': Shape)
    requires n.item == item && Body(n, Own) && SepUnder(n) && item !in Under(n) && IsRoot(item)
    requires {item as object} + Under(n) <= heap.live
    modifies heap, item`name
    ensures Detached(n') && n' == n.(name := n'.name) && (n'.name.Some? ==> n'.name.value.text == Some(name))
    ensures Gained(old(heap.live), heap.live, Cells(n'.name))
    ensures if n'.name == None then heap.denied > old(heap.denied) else heap.denied == old(heap.denied)
  {
    HereTree(n);
    NodesInFoot(n.kids);
    assert item !in Tops(n.kids) && item !in Inner(n.kids);
    var copy := StrDup(heap, name);
    KeptBody(n, Own);
    PutName(item, copy, n);
    n' := n.(name := if copy == null then None else Some(Block(copy, Some(name))));
    FootParts(n');
  }

  method PutName(item: Item, copy: array?<byte>, ghost n: Shape)
    requires n.item == item && Body(n, Own) && item !in Tops(n.kids) && item !in Inner(n.kids)
    modifies item`name
    ensures Body(n, Own) && item.name == copy
  {
    HereTree(n);
    item.name := copy;
  }

  /** The old name is freed; without memory for the new one the item is added with none. */
  method AddItemToObject(heap: Allocator, parent: Item, name: Text, item: Item?, ghost t: Shape, ghost n: Shape) returns (ghost n': Shape)
    requires t.item == parent && Owner(t) && Foot(t) <= heap.live
    requires item != null ==> n.item == item && Detached(n) && Foot(n) <= heap.live && Foot(t) !! Foot(n)
    modifies heap, parent`child, Tops(t.kids)`next, (if item == null then {} else {item})`prev, (if item == null then {} else {item})`name
    ensures item == null ==> Owner(t) && heap.live == old(heap.live) && heap.denied == old(heap.denied)
    ensures item != null ==>
              && n' == n.(name := n'.name) && (n'.name.Some? ==> n'.name.value.text == Some(name))
              && Owner(t.(kids := t.kids + [n'])) && Foot(t.(kids := t.kids + [n'])) == Foot(t) + Foot(n')
              && Gained(old(heap.live) - Cells(n.name), heap.live, Cells(n'.name))
              && if n'.name == None then heap.denied > old(heap.denied) else heap.denied == old(heap.denied)
  {
    n' := n;
    if item != null { n' := AddNamed(heap, parent, name, item, t, n); }
  }

  method AddNamed(heap: Allocator, parent: Item, name: Text, item: Item, ghost t: Shape, ghost n: Shape) returns (ghost n': Shape)
    requires t.item == parent && Owner(t) && Foot(t) <= heap.live
    requires n.item == item && Detached(n) && Foot(n) <= heap.live && Foot(t) !! Foot(n)
    modifies heap, parent`child, Tops(t.kids)`next, item`prev, item`name
    ensures n' == n.(name := n'.name) && (n'.name.Some? ==> n'.name.value.text == Some(name))
    ensures Owner(t.(kids := t.kids + [n'])) && Foot(t.(kids := t.kids + [n'])) == Foot(t) + Foot(n')
    ensures Gained(old(heap.live) - Cells(n.name), heap.live, Cells(n'.name))
    ensures if n'.name == None then heap.denied > old(heap.denied) else heap.denied == old(heap.denied)
  {
    n' := Rename(heap, item, name, t, n);
    Append(parent, item, t, n', t.kids + [n'], Own);
  }

  /** Frees the old name and sets the new one, beside a tree that stays as it is. */
  method Rename(heap: Allocator, item: Item, name: Text, ghost t: Shape, ghost n: Shape) returns (ghost n': Shape)
    requires Owner(t) && Foot(t) <= heap.live
    requires n.item == item && Detached(n) && Foot(n) <= heap.live && Foot(t) !! Foot(n)
    modifies heap, item`name
    ensures Owner(t) && Detached(n') && Foot(t) !! Foot(n')
    ensures n' == n.(name := n'.name) && (n'.name.Some? ==> n'.name.value.text == Some(name))
    ensures Gained(old(heap.live) - Cells(n.name), heap.live, Cells(n'.name))
    ensures if n'.name == None then heap.denied > old(heap.denied) else heap.denied == old(heap.denied)
  {
    HereTree(t);
    FreeName(heap, item, n);
    KeptTree(t, Own);
    FootParts(n);
    n' := RenameOver(heap, item, name, t, n);
  }

  method FreeName(heap: Allocator, item: Item, ghost n: Shape)
    requires n.item == item && Detached(n) && Foot(n) <= heap.live
    modifies heap
    ensures Detached(n) && heap.live == old(heap.live) - Cells(n.name) && heap.denied == old(heap.denied)
  {
    HereTree(n);
    if item.name != null { heap.Free(item.name); }
    KeptTree(n, Own);
  }

  lemma {:induction false} OutsideTree(t: Shape, item: Item)
    requires item !in Foot(t)
    ensures item != t.item && item !in Tops(t.kids) && item !in Inner(t.kids)
  {
    NodesInFoot(t.kids);
  }

  /**
   The first item of that name is replaced by the new one under that name. What the new
   item was called before is never freed: something is lost if and only if it had a name.
   */
  method ReplaceItemInObject(heap: Allocator, parent: Item, name: Text, newitem: Item, ghost t: Shape, ghost n: Shape)
    returns (ghost n': Shape, ghost ks: seq<Shape>)
    requires t.item == parent && Owner(t) && Foot(t) <= heap.live && NamesKnown(t.kids)
    requires n.item == newitem && Detached(n) && Foot(n) <= heap.live && Foot(t) !! Foot(n)
    modifies heap, parent`child, Tops(t.kids)`next, Tops(t.kids)`prev, newitem`next, newitem`prev, newitem`name
    ensures var i := FirstNamed(t.kids, Some(name));
            if i == |t.kids| then ks == t.kids && n' == n && Owner(t) && Detached(n) && heap.live == old(heap.live)
            else Replaced(t, n, i, name, n', ks) && heap.live == old(heap.live) + Cells(n'.name) - Foot(t.kids[i]) && Cells(n'.name) !! old(heap.live)
    ensures var found := FirstNamed(t.kids, Some(name)) < |t.kids|;
            var lost := Lost(old(heap.live), heap.live, Foot(t) + Foot(n), Foot(t.(kids := ks)) + if found then {} else Foot(n));
            && lost == (if found then Cells(n.name) else {})
            && (lost != {} <==> found && n.name.Some?)
  {
    n', ks := n, t.kids;
    HereTree(n);
    label before:
    var c, i := FindNamed(parent, Some(name), t, Own);
    KeptTree@before(n, Own);
    if c != null { n', ks := ReplaceNamed(heap, parent, name, i, newitem, t, n); }
    NothingLost(heap.live, Foot(t) + Foot(n));
    assert n.name.Some? ==> n.name.value.at in Cells(n.name);
  }

  /** `n'`, which is `n` under another name, stands in the place of the item at `i`. */
  ghost predicate Replaced(t: Shape, n: Shape, i: nat, name: Text, n': Shape, ks: seq<Shape>)
    requires i < |t.kids|
    reads t.item`kind, t.item`number, t.item`isReference, t.item`valuestring, t.item`child, t.item`name
    reads Arrays(t.str), Arrays(t.name), Tops(ks), Inner(ks), Blocks(ks)
  {
    && n' == n.(name := n'.name) && (n'.name.Some? ==> n'.name.value.text == Some(name))
    && ks == t.kids[..i] + [n'] + t.kids[i + 1..] && Owner(t.(kids := ks))
  }

  /** What is done with the item that has been found. */
  method ReplaceNamed(heap: Allocator, parent: Item, name: Text, i: nat, newitem: Item, ghost t: Shape, ghost n: Shape)
    returns (ghost n': Shape, ghost ks: seq<Shape>)
    requires t.item == parent && Owner(t) && Foot(t) <= heap.live && i < |t.kids|
    requires n.item == newitem && Detached(n) && Foot(n) <= heap.live && Foot(t) !! Foot(n)
    modifies heap, parent`child, Tops(t.kids)`next, Tops(t.kids)`prev, newitem`next, newitem`prev, newitem`name
    ensures Replaced(t, n, i, name, n', ks)
    ensures heap.live == old(heap.live) + Cells(n'.name) - Foot(t.kids[i]) && Cells(n'.name) !! old(heap.live)
    ensures Lost(old(heap.live), heap.live, Foot(t) + Foot(n), Foot(t.(kids := ks))) == Cells(n.name)
  {
    ghost var before := heap.live;
    FootParts(n);
    n' := RenameOver(heap, newitem, name, t, n);
    ks := ReplaceItemInArray(heap, parent, i, newitem, t, n');
    FootParts(n');
    assert Under(n') == Under(n);
    NameLost(before, heap.live, Foot(t), {n.item as object} + Under(n), Cells(n.name), Cells(n'.name), Foot(t.(kids := ks)), Foot(t.kids[i]));
  }

  /** What is live and neither owned now nor anybody else's before. */
  ghost function Lost(before: set<object>, after: set<object>, ownedBefore: set<object>, ownedAfter: set<object>): set<object> {
    after - (before - ownedBefore) - ownedAfter
  }

  lemma NothingLost(live: set<object>, owned: set<object>)
    ensures Lost(live, live, owned, owned) == {}
  {}

  /** A tree takes in `body` under another name and gives up `kid`. */
  lemma NameLost(before: set<object>, after: set<object>, t: set<object>, body: set<object>, name: set<object>, name': set<object>,
                 t': set<object>, kid: set<object>)
    requires t + body + name <= before && name' !! before && name !! t && name !! body
    requires t' + kid == t + (body + name') && after == before + name' - kid
    ensures Lost(before, after, t + (body + name), t') == name
  {
    forall x ensures x in Lost(before, after, t + (body + name), t') <==> x in name {}
  }

  /** An item called "b" is put in for the child called "a": the block of its name is live and owned by nobody. */
  method LostInput(heap: Allocator, parent: Item, newitem: Item, ghost t: Shape, ghost n: Shape) returns (ghost ks: seq<Shape>)
    requires t.item == parent && Owner(t) && Foot(t) <= heap.live && |t.kids| == 1 && Called(t.kids[0], ['a' as int])
    requires n.item == newitem && Detached(n) && Foot(n) <= heap.live && Foot(t) !! Foot(n) && Called(n, ['b' as int])
    modifies heap, parent`child, Tops(t.kids)`next, Tops(t.kids)`prev, newitem`next, newitem`prev, newitem`name
    ensures n.name.value.at in heap.live && n.name.value.at !in Foot(t.(kids := ks))
  {
    ghost var n', live, owned := n, heap.live, Foot(t) + Foot(n);
    n', ks := ReplaceItemInObject(heap, parent, ['a' as int], newitem, t, n);
    assert n.name.value.at in Lost(live, heap.live, owned, Foot(t.(kids := ks)));
  }

  /** The same, without freeing the old name. */
  method RenameOver(heap: Allocator, item: Item, name: Text, ghost t: Shape, ghost n: Shape) returns (ghost n': Shape)
    requires Owner(t) && Foot(t) <= heap.live
    requires n.item == item && Detached(n) && {item as object} + Under(n) <= heap.live && Foot(t) !! Foot(n)
    modifies heap, item`name
    ensures Owner(t) && Detached(n') && Foot(t) !! Foot(n')
    ensures n' == n.(name := n'.name) && (n'.name.Some? ==> n'.name.value.text == Some(name))
    ensures Gained(old(heap.live), heap.live, Cells(n'.name))
    ensures if n'.name == None then heap.denied > old(heap.denied) else heap.denied == old(heap.denied)
  {
    HereTree(t);
    OutsideTree(t, item);
    n' := SetName(heap, item, name, n);
    KeptTree(t, Own);
    FootParts(n);
    FootParts(n');
  }

  // ----- References ---------------------------------------------------------------------

  /**
   create_reference: a node that shares the string and the children of another, and owns
   none of them. Read as a value it is what the other is; its footprint is itself.
   */
  method CreateReference(heap: Allocator, item: Item, ghost t: Shape) returns (ref: Item?, ghost n: Shape)
    requires t.item == item && Body(t, Follow)
    modifies heap
    ensures ref == null ==> heap.live == old(heap.live) && heap.denied > old(heap.denied)
    ensures ref != null ==>
              && fresh(ref) && n == Shape(ref, t.kind, t.num, None, None, []) && ref.isReference && Detached(n) && Foot(n) == {ref}
              && Gained(old(heap.live), heap.live, Foot(n)) && heap.denied == old(heap.denied)
              && Tree(t.(item := ref, name := None), Follow)
  {
    HereTree(t);
    n := t;
    ref := NewItem(heap);
    if ref == null { return; }
    KeptBody(t, Follow);
    CopyFields(ref, item, t);
    n := Shape(ref, t.kind, t.num, None, None, []);
    Alone(n);
  }

  lemma Alone(n: Shape)
    requires n.str == None && n.name == None && n.kids == []
    ensures Sep(n) && Foot(n) == {n.item}
  {
    assert Under(n) == {};
  }

  /** memcpy of the node, and what is reset after it. */
  method CopyFields(ref: Item, item: Item, ghost t: Shape)
    requires t.item == item && Body(t, Follow) && ref != item && ref !in Tops(t.kids) && ref !in Inner(t.kids)
    modifies ref
    ensures ref.kind == t.kind && ref.number == t.num && ref.name == null && ref.isReference && IsRoot(ref)
    ensures Tree(t.(item := ref, name := None), Follow)
  {
    BodyParts(t);
    HereTree(t);
    Here(t.kids);
    label before:
    ref.kind, ref.number, ref.valuestring, ref.child := item.kind, item.number, item.valuestring, item.child;
    ref.name := null;
    ref.isReference := true;
    ref.next, ref.prev := null, null;
    Kept@before(t.kids, Follow);
    KeptName@before(item.valuestring, t.str);
    TreeOf(t.(item := ref, name := None));
  }

  lemma TreeOf(t: Shape)
    requires t.item.kind == t.kind && t.item.number == t.num && Stored(t.item.valuestring, t.str) && Stored(t.item.name, t.name)
    requires Linked(t.item.child, Roots(t.kids)) && TreeAll(t.kids, Follow)
    ensures Tree(t, Follow)
  {}

  lemma BodyParts(t: Shape)
    requires Body(t, Follow)
    ensures t.item.kind == t.kind && t.item.number == t.num && Stored(t.item.valuestring, t.str)
    ensures Linked(t.item.child, Roots(t.kids)) && TreeAll(t.kids, Follow)
  {}

  /** Relinking the children of `parent` does not touch what `s` shows below itself. */
  ghost predicate Apart(parent: Item, ks: seq<Shape>, s: Shape) {
    && parent !in Tops(s.kids) && parent !in Inner(s.kids)
    && forall x | x in Tops(ks) :: x !in Tops(s.kids) && x !in Inner(s.kids)
  }

  /** A node that is linked into another list still shows what it shares. */
  twostate lemma KeptShared(r: Shape)
    requires old(Body(r, Follow) && allocated(r.item) && allocated(Tops(r.kids)) && allocated(Inner(r.kids)))
    requires old(allocated(Arrays(r.str)) && allocated(Blocks(r.kids)))
    requires r.item.kind == old(r.item.kind) && r.item.number == old(r.item.number)
    requires r.item.isReference == old(r.item.isReference) && r.item.valuestring == old(r.item.valuestring)
    requires r.item.child == old(r.item.child)
    requires unchanged(Tops(r.kids)) && unchanged(Inner(r.kids)) && unchanged(Arrays(r.str)) && unchanged(Blocks(r.kids))
    ensures Body(r, Follow)
  {}

  /** The last of `ks` is a reference that reads as `s`, under its own name. */
  ghost predicate Shares(ks: seq<Shape>, s: Shape)
    requires ks != []
    reads Tops(ks), Arrays(ks[|ks| - 1].name)
    reads Arrays(s.str), Tops(s.kids), Inner(s.kids), Blocks(s.kids)
    reads ks[|ks| - 1].item
  {
    var k := ks[|ks| - 1];
    k.item.isReference && Tree(s.(item := k.item, name := k.name), Follow)
  }

  /** As what it shares with it is read, and so printed. */
  lemma SharesMeaning(s: Shape, x: Item, name: Option<Block>, v: Value)
    ensures Means(s.(item := x, name := name), v) <==> Means(s, v)
  {}

  /** A new reference, appended; where nothing of what it shares is relinked it reads as before. */
  method AppendReference(parent: Item, ref: Item, ghost t: Shape, ghost n: Shape, ghost ks: seq<Shape>, ghost r: Shape)
    requires t.item == parent && Owner(t) && n.item == ref && Detached(n) && Foot(t) !! Foot(n) && ks == t.kids + [n]
    requires r.item == ref && Body(r, Follow) && ref !in Tops(r.kids) && ref !in Inner(r.kids) && n.name == r.name == None
    modifies parent`child, Tops(t.kids)`next, ref`prev
    ensures Owner(t.(kids := ks)) && Foot(t.(kids := ks)) == Foot(t) + Foot(n)
    ensures Apart(parent, t.kids, r) ==> Tree(r, Follow)
  {
    HereTree(r);
    OutsideTree(t, ref);
    label before:
    Append(parent, ref, t, n, ks, Own);
    if Apart(parent, t.kids, r) {
      KeptShared@before(r);
      LastNamed(t, n, ks);
    }
  }

  lemma LastNamed(t: Shape, n: Shape, ks: seq<Shape>)
    requires Owner(t.(kids := ks)) && ks == t.kids + [n]
    ensures Stored(n.item.name, n.name)
  {
    OwnerParts(t.(kids := ks));
    TreeAt(ks, |t.kids|, Own);
  }

  method AddItemReferenceToArray(heap: Allocator, parent: Item, item: Item, ghost t: Shape, ghost s: Shape) returns (ghost ks: seq<Shape>)
    requires t.item == parent && Owner(t) && Foot(t) <= heap.live && s.item == item && Body(s, Follow)
    modifies heap, parent`child, Tops(t.kids)`next
    ensures Owner(t.(kids := ks)) && Gained(old(heap.live), heap.live, Foot(t.(kids := ks)) - Foot(t))
    ensures Foot(t) <= Foot(t.(kids := ks))
    ensures heap.denied > old(heap.denied) ==> ks == t.kids
    ensures heap.denied == old(heap.denied) ==>
              && |ks| == |t.kids| + 1 && ks == t.kids + [Shape(ks[|t.kids|].item, s.kind, s.num, None, None, [])]
              && ks[|t.kids|].item.isReference && (Apart(parent, t.kids, s) ==> Shares(ks, s))
    ensures heap.denied >= old(heap.denied)
  {
    var ref;
    ghost var n;
    ref, n := ReferenceBeside(heap, item, t, s);
    ks := t.kids;
    if ref != null {
      ks := t.kids + [n];
      AppendReference(parent, ref, t, n, ks, s.(item := ref, name := None));
    }
  }

  method AddItemReferenceToObject(heap: Allocator, parent: Item, name: Text, item: Item, ghost t: Shape, ghost s: Shape)
    returns (ghost ks: seq<Shape>)
    requires t.item == parent && Owner(t) && Foot(t) <= heap.live && s.item == item && Body(s, Follow)
    modifies heap, parent`child, Tops(t.kids)`next
    ensures Owner(t.(kids := ks)) && Gained(old(heap.live), heap.live, Foot(t.(kids := ks)) - Foot(t))
    ensures Foot(t) <= Foot(t.(kids := ks)) && (ks == t.kids ==> heap.denied > old(heap.denied))
    ensures ks != t.kids ==>
              && |ks| == |t.kids| + 1 && ks == t.kids + [Shape(ks[|t.kids|].item, s.kind, s.num, None, ks[|t.kids|].name, [])]
              && ks[|t.kids|].item.isReference && (Apart(parent, t.kids, s) ==> Shares(ks, s))
              && (if ks[|t.kids|].name.Some? then ks[|t.kids|].name.value.text == Some(name) else heap.denied > old(heap.denied))
  {
    var ref;
    ghost var n;
    ref, n := ReferenceBeside(heap, item, t, s);
    ks := t.kids;
    if ref != null {
      ghost var mid := heap.live;
      ghost var n' := AddNamedReference(heap, parent, name, ref, t, n, s.(item := ref, name := None));
      ks := t.kids + [n'];
      NamedFoot(n, n');
      GainedBoth(old(heap.live), mid, heap.live, Foot(n), Cells(n'.name));
      NewPart(old(heap.live), heap.live, Foot(t), Foot(n'));
    }
  }

  /** cJSON_AddItemToObject of a new reference; `r` is what it shows. */
  method AddNamedReference(heap: Allocator, parent: Item, name: Text, ref: Item, ghost t: Shape, ghost n: Shape, ghost r: Shape) returns (ghost n': Shape)
    requires t.item == parent && Owner(t) && Foot(t) <= heap.live
    requires n.item == ref && Detached(n) && Foot(n) <= heap.live && Foot(t) !! Foot(n) && n.name == None
    requires r.item == ref && Body(r, Follow) && ref !in Tops(r.kids) && ref !in Inner(r.kids)
    modifies heap, parent`child, Tops(t.kids)`next, ref`prev, ref`name
    ensures n' == n.(name := n'.name) && (n'.name.Some? ==> n'.name.value.text == Some(name))
    ensures Owner(t.(kids := t.kids + [n'])) && Foot(t.(kids := t.kids + [n'])) == Foot(t) + Foot(n')
    ensures Gained(old(heap.live), heap.live, Cells(n'.name))
    ensures if n'.name == None then heap.denied > old(heap.denied) else heap.denied == old(heap.denied)
    ensures Apart(parent, t.kids, r) ==> Tree(r.(name := n'.name), Follow)
  {
    HereTree(r);
    OutsideTree(t, ref);
    label before:
    n' := AddNamed(heap, parent, name, ref, t, n);
    if Apart(parent, t.kids, r) {
      KeptShared@before(r);
      LastNamed(t, n', t.kids + [n']);
    }
  }

  /** create_reference, with the parent as it was. */
  method ReferenceBeside(heap: Allocator, item: Item, ghost t: Shape, ghost s: Shape) returns (ref: Item?, ghost n: Shape)
    requires Owner(t) && s.item == item && Body(s, Follow)
    modifies heap
    ensures Owner(t)
    ensures ref == null ==> heap.live == old(heap.live) && heap.denied > old(heap.denied)
    ensures ref != null ==>
              && fresh(ref) && n == Shape(ref, s.kind, s.num, None, None, []) && ref.isReference && Detached(n) && Foot(n) == {ref}
              && Gained(old(heap.live), heap.live, Foot(n)) && heap.denied == old(heap.denied)
              && Body(s.(item := ref, name := None), Follow) && ref !in Tops(s.kids) && ref !in Inner(s.kids)
  {
    HereTree(t);
    HereTree(s);
    ref, n := CreateReference(heap, item, s);
    KeptTree(t, Own);
  }

  lemma NamedFoot(n: Shape, n': Shape)
    requires n.name == None && n' == n.(name := n'.name)
    ensures Foot(n') == Foot(n) + Cells(n'.name) && Cells(n.name) == {}
  {
    FootParts(n);
    FootParts(n');
    assert Under(n') == Under(n);
  }

  lemma NewPart(before: set<object>, after: set<object>, own: set<object>, more: set<object>)
    requires Gained(before, after, more) && own <= before
    ensures Gained(before, after, own + more - own)
  {}

  /**
   Two separate trees, either of which may hold references into the other, can be deleted in
   either order: whatever the second one shares is gone by then and is not looked at.
   */
  method DeleteInAnyOrder(heap: Allocator, a: Item, b: Item, bFirst: bool, ghost ta: Shape, ghost tb: Shape)
    requires ta.item == a && tb.item == b && Detached(ta) && Detached(tb)
    requires Foot(ta) !! Foot(tb) && Foot(ta) + Foot(tb) <= heap.live
    modifies heap
    ensures heap.live == old(heap.live) - Foot(ta) - Foot(tb) && heap.denied == old(heap.denied)
  {
    HereTree(ta);
    HereTree(tb);
    if bFirst {
      DeleteOne(heap, b, tb);
      KeptTree(ta, Own);
      DeleteOne(heap, a, ta);
    } else {
      DeleteOne(heap, a, ta);
      KeptTree(tb, Own);
      DeleteOne(heap, b, tb);
    }
  }

  // ----- cJSON_Duplicate ------------------------------------------------------------------

  /** Every string block holds a text. */
  ghost predicate Complete(t: Shape)
    decreases t
  {
    && (t.str.Some? ==> t.str.value.text.Some?) && (t.name.Some? ==> t.name.value.text.Some?)
    && forall i | 0 <= i < |t.kids| :: Complete(t.kids[i])
  }

  ghost function TextIn(b: Option<Block>): Option<Text> {
    if b.Some? then b.value.text else None
  }

  /** The same tree as far as contents go. */
  ghost predicate Copied(d: Shape, t: Shape, recurse: bool)
    decreases t
  {
    && d.kind == t.kind && d.num == t.num && d.str.Some? == t.str.Some? && d.name.Some? == t.name.Some?
    && TextIn(d.str) == TextIn(t.str) && TextIn(d.name) == TextIn(t.name)
    && if recurse then |d.kids| == |t.kids| && forall i | 0 <= i < |t.kids| :: Copied(d.kids[i], t.kids[i], true)
       else d.kids == []
  }

  /** The picture at the end of a path of child indices. */
  ghost function Below(t: Shape, path: seq<nat>): Option<Shape> {
    if path == [] then Some(t) else if path[0] < |t.kids| then Below(t.kids[path[0]], path[1..]) else None
  }

  /** Two nodes of the same kind with the same number, the same string and the same name, or none. */
  ghost predicate Alike(d: Shape, t: Shape) {
    && d.kind == t.kind && d.num == t.num
    && (d.str.Some? <==> t.str.Some?) && (d.str.Some? ==> d.str.value.text == t.str.value.text)
    && (d.name.Some? <==> t.name.Some?) && (d.name.Some? ==> d.name.value.text == t.name.value.text)
  }

  /** A deep copy has the same paths, and at each a node alike; any other copy is alike and has no children. */
  lemma {:induction false} CopyAtPath(d: Shape, t: Shape, path: seq<nat>)
    ensures Copied(d, t, false) ==> Alike(d, t) && d.kids == []
    ensures Copied(d, t, true) ==>
              match (Below(d, path), Below(t, path))
              case (Some(x), Some(y)) => Alike(x, y) && |x.kids| == |y.kids|
              case (None, None) => true
              case _ => false
  {
    if path != [] && path[0] < |t.kids| && |d.kids| == |t.kids| { CopyAtPath(d.kids[path[0]], t.kids[path[0]], path[1..]); }
  }

  /** A deep copy shows every value the original shows, and so prints the same. */
  lemma {:induction false} CopyMeans(d: Shape, t: Shape, v: Value)
    requires Copied(d, t, true) && Means(t, v)
    ensures Means(d, v)
    decreases v
  {
    match v
    case Array(items) =>
      forall i | 0 <= i < |d.kids| ensures Means(d.kids[i], items[i]) { CopyMeans(d.kids[i], t.kids[i], items[i]); }
    case Object(ms) =>
      forall i | 0 <= i < |d.kids| ensures Called(d.kids[i], ms[i].name) && Means(d.kids[i], ms[i].value) {
        CopyMeans(d.kids[i], t.kids[i], ms[i].value);
      }
    case _ =>
  }

  /** At most one value is shown. */
  lemma {:induction false} MeansOne(t: Shape, v: Value, w: Value)
    requires Means(t, v) && Means(t, w)
    ensures v == w
    decreases v
  {
    match v
    case Array(items) =>
      forall i | 0 <= i < |items| ensures items[i] == w.items[i] { MeansOne(t.kids[i], items[i], w.items[i]); }
    case Object(ms) =>
      forall i | 0 <= i < |ms| ensures ms[i] == w.members[i] { MeansOne(t.kids[i], ms[i].value, w.members[i].value); }
    case _ =>
  }
}
