/** cJSON_Duplicate: a copy that owns everything it shows. */
module Duplication {
  import opened Bytes
  import opened Json
  import opened Allocation
  import opened TextBlocks
  import opened Items
  import opened ItemLists

  /** cJSON_strdup of a string that may be missing. */
  method CopyBlock(heap: Allocator, b: array?<byte>, ghost s: Option<Block>) returns (ok: bool, out: array?<byte>, ghost d: Option<Block>)
    requires Stored(b, s) && (s.Some? ==> s.value.text.Some?)
    modifies heap
    ensures Stored(out, d) && Gained(old(heap.live), heap.live, Cells(d))
    ensures if ok then d.Some? == s.Some? && TextIn(d) == TextIn(s) else d == None
    ensures if ok then heap.denied == old(heap.denied) else heap.denied > old(heap.denied)
  {
    ok, out, d := true, null, None;
    if b != null {
      out := CopyString(heap, b, s.value.text.value);
      ok := out != null;
      if ok { d := Some(Block(out, s.value.text)); }
    }
  }

  /** The node and its strings; what has been allocated is deleted when memory runs out. */
  method DuplicateNode(heap: Allocator, item: Item, ghost t: Shape) returns (c: Item?, ghost d: Shape)
    requires t.item == item && Tree(t, Follow) && Complete(t)
    modifies heap
    ensures c == null ==> heap.live == old(heap.live) && heap.denied > old(heap.denied)
    ensures c != null ==>
              && fresh(c) && d.item == c && Tree(d, Plain) && Sep(d) && IsRoot(c) && Copied(d, t, false)
              && Gained(old(heap.live), heap.live, Foot(d)) && heap.denied == old(heap.denied)
  {
    d := t;
    HereTree(t);
    c := CopyHead(heap, item, t);
    if c == null { return; }
    KeptTree(t, Follow);
    ghost var mid := heap.live;
    var ok;
    ok, d := CopyStrings(heap, c, item, t);
    GainedBoth(old(heap.live), mid, heap.live, {c}, Cells(d.str) + Cells(d.name));
    if !ok {
      PlainTree(d);
      DeleteOne(heap, c, d);
      return null, t;
    }
  }

  /** A new node of the same kind and number. */
  method CopyHead(heap: Allocator, item: Item, ghost t: Shape) returns (c: Item?)
    requires t.item == item && Tree(t, Follow)
    modifies heap
    ensures c == null ==> heap.live == old(heap.live) && heap.denied > old(heap.denied)
    ensures c != null ==>
              && fresh(c) && c != item && IsRoot(c) && HoldsNothing(c) && c.name == null && c.kind == t.kind && c.number == t.num
              && Gained(old(heap.live), heap.live, {c}) && heap.denied == old(heap.denied)
  {
    assert Body(t, Follow);
    c := NewItem(heap);
    if c != null { c.kind, c.isReference, c.number := item.kind, false, item.number; }
  }

  method CopyStrings(heap: Allocator, c: Item, item: Item, ghost t: Shape) returns (ok: bool, ghost d: Shape)
    requires t.item == item && Tree(t, Follow) && Complete(t) && c != item
    requires HoldsNothing(c) && c.name == null && c.kind == t.kind && c.number == t.num && c in heap.live
    modifies heap, c`valuestring, c`name
    ensures d.item == c && Tree(d, Plain) && Sep(d) && d.kids == [] && Foot(d) == {c} + (Cells(d.str) + Cells(d.name))
    ensures Gained(old(heap.live), heap.live, Cells(d.str) + Cells(d.name))
    ensures if ok then Copied(d, t, false) && heap.denied == old(heap.denied) else heap.denied > old(heap.denied)
  {
    ghost var str, name := None, None;
    ok, str := CopyText(heap, c, item, t);
    ghost var mid := heap.live;
    if ok { ok, name := CopyName(heap, c, item, t, str); }
    GainedBoth(old(heap.live), mid, heap.live, Cells(str), Cells(name));
    d := Shape(c, t.kind, t.num, str, name, []);
    CopiedLeaf(d);
  }

  lemma CopiedLeaf(d: Shape)
    requires d.item.kind == d.kind && d.item.number == d.num && d.kids == [] && d.item.child == null && !d.item.isReference
    requires Stored(d.item.valuestring, d.str) && Stored(d.item.name, d.name) && Cells(d.str) !! Cells(d.name)
    ensures Tree(d, Plain) && Sep(d) && Foot(d) == {d.item} + (Cells(d.str) + Cells(d.name))
  {
    LeafTree(d);
  }

  method CopyText(heap: Allocator, c: Item, item: Item, ghost t: Shape) returns (ok: bool, ghost str: Option<Block>)
    requires t.item == item && Tree(t, Follow) && Complete(t) && c != item
    modifies heap, c`valuestring
    ensures Stored(c.valuestring, str) && Stored(item.name, t.name) && Gained(old(heap.live), heap.live, Cells(str))
    ensures if ok then str.Some? == t.str.Some? && TextIn(str) == TextIn(t.str) else str == None
    ensures if ok then heap.denied == old(heap.denied) else heap.denied > old(heap.denied)
  {
    assert Body(t, Follow);
    HereTree(t);
    var b;
    ok, b, str := CopyBlock(heap, item.valuestring, t.str);
    KeptName(item.name, t.name);
    c.valuestring := b;
  }

  method CopyName(heap: Allocator, c: Item, item: Item, ghost t: Shape, ghost str: Option<Block>) returns (ok: bool, ghost name: Option<Block>)
    requires Stored(item.name, t.name) && Complete(t) && Stored(c.valuestring, str)
    modifies heap, c`name
    ensures Stored(c.name, name) && Stored(c.valuestring, str) && Gained(old(heap.live), heap.live, Cells(name))
    ensures if ok then name.Some? == t.name.Some? && TextIn(name) == TextIn(t.name) else name == None
    ensures if ok then heap.denied == old(heap.denied) else heap.denied > old(heap.denied)
  {
    assert allocated(Arrays(str)) && forall x | x in Arrays(str) :: !((x as object) is Item);
    var b;
    ok, b, name := CopyBlock(heap, item.name, t.name);
    KeptName(c.valuestring, str);
    c.name := b;
  }

  /** The original is left as it is; the copy is made of new blocks only and has no references. */
  method Duplicate(heap: Allocator, item: Item?, recurse: bool, ghost t: Shape) returns (c: Item?, ghost d: Shape)
    requires item != null ==> t.item == item && Tree(t, Follow) && Complete(t)
    modifies heap
    ensures c == null ==> heap.live == old(heap.live) && (item != null ==> heap.denied > old(heap.denied))
    ensures c != null ==>
              && item != null && fresh(c) && d.item == c && Tree(d, Plain) && Sep(d) && IsRoot(c) && Copied(d, t, recurse)
              && Gained(old(heap.live), heap.live, Foot(d)) && heap.denied == old(heap.denied)
    decreases t, 1
  {
    d := t;
    if item == null { return null, t; }
    HereTree(t);
    c, d := DuplicateNode(heap, item, t);
    if c == null || !recurse { return; }
    KeptTree(t, Follow);
    c, d := DuplicateKids(heap, c, item, t, d, old(heap.live));
  }

  /** The loop over the children. */
  method DuplicateKids(heap: Allocator, newitem: Item, item: Item, ghost t: Shape, ghost d: Shape, ghost base: set<object>)
    returns (c: Item?, ghost d': Shape)
    requires t.item == item && Tree(t, Follow) && Complete(t) && Copied(d, t, false)
    requires d.item == newitem && Tree(d, Plain) && Sep(d) && IsRoot(newitem) && Gained(base, heap.live, Foot(d))
    requires Outside(newitem, t)
    modifies heap, newitem`child
    ensures c == null ==> heap.live == base && heap.denied > old(heap.denied)
    ensures c != null ==>
              && c == newitem && d'.item == c && Tree(d', Plain) && Sep(d') && IsRoot(c) && Copied(d', t, true)
              && Gained(base, heap.live, Foot(d')) && heap.denied == old(heap.denied)
    decreases t, 0, 2
  {
    Children(t, Follow);
    c, d' := newitem, d;
    var cptr := item.child;
    var nptr: Item? := null;
    ghost var i := 0;
    while cptr != null
      invariant i <= |t.kids| && Copying(t, d', i, cptr, nptr) && d' == d.(kids := d'.kids)
      invariant IsRoot(newitem) && Gained(base, heap.live, Foot(d')) && heap.denied == old(heap.denied)
      invariant nptr != null ==> fresh(nptr)
      decreases |t.kids| - i
    {
      nptr, cptr, d' := DuplicateNth(heap, newitem, nptr, cptr, t, i, d', base);
      if nptr == null { return null, d; }
      i := i + 1;
    }
    AllCopied(d, d', t);
  }

  /** The first `n` children are copied; `cptr` is the next one, `nptr` the last copy. */
  ghost predicate Copying(t: Shape, d: Shape, n: nat, cptr: Item?, nptr: Item?)
    reads t.item`kind, t.item`number, t.item`isReference, t.item`valuestring, t.item`child, t.item`name
    reads Arrays(t.str), Arrays(t.name), Tops(t.kids), Inner(t.kids), Blocks(t.kids)
    reads d.item`kind, d.item`number, d.item`isReference, d.item`valuestring, d.item`child, d.item`name
    reads Arrays(d.str), Arrays(d.name), Tops(d.kids), Inner(d.kids), Blocks(d.kids)
  {
    && Tree(t, Follow) && Tree(d, Plain) && Sep(d) && CopiedSoFar(d.kids, t.kids, n)
    && cptr == Nth(Roots(t.kids), n) && nptr == Nth(Roots(d.kids), n - 1) && Outside(nptr, t)
  }

  lemma AllCopied(d: Shape, d': Shape, t: Shape)
    requires Copied(d, t, false) && d' == d.(kids := d'.kids) && CopiedSoFar(d'.kids, t.kids, |t.kids|)
    ensures Copied(d', t, true)
  {}

  /** One turn of it; on failure the copy so far is deleted. */
  method DuplicateNth(heap: Allocator, newitem: Item, nptr: Item?, cptr: Item, ghost t: Shape, ghost i: nat, ghost d: Shape, ghost base: set<object>)
    returns (child: Item?, next: Item?, ghost d': Shape)
    requires Complete(t) && i < |t.kids| && Copying(t, d, i, cptr, nptr) && Outside(newitem, t)
    requires d.item == newitem && IsRoot(newitem) && Gained(base, heap.live, Foot(d))
    modifies heap, newitem`child, (if nptr == null then {} else {nptr})`next
    ensures child == null ==> heap.live == base && heap.denied > old(heap.denied)
    ensures child != null ==>
              && fresh(child) && d' == d.(kids := d'.kids) && Copying(t, d', i + 1, next, child)
              && Gained(base, heap.live, Foot(d')) && heap.denied == old(heap.denied)
    decreases t, 0, 1
  {
    child, next, d' := DuplicateKid(heap, newitem, nptr, cptr, t, i, d, base);
    if child == null {
      PlainTree(d);
      DeleteOne(heap, newitem, d);
    } else {
      OneMoreCopied(d.kids, t.kids, i, d'.kids);
    }
  }

  /** The copy of a child, linked behind those before it; `next` is the child to copy after it. */
  method DuplicateKid(heap: Allocator, newitem: Item, nptr: Item?, cptr: Item, ghost t: Shape, ghost i: nat, ghost d: Shape, ghost base: set<object>)
    returns (child: Item?, next: Item?, ghost d': Shape)
    requires Tree(t, Follow) && Complete(t) && i < |t.kids| && cptr == Nth(Roots(t.kids), i) && Outside(newitem, t) && Outside(nptr, t)
    requires d.item == newitem && Tree(d, Plain) && Sep(d) && Gained(base, heap.live, Foot(d)) && nptr == Nth(Roots(d.kids), |d.kids| - 1)
    modifies heap, newitem`child, (if nptr == null then {} else {nptr})`next
    ensures Tree(t, Follow) && Tree(d', Plain) && Sep(d') && Gained(base, heap.live, Foot(d'))
    ensures child == null ==> d' == d && heap.denied > old(heap.denied)
    ensures child != null ==>
              && fresh(child) && Outside(child, t) && |d'.kids| == |d.kids| + 1 && d' == d.(kids := d.kids + [d'.kids[|d.kids|]])
              && d'.kids[|d.kids|].item == child && Copied(d'.kids[|d.kids|], t.kids[i], true) && heap.denied == old(heap.denied)
              && next == Nth(Roots(t.kids), i + 1)
    decreases t, 0, 0
  {
    d', next := d, null;
    ghost var n;
    child, n := CopyKid(heap, cptr, t, i, d, base);
    if child != null {
      AppendAfter(newitem, nptr, child, d, n, d.kids + [n], Plain, t);
      ChildAt(t, i);
      next := cptr.next;
      d' := d.(kids := d.kids + [n]);
    }
  }

  /** The copy itself; neither tree changes. */
  method CopyKid(heap: Allocator, cptr: Item, ghost t: Shape, ghost i: nat, ghost d: Shape, ghost base: set<object>)
    returns (child: Item?, ghost n: Shape)
    requires Tree(t, Follow) && Complete(t) && i < |t.kids| && cptr == Nth(Roots(t.kids), i)
    requires Tree(d, Plain) && Gained(base, heap.live, Foot(d))
    modifies heap
    ensures Tree(t, Follow) && Tree(d, Plain)
    ensures child == null ==> heap.live == old(heap.live) && heap.denied > old(heap.denied)
    ensures child != null ==>
              && fresh(child) && Outside(child, t) && n.item == child && Tree(n, Plain) && Sep(n) && IsRoot(child)
              && Copied(n, t.kids[i], true) && Foot(d) !! Foot(n) && Gained(base, heap.live, Foot(d) + Foot(n))
              && heap.denied == old(heap.denied)
    decreases t, 0, 0, 0
  {
    HereTree(t);
    HereTree(d);
    ChildAt(t, i);
    ghost var mid := heap.live;
    child, n := Duplicate(heap, cptr, true, t.kids[i]);
    KeptTree(t, Follow);
    KeptTree(d, Plain);
    if child != null { GainedBoth(base, mid, heap.live, Foot(d), Foot(n)); }
  }

  ghost predicate CopiedSoFar(ds: seq<Shape>, ks: seq<Shape>, n: nat) {
    |ds| == n <= |ks| && forall i | 0 <= i < n :: Copied(ds[i], ks[i], true)
  }

  lemma {:induction false} OneMoreCopied(ds: seq<Shape>, ks: seq<Shape>, n: nat, ds': seq<Shape>)
    requires CopiedSoFar(ds, ks, n) && n < |ks| && |ds'| == n + 1 && ds' == ds + [ds'[n]] && Copied(ds'[n], ks[n], true)
    ensures CopiedSoFar(ds', ks, n + 1) && Nth(Roots(ds'), n) == ds'[n].item
  {
    RootsAt(ds', n);
  }
}
