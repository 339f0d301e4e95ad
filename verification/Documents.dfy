/** Texts, node trees and both printers put together. */
module Documents {
  import opened Bytes
  import opened Json
  import opened Grammar
  import opened JsonPrint
  import opened Recognition
  import opened Allocation
  import opened TextBlocks
  import opened StringParser
  import opened Items
  import opened ItemLists
  import Parser
  import BufferedPrinter
  import AllocatingPrinter
  import Duplication

  // ----- Reading documents ----------------------------------------------------------------

  predicate SafeEnd(s: Text) {
    s != [] && s[|s| - 1] != BACKSLASH
  }

  lemma SafeBehind(s: Text, tail: Text)
    requires SafeEnd(tail)
    ensures SafeEnd(s + tail)
  {}

  lemma NumberEnd(n: NumToken)
    ensures SafeEnd(NumText(n))
  {
    var sign: Text := if n.neg then [MINUS] else [];
    var e := ExpText(n.exp);
    var f := FracText(n.frac);
    assert e == [] || SafeEnd(e);
    assert f == [] || SafeEnd(f);
    SafeOrEmpty(f, e);
    SafeOrEmpty(n.whole, f + e);
    SafeOrEmpty(sign, n.whole + (f + e));
  }

  lemma SafeOrEmpty(s: Text, tail: Text)
    requires (s == [] || SafeEnd(s)) && (tail == [] || SafeEnd(tail))
    ensures s + tail == [] || SafeEnd(s + tail)
  {
    if tail == [] { assert s + tail == s; }
  }

  /** No value ends in a backslash. */
  lemma RenderEnd(t: Syntax)
    ensures SafeEnd(Render(t))
  {
    match t
    case TNull =>
    case TFalse =>
    case TTrue =>
    case TNumber(num) => NumberEnd(num);
    case TString(ps) => SafeBehind([QUOTE] + PiecesText(ps), [QUOTE]);
    case TEmptyArray(inside) => SafeBehind([LBRACKET] + GapsText(inside), [RBRACKET]);
    case TEmptyObject(inside) => SafeBehind([LBRACE] + GapsText(inside), [RBRACE]);
    case TArray(first, more) =>
      MoreEnd(more);
      SafeBehind(RenderElem(first), RenderMore(more));
      SafeBehind([LBRACKET], RenderElem(first) + RenderMore(more));
    case TObject(lead, others) =>
      OthersEnd(others);
      SafeBehind(RenderField(lead), RenderOthers(others));
      SafeBehind([LBRACE], RenderField(lead) + RenderOthers(others));
  }

  lemma {:induction false} MoreEnd(es: seq<Elem>)
    ensures SafeEnd(RenderMore(es))
  {
    if es != [] {
      MoreEnd(es[1..]);
      SafeBehind(RenderElem(es[0]), RenderMore(es[1..]));
      SafeBehind([COMMA], RenderElem(es[0]) + RenderMore(es[1..]));
    }
  }

  lemma {:induction false} OthersEnd(fs: seq<Field>)
    ensures SafeEnd(RenderOthers(fs))
  {
    if fs != [] {
      OthersEnd(fs[1..]);
      SafeBehind(RenderField(fs[0]), RenderOthers(fs[1..]));
      SafeBehind([COMMA], RenderField(fs[0]) + RenderOthers(fs[1..]));
    }
  }

  lemma {:induction false} BlanksEnd(gs: seq<Gap>)
    requires AllBlank(GapSet(gs))
    ensures GapsText(gs) == [] || SafeEnd(GapsText(gs))
  {
    if gs != [] {
      assert IsBlank(gs[0]) by { assert gs[0] in GapSet(gs); }
      assert GapSet(gs[1..]) <= GapSet(gs);
      BlanksEnd(gs[1..]);
      if GapsText(gs[1..]) == [] { assert GapsText(gs) == [gs[0].c]; } else { SafeBehind(GapText(gs[0]), GapsText(gs[1..])); }
    }
  }

  /** The parser's two-byte steps stay inside every text of the grammar. */
  lemma DocumentIsSource(lead: seq<Gap>, t: Syntax, trail: seq<Gap>)
    requires AllBlank(GapSet(trail))
    ensures Source(DocumentText(lead, t, GapsText(trail)))
  {
    RenderEnd(t);
    BlanksEnd(trail);
    SafeDocument(GapsText(lead), Render(t), GapsText(trail));
  }

  lemma SafeDocument(lead: Text, s: Text, trail: Text)
    requires SafeEnd(s) && (trail == [] || SafeEnd(trail))
    ensures Source(lead + (s + trail))
  {
    if trail == [] { assert s + trail == s; } else { SafeBehind(s, trail); }
    SafeBehind(lead, s + trail);
  }

  /** Every grammar text is accepted to its end, unless memory runs out; the tree is the one it denotes. */
  method AcceptDocument(heap: Allocator, lead: seq<Gap>, t: Syntax, trail: seq<Gap>) returns (c: Item?, ghost root: Option<Shape>)
    requires AllBlank(GapSet(lead)) && AllBlank(Gaps(t)) && AllBlank(GapSet(trail))
    modifies heap
    ensures c == null ==> heap.denied > old(heap.denied) && heap.live == old(heap.live)
    ensures c != null ==>
              && root.Some? && root.value.item == c && Tree(root.value, View.Plain) && Means(root.value, Meaning(t))
              && Gained(old(heap.live), heap.live, Foot(root.value)) && heap.denied == old(heap.denied)
  {
    var text := DocumentText(lead, t, GapsText(trail));
    DocumentIsSource(lead, t, trail);
    ParseDocument(lead, t, trail, true);
    var r;
    c, r, root := Parser.ParseWithOpts(heap, text, true);
  }

  /** What the text may be for the parser to accept it to its end. */
  ghost predicate Acceptable(text: Text, v: Value) {
    IsDocument(text, v) || IsOpenDocument(text, v)
  }

  /**
   While memory lasts, exactly the documents of the grammar are accepted, and texts that end
   inside a string; the tree is of the value the text has.
   */
  method AcceptExactly(heap: Allocator, text: Text) returns (c: Item?, ghost root: Option<Shape>)
    requires Source(text)
    modifies heap
    ensures heap.denied == old(heap.denied) ==> (c != null <==> exists v :: Acceptable(text, v))
    ensures c != null ==>
              && root.Some? && root.value.item == c && Tree(root.value, View.Plain)
              && exists v :: Acceptable(text, v) && Means(root.value, v)
    ensures c == null ==> heap.live == old(heap.live)
  {
    ghost var d := Parse(text, true);
    forall v ensures d == Parsed(v, []) <==> Acceptable(text, v) { AcceptedIff(text, v); }
    ParsedToEnd(text);
    var r;
    c, r, root := Parser.ParseWithOpts(heap, text, true);
    if c != null { assert Acceptable(text, d.value); }
  }

  lemma ParsedToEnd(text: Text)
    ensures var d := Parse(text, true); d.Parsed? ==> d == Parsed(d.value, [])
  {}

  // ----- Printing trees ---------------------------------------------------------------------

  /** A C string as text. */
  method ReadText(b: array<byte>, ghost t: Text) returns (r: Text)
    requires Holds(b, t)
    ensures r == t
  {
    r := [];
    var i := 0;
    HeldAt(b, t, 0);
    while b[i] != 0
      invariant i <= |t| && r == t[..i] && b[i] == Peek(t, i)
      decreases |t| - i
    {
      r := r + [b[i] as Char];
      i := i + 1;
      HeldAt(b, t, i);
    }
    assert t[..|t|] == t;
  }

  lemma HeldAt(b: array<byte>, t: Text, i: nat)
    requires Holds(b, t) && i <= |t|
    ensures b[i] == Peek(t, i)
  {
    if i < |t| { assert b[..|t|][i] == t[i]; }
  }

  /** print_number tests and prints `valueint`; for a number as parse_number leaves it, that is the truncated double. */
  lemma IntBranch(n: Numeric)
    requires Converted(n)
    ensures (-DBL_EPSILON <= n.valueint as real - n.valuedouble <= DBL_EPSILON && INT_MIN as real <= n.valuedouble <= INT_MAX as real)
            <==> PrintsAsInt(n.valuedouble)
    ensures PrintsAsInt(n.valuedouble) ==> IntToken(Truncate(n.valuedouble)) == IntToken(n.valueint)
  {}

  /** The value of a node and of the chain below it, as the printers read it. */
  method ReadValue(item: Item, ghost t: Shape, ghost v: Value) returns (r: Value)
    requires t.item == item && Tree(t, Follow) && Means(t, v)
    ensures r == v
    decreases t, 1
  {
    assert Body(t, Follow);
    match item.kind
    case NullKind => r := Null;
    case FalseKind => r := False;
    case TrueKind => r := True;
    case NumberKind => r := Number(item.number.valuedouble);
    case StringKind =>
      var s := ReadText(item.valuestring, t.str.value.text.value);
      r := String(s);
    case ArrayKind =>
      var items := ReadItems(item, t, v.items);
      r := Array(items);
    case ObjectKind =>
      var members := ReadMembers(item, t, v.members);
      r := Object(members);
  }

  method ReadItems(item: Item, ghost t: Shape, ghost items: seq<Value>) returns (r: seq<Value>)
    requires t.item == item && Tree(t, Follow) && MeansItems(t.kids, items)
    ensures r == items
    decreases t, 0, 1
  {
    var c := item.child;
    FirstChild(t);
    r := [];
    while c != null
      invariant Tree(t, Follow) && |r| <= |items| == |t.kids| && r == items[..|r|] && c == Nth(Roots(t.kids), |r|)
      decreases |items| - |r|
    {
      var v;
      v, c := ReadNth(c, t, |r|, items);
      OneMore(r, v, items);
      r := r + [v];
    }
    assert items[..|items|] == items;
  }

  lemma OneMore<T>(r: seq<T>, x: T, all: seq<T>)
    requires |r| < |all| && r == all[..|r|] && x == all[|r|]
    ensures r + [x] == all[..|r + [x]|]
  {}

  lemma FirstChild(t: Shape)
    requires Tree(t, Follow)
    ensures t.item.child == Nth(Roots(t.kids), 0) && |Roots(t.kids)| == |t.kids|
  {
    Children(t, Follow);
  }

  /** An item, and the one behind it. */
  method ReadNth(c: Item, ghost t: Shape, ghost i: nat, ghost items: seq<Value>) returns (r: Value, next: Item?)
    requires Tree(t, Follow) && i < |t.kids| && c == Nth(Roots(t.kids), i) && MeansItems(t.kids, items)
    ensures Tree(t, Follow) && r == items[i] && next == Nth(Roots(t.kids), i + 1)
    decreases t, 0, 0
  {
    HereTree(t);
    ChildAt(t, i);
    r := ReadValue(c, t.kids[i], items[i]);
    KeptTree(t, Follow);
    ChildAt(t, i);
    next := c.next;
  }

  method ReadMembers(item: Item, ghost t: Shape, ghost ms: seq<Member>) returns (r: seq<Member>)
    requires t.item == item && Tree(t, Follow) && MeansMembers(t.kids, ms)
    ensures r == ms
    decreases t, 0, 1
  {
    var c := item.child;
    FirstChild(t);
    r := [];
    while c != null
      invariant Tree(t, Follow) && |r| <= |ms| == |t.kids| && r == ms[..|r|] && c == Nth(Roots(t.kids), |r|)
      decreases |ms| - |r|
    {
      var m;
      m, c := ReadNthMember(c, t, |r|, ms);
      OneMore(r, m, ms);
      r := r + [m];
    }
    assert ms[..|ms|] == ms;
  }

  method ReadNthMember(c: Item, ghost t: Shape, ghost i: nat, ghost ms: seq<Member>) returns (r: Member, next: Item?)
    requires Tree(t, Follow) && i < |t.kids| && c == Nth(Roots(t.kids), i) && MeansMembers(t.kids, ms)
    ensures Tree(t, Follow) && r == ms[i] && next == Nth(Roots(t.kids), i + 1)
    decreases t, 0, 0
  {
    HereTree(t);
    ChildAt(t, i);
    r := ReadMember(c, t.kids[i], ms[i]);
    KeptTree(t, Follow);
    ChildAt(t, i);
    next := c.next;
  }

  method ReadMember(c: Item, ghost k: Shape, ghost m: Member) returns (r: Member)
    requires k.item == c && Tree(k, Follow) && Called(k, m.name) && Means(k, m.value)
    ensures r == m
    decreases k, 2
  {
    HereTree(k);
    var name := ReadText(c.name, m.name);
    KeptTree(k, Follow);
    var v := ReadValue(c, k, m.value);
    r := Member(name, v);
  }

  /** cJSON_Print and cJSON_PrintUnformatted of a node tree. */
  method PrintNode(heap: Allocator, item: Item, fmt: bool, fp: FloatText, ghost t: Shape, ghost v: Value) returns (out: array?<byte>)
    requires t.item == item && Tree(t, Follow) && Means(t, v)
    modifies heap
    ensures if out == null then heap.denied > old(heap.denied) else heap.denied == old(heap.denied)
    ensures if out == null then heap.live == old(heap.live)
            else Gained(old(heap.live), heap.live, {out}) && Holds(out, Print(v, 0, fmt, fp))
  {
    var r := ReadValue(item, t, v);
    out := AllocatingPrinter.PrintValue(heap, r, 0, fmt, fp);
  }

  /** cJSON_PrintBuffered of a node tree. */
  method PrintNodeBuffered(heap: Allocator, item: Item, prebuffer: nat, fmt: bool, fp: FloatText, ghost t: Shape, ghost v: Value)
    returns (out: array?<byte>)
    requires t.item == item && Tree(t, Follow) && Means(t, v) && |Print(v, 0, fmt, fp)| + 64 <= LIMIT
    modifies heap
    ensures if out == null then heap.denied > old(heap.denied) else heap.denied == old(heap.denied)
    ensures if out == null then heap.live == old(heap.live)
            else Gained(old(heap.live), heap.live, {out}) && Holds(out, Print(v, 0, fmt, fp))
  {
    var r := ReadValue(item, t, v);
    out := BufferedPrinter.PrintBuffer.PrintBuffered(heap, r, prebuffer, fmt, fp);
  }

  /** A block's bytes up to its terminator. */
  ghost function TextOf(b: array<byte>): Text
    reads b
  {
    UpToNul(b[..])
  }

  lemma HeldText(b: array<byte>, t: Text)
    requires Holds(b, t)
    ensures TextOf(b) == t
  {
    assert b[..][..|t|] == b[..|t|] && b[..][|t|] == b[|t|];
    UpToNulIs(b[..], t);
  }

  /** Both printers and any prebuffer size give the same text. */
  method PrintBothWays(heap: Allocator, item: Item, prebuffer: nat, fmt: bool, fp: FloatText, ghost t: Shape, ghost v: Value)
    returns (plain: array?<byte>, buffered: array?<byte>)
    requires t.item == item && Tree(t, Follow) && Means(t, v) && |Print(v, 0, fmt, fp)| + 64 <= LIMIT
    modifies heap
    ensures heap.denied == old(heap.denied) ==> plain != null && buffered != null
    ensures plain != null && buffered != null ==> TextOf(plain) == TextOf(buffered)
  {
    HereTree(t);
    plain := PrintNode(heap, item, fmt, fp, t, v);
    KeptTree(t, Follow);
    buffered := PrintNodeBuffered(heap, item, prebuffer, fmt, fp, t, v);
    if plain != null && buffered != null {
      HeldText(plain, Print(v, 0, fmt, fp));
      HeldText(buffered, Print(v, 0, fmt, fp));
    }
  }

  /** A tree of C ints that is printed and parsed again is a tree of the same value. */
  method Reparse(heap: Allocator, v: Value, fmt: bool, fp: FloatText) returns (c: Item?, ghost root: Option<Shape>)
    requires CInts(v)
    modifies heap
    ensures c == null ==> heap.denied > old(heap.denied) && heap.live == old(heap.live)
    ensures c != null ==>
              && root.Some? && root.value.item == c && Tree(root.value, View.Plain) && Means(root.value, v)
              && Gained(old(heap.live), heap.live, Foot(root.value))
  {
    ghost var t := PrintTree(v, 0, fmt, fp);
    PrintTreeText(v, 0, fmt, fp);
    PrintTreeMeaning(v, 0, fmt, fp);
    PrintTreeGaps(v, 0, fmt, fp);
    CIntsExact(v, fp);
    RereadIffExact(v, fp);
    DocumentIsSource([], t, []);
    ParseDocument([], t, [], true);
    var text := Print(v, 0, fmt, fp);
    assert DocumentText([], t, GapsText([])) == text;
    var r;
    c, r, root := Parser.ParseWithOpts(heap, text, true);
  }

  /** A deep copy prints as the original does, and shares none of its blocks. */
  method PrintCopy(heap: Allocator, item: Item, fmt: bool, fp: FloatText, ghost t: Shape, ghost v: Value)
    returns (copy: Item?, out: array?<byte>, ghost d: Shape)
    requires t.item == item && Tree(t, Follow) && Complete(t) && Means(t, v) && Foot(t) <= heap.live
    modifies heap
    ensures copy == null ==> out == null && heap.live == old(heap.live)
    ensures copy != null ==>
              && d.item == copy && Foot(d) !! Foot(t) && Means(d, v) && Tree(d, View.Plain) && Sep(d)
              && Gained(old(heap.live), heap.live, Foot(d) + if out == null then {} else {out})
    ensures out != null ==> Holds(out, Print(v, 0, fmt, fp))
    ensures if out == null then heap.denied > old(heap.denied) else heap.denied == old(heap.denied)
  {
    out := null;
    ghost var base := heap.live;
    copy, d := Duplication.Duplicate(heap, item, true, t);
    if copy != null {
      CopyMeans(d, t, v);
      out := PrintBeside(heap, copy, fmt, fp, d, v, base);
    }
  }

  /** A fresh tree is printed and stays as it is. */
  method PrintBeside(heap: Allocator, item: Item, fmt: bool, fp: FloatText, ghost d: Shape, ghost v: Value, ghost base: set<object>)
    returns (out: array?<byte>)
    requires d.item == item && Tree(d, View.Plain) && Means(d, v) && Gained(base, heap.live, Foot(d))
    modifies heap
    ensures Tree(d, View.Plain) && Gained(base, heap.live, Foot(d) + if out == null then {} else {out})
    ensures out != null ==> Holds(out, Print(v, 0, fmt, fp))
    ensures if out == null then heap.denied > old(heap.denied) else heap.denied == old(heap.denied)
  {
    PlainTree(d);
    HereTree(d);
    ghost var mid := heap.live;
    out := PrintNode(heap, item, fmt, fp, d, v);
    KeptTree(d, View.Plain);
    GainedBoth(base, mid, heap.live, Foot(d), if out == null then {} else {out});
  }

  /** A reference, as the two operations that add one leave it, prints as the item it shares with. */
  method PrintReference(heap: Allocator, ref: Item, fmt: bool, fp: FloatText, ghost ks: seq<Shape>, ghost s: Shape, ghost v: Value)
    returns (out: array?<byte>)
    requires ks != [] && ref == ks[|ks| - 1].item && Shares(ks, s) && Means(s, v)
    modifies heap
    ensures if out == null then heap.denied > old(heap.denied) else heap.denied == old(heap.denied)
    ensures if out == null then heap.live == old(heap.live)
            else Gained(old(heap.live), heap.live, {out}) && Holds(out, Print(v, 0, fmt, fp))
  {
    ghost var r := s.(item := ref, name := ks[|ks| - 1].name);
    SharesMeaning(s, ref, ks[|ks| - 1].name, v);
    out := PrintNode(heap, ref, fmt, fp, r, v);
  }
}
