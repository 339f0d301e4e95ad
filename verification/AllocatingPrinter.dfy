/** The allocating printer of src/cJSON.c: a block for every part, joined into a block of computed size. */
module AllocatingPrinter {
  import opened Bytes
  import opened Json
  import opened Grammar
  import opened JsonPrint
  import opened Allocation
  import opened TextBlocks
  import opened BufferedPrinter

  method PrintNumber(heap: Allocator, d: real, fp: FloatText) returns (out: array?<byte>)
    modifies heap
    ensures out == null ==> heap.live == old(heap.live) && heap.denied > old(heap.denied)
    ensures out != null ==> fresh(out) && heap.live == old(heap.live) + {out} && heap.denied == old(heap.denied) && Holds(out, NumText(NumberToken(d, fp)))
  {
    NumberFits(d, fp);
    out := heap.Malloc(if d == 0.0 then 2 else if PrintsAsInt(d) then 21 else 64);
    if out != null {
      var ptr := Put(out, 0, NumText(NumberToken(d, fp)));
      out[ptr] := 0;
    }
  }

  /** Both paths fill the block to its last byte. */
  method PrintStringPtr(heap: Allocator, s: Text) returns (out: array?<byte>)
    modifies heap
    ensures out == null ==> heap.live == old(heap.live) && heap.denied > old(heap.denied)
    ensures out != null ==> fresh(out) && heap.live == old(heap.live) + {out} && heap.denied == old(heap.denied) && Holds(out, PrintString(s))
    ensures out != null ==> out.Length == |PrintString(s)| + 1
  {
    var flag := NeedsEscape(s);
    var len := |s|;
    if flag { len := EscapedLength(s); }
    out := heap.Malloc(len + 3);
    if out != null {
      var ptr := PutString(out, 0, s, flag);
    }
  }

  // ----- Partial results --------------------------------------------------------

  ghost function Objects(held: seq<array<byte>>): set<object> {
    set k | 0 <= k < |held| :: held[k]
  }

  lemma ObjectsAppend(held: seq<array<byte>>, b: array<byte>)
    ensures Objects(held + [b]) == Objects(held) + {b}
  {
    var more := held + [b];
    assert more[|held|] == b && forall k | 0 <= k < |held| :: more[k] == held[k];
  }

  lemma ObjectsDrop(held: seq<array<byte>>, i: nat)
    requires i < |held| && forall j, k | 0 <= j < k < |held| :: held[j] != held[k]
    ensures Objects(held[i..]) == {held[i]} + Objects(held[i + 1..])
    ensures held[i] !in Objects(held[i + 1..])
  {
    var s, t := held[i..], held[i + 1..];
    assert s[0] == held[i] && forall k | 0 <= k < |t| :: t[k] == s[k + 1] == held[i + 1 + k];
    assert forall k | 0 < k < |s| :: s[k] == t[k - 1];
  }

  /** The blocks a pointer array holds: distinct, and none of the older ones. */
  ghost predicate Holding(entries: array<array?<byte>>, held: seq<array<byte>>, older: set<object>)
    reads entries
  {
    && |held| <= entries.Length && Distinct(held, older)
    && (forall k | 0 <= k < |held| :: entries[k] == held[k])
    && (forall k | |held| <= k < entries.Length :: entries[k] == null)
  }

  ghost predicate Distinct(held: seq<array<byte>>, older: set<object>) {
    && (forall k | 0 <= k < |held| :: held[k] !in older)
    && (forall j, k | 0 <= j < k < |held| :: held[j] != held[k])
  }

  ghost predicate HoldTexts(held: seq<array<byte>>, texts: seq<Text>)
    reads held
  {
    |held| == |texts| && forall k | 0 <= k < |held| :: Holds(held[k], texts[k])
  }

  function ItemTexts(items: seq<Value>, depth: nat, fmt: bool, fp: FloatText): (texts: seq<Text>)
    ensures |texts| == |items| && forall i | 0 <= i < |items| :: texts[i] == Print(items[i], depth, fmt, fp)
  {
    seq(|items|, i requires 0 <= i < |items| => Print(items[i], depth, fmt, fp))
  }

  /** The lengths of the texts and `extra` bytes for each. */
  function Room(texts: seq<Text>, extra: nat): nat {
    if texts == [] then 0 else Room(texts[..|texts| - 1], extra) + |texts[|texts| - 1]| + extra
  }

  lemma RoomAppend(texts: seq<Text>, t: Text, extra: nat)
    ensures Room(texts + [t], extra) == Room(texts, extra) + |t| + extra
  {
    assert (texts + [t])[..|texts|] == texts;
  }

  /** What the array loop counts beyond the text: a byte an item, and one separator too many. */
  function ArraySlack(n: nat, fmt: bool): nat {
    if n == 0 then 0 else n + 1 + if fmt then 1 else 0
  }

  lemma {:induction false} ItemsRoomExact(items: seq<Value>, n: nat, depth: nat, fmt: bool, fp: FloatText)
    requires n <= |items|
    ensures |PrintItems(items[n..], depth, fmt, fp)| + Room(ItemTexts(items, depth, fmt, fp)[..n], if fmt then 3 else 2)
              + ArraySlack(|items| - n, fmt)
         == Room(ItemTexts(items, depth, fmt, fp), if fmt then 3 else 2)
    decreases |items| - n
  {
    var texts := ItemTexts(items, depth, fmt, fp);
    if n < |items| {
      ItemsRoomExact(items, n + 1, depth, fmt, fp);
      ItemTail(items, n, depth, fmt, fp, []);
      PrefixStep(texts, n);
      RoomAppend(texts[..n], texts[n], if fmt then 3 else 2);
    } else {
      assert texts[..n] == texts;
    }
  }

  lemma PrefixStep(texts: seq<Text>, i: nat)
    requires i < |texts|
    ensures texts[..i + 1] == texts[..i] + [texts[i]]
  {}

  /** entries[i]=ret, and its strlen if there is one. */
  method StoreEntry(entries: array<array?<byte>>, ret: array?<byte>, ghost t: Text, ghost held: seq<array<byte>>, ghost texts: seq<Text>,
                    ghost older: set<object>, i: nat)
    returns (n: nat, ghost held': seq<array<byte>>)
    requires Holding(entries, held, older) && HoldTexts(held, texts) && |held| == i < entries.Length && entries in older
    requires ret != null ==> Holds(ret, t) && ret !in older && ret !in Objects(held)
    modifies entries
    ensures Holding(entries, held', older) && HoldTexts(held', if ret == null then texts else texts + [t])
    ensures held' == if ret == null then held else held + [ret]
    ensures Objects(held') == Objects(held) + if ret == null then {} else {ret}
    ensures ret != null ==> n == |t|
  {
    n, held' := 0, held;
    entries[i] := ret;
    if ret != null {
      assert forall k | 0 <= k < |held| :: held[k] in Objects(held);
      n := StrLen(ret, 0, t);
      held' := held + [ret];
      ObjectsAppend(held, ret);
    }
  }

  lemma HeldAt(held: seq<array<byte>>, texts: seq<Text>, i: nat)
    requires HoldTexts(held, texts) && i < |held|
    ensures Holds(held[i], texts[i])
  {}

  method PrintValue(heap: Allocator, v: Value, depth: nat, fmt: bool, fp: FloatText) returns (out: array?<byte>)
    modifies heap
    ensures out == null ==> heap.live == old(heap.live) && heap.denied > old(heap.denied)
    ensures out != null ==> fresh(out) && heap.live == old(heap.live) + {out} && heap.denied == old(heap.denied) && Holds(out, Print(v, depth, fmt, fp))
    decreases v, 1
  {
    match v
    case Null => out := StrDup(heap, NULL_TEXT);
    case False => out := StrDup(heap, FALSE_TEXT);
    case True => out := StrDup(heap, TRUE_TEXT);
    case Number(d) => out := PrintNumber(heap, d, fp);
    case String(s) => out := PrintStringPtr(heap, s);
    case Array(items) => out := PrintArray(heap, items, depth, fmt, fp);
    case Object(members) => out := PrintObject(heap, members, depth, fmt, fp);
  }

  method PrintArray(heap: Allocator, items: seq<Value>, depth: nat, fmt: bool, fp: FloatText) returns (out: array?<byte>)
    modifies heap
    ensures out == null ==> heap.live == old(heap.live) && heap.denied > old(heap.denied)
    ensures out != null ==>
              fresh(out) && heap.live == old(heap.live) + {out} && heap.denied == old(heap.denied) && Holds(out, Print(Array(items), depth, fmt, fp))
    ensures out != null && items != [] ==> out.Length == |Print(Array(items), depth, fmt, fp)| + 3 + ArraySlack(|items|, fmt)
    decreases items, 1
  {
    if items == [] {
      out := StrDup(heap, [LBRACKET, RBRACKET]);
      assert Print(Array(items), depth, fmt, fp) == [LBRACKET, RBRACKET];
      return;
    }
    var entries := heap.MallocPointers(|items|);
    if entries == null { return null; }
    out := JoinItems(heap, items, depth, fmt, fp, entries);
    heap.Free(entries);
  }

  /** From the first array loop to the second, with the recovery between them. */
  method JoinItems(heap: Allocator, items: seq<Value>, depth: nat, fmt: bool, fp: FloatText, entries: array<array?<byte>>)
    returns (out: array?<byte>)
    requires items != [] && entries.Length == |items| && entries in heap.live
    requires forall k | 0 <= k < |items| :: entries[k] == null
    modifies heap, entries
    ensures out == null ==> heap.live == old(heap.live) && heap.denied > old(heap.denied)
    ensures out != null ==>
              fresh(out) && heap.live == old(heap.live) + {out} && heap.denied == old(heap.denied) && Holds(out, Print(Array(items), depth, fmt, fp))
    ensures out != null ==> out.Length == |Print(Array(items), depth, fmt, fp)| + 3 + ArraySlack(|items|, fmt)
    decreases items, 0, 1
  {
    ghost var base := heap.live;
    var fail, len;
    ghost var held;
    fail, len, held := CollectItems(heap, items, depth + 1, fmt, fp, entries);
    out := null;
    if !fail {
      out := heap.Malloc(len);
      if out == null { fail := true; }
    }
    if fail {
      FreeEntries(heap, entries, held, base);
      return null;
    }
    assert forall k | 0 <= k < |held| :: held[k] in Objects(held);
    ArrayRoom(items, depth, fmt, fp);
    ComposeItems(heap, items, depth + 1, fmt, fp, entries, held, base + {out}, out);
  }

  lemma ArrayRoom(items: seq<Value>, depth: nat, fmt: bool, fp: FloatText)
    ensures Print(Array(items), depth, fmt, fp) == [LBRACKET] + PrintItems(items, depth + 1, fmt, fp) + [RBRACKET]
    ensures 2 + Room(ItemTexts(items, depth + 1, fmt, fp), if fmt then 3 else 2)
         == |Print(Array(items), depth, fmt, fp)| + ArraySlack(|items|, fmt)
  {
    ItemsRoomExact(items, 0, depth + 1, fmt, fp);
    assert items[0..] == items;
  }

  /** The first array loop; it stops behind the first part that cannot be printed. */
  method CollectItems(heap: Allocator, items: seq<Value>, depth: nat, fmt: bool, fp: FloatText, entries: array<array?<byte>>)
    returns (fail: bool, len: nat, ghost held: seq<array<byte>>)
    requires entries.Length == |items| && entries in heap.live && forall k | 0 <= k < |items| :: entries[k] == null
    modifies heap, entries
    ensures Holding(entries, held, old(heap.live)) && heap.live == old(heap.live) + Objects(held)
    ensures if fail then heap.denied > old(heap.denied) else heap.denied == old(heap.denied)
    ensures !fail ==> HoldTexts(held, ItemTexts(items, depth, fmt, fp))
    ensures !fail ==> len == 5 + Room(ItemTexts(items, depth, fmt, fp), if fmt then 3 else 2)
    decreases items, 0, 0
  {
    ghost var texts := ItemTexts(items, depth, fmt, fp);
    ghost var base := heap.live;
    fail, len, held := false, 5, [];
    var i := 0;
    while i < |items| && !fail
      invariant i <= |items| && Holding(entries, held, base) && heap.live == base + Objects(held)
      invariant if fail then heap.denied > old(heap.denied) else heap.denied == old(heap.denied)
      invariant |held| <= |texts| && HoldTexts(held, texts[..|held|])
      invariant !fail ==> |held| == i && len == 5 + Room(texts[..i], if fmt then 3 else 2)
    {
      PrefixStep(texts, i);
      RoomAppend(texts[..i], texts[i], if fmt then 3 else 2);
      var ret, n;
      ret, n, held := CollectItem(heap, items[i], depth, fmt, fp, entries, i, held, texts[..i], base);
      if ret != null {
        len := len + n + 2 + if fmt then 1 else 0;
      } else {
        fail := true;
      }
      i := i + 1;
    }
    assert !fail ==> texts[..i] == texts;
  }

  method CollectItem(heap: Allocator, v: Value, depth: nat, fmt: bool, fp: FloatText, entries: array<array?<byte>>, i: nat,
                     ghost held: seq<array<byte>>, ghost texts: seq<Text>, ghost base: set<object>)
    returns (ret: array?<byte>, n: nat, ghost held': seq<array<byte>>)
    requires Holding(entries, held, base) && heap.live == base + Objects(held) && entries in base
    requires HoldTexts(held, texts) && |held| == i < entries.Length
    modifies heap, entries
    ensures Holding(entries, held', base) && heap.live == base + Objects(held')
    ensures if ret == null then heap.denied > old(heap.denied) else heap.denied == old(heap.denied)
    ensures held' == (if ret == null then held else held + [ret]) && (ret != null ==> n == |Print(v, depth, fmt, fp)|)
    ensures HoldTexts(held', if ret == null then texts else texts + [Print(v, depth, fmt, fp)])
    decreases v, 2
  {
    ret := PrintValue(heap, v, depth, fmt, fp);
    n, held' := StoreEntry(entries, ret, Print(v, depth, fmt, fp), held, texts, base, i);
  }

  method FreeEntries(heap: Allocator, entries: array<array?<byte>>, ghost held: seq<array<byte>>, ghost base: set<object>)
    requires Holding(entries, held, base) && heap.live == base + Objects(held)
    modifies heap
    ensures heap.denied == old(heap.denied)
    ensures heap.live == base
  {
    var i := 0;
    assert held[0..] == held;
    while i < entries.Length
      invariant i <= entries.Length
      invariant heap.denied == old(heap.denied) && heap.live == base + if i <= |held| then Objects(held[i..]) else {}
    {
      if entries[i] != null {
        ObjectsDrop(held, i);
        heap.Free(entries[i]);
        assert held[i] !in Objects(held[i + 1..]);
      }
      i := i + 1;
    }
  }

  /** The second array loop, and the brackets around it. */
  method ComposeItems(heap: Allocator, items: seq<Value>, depth: nat, fmt: bool, fp: FloatText, entries: array<array?<byte>>,
                      ghost held: seq<array<byte>>, ghost base: set<object>, out: array<byte>)
    requires items != [] && entries.Length == |items| == |held| && Holding(entries, held, base)
    requires heap.live == base + Objects(held) && out in base && out !in held
    requires HoldTexts(held, ItemTexts(items, depth, fmt, fp))
    requires out.Length >= 5 + |PrintItems(items, depth, fmt, fp)|
    modifies heap, out
    ensures heap.denied == old(heap.denied)
    ensures heap.live == base && Holds(out, [LBRACKET] + PrintItems(items, depth, fmt, fp) + [RBRACKET])
  {
    var ptr := Start(out, [LBRACKET]);
    ptr := ComposeAllItems(heap, items, depth, fmt, fp, entries, held, base, out, ptr, [LBRACKET]);
    ptr := Put(out, ptr, [RBRACKET]);
    out[ptr] := 0;
  }

  /** Every part is copied, then freed. */
  method ComposeAllItems(heap: Allocator, items: seq<Value>, depth: nat, fmt: bool, fp: FloatText, entries: array<array?<byte>>,
                         ghost held: seq<array<byte>>, ghost base: set<object>, out: array<byte>, at: nat, ghost head: Text)
    returns (ptr: nat)
    requires entries.Length == |items| == |held| && Holding(entries, held, base)
    requires heap.live == base + Objects(held) && out !in held
    requires HoldTexts(held, ItemTexts(items, depth, fmt, fp))
    requires at == |head| && at + |PrintItems(items, depth, fmt, fp)| < out.Length && out[..at] == head
    modifies heap, out
    ensures heap.denied == old(heap.denied)
    ensures heap.live == base && ptr == at + |PrintItems(items, depth, fmt, fp)|
    ensures out[..ptr] == head + PrintItems(items, depth, fmt, fp)
  {
    ghost var cur := head;
    ghost var whole := cur + PrintItems(items, depth, fmt, fp);
    ptr := at;
    var i := 0;
    assert items[0..] == items && held[0..] == held;
    while i < |items|
      invariant i <= |items| && ptr == |cur| <= |whole| && out[..ptr] == cur
      invariant cur + PrintItems(items[i..], depth, fmt, fp) == whole
      invariant heap.denied == old(heap.denied) && heap.live == base + Left(held, i)
      invariant HoldTexts(held, ItemTexts(items, depth, fmt, fp))
    {
      HeldAt(held, ItemTexts(items, depth, fmt, fp), i);
      ptr := ComposeNthItem(heap, items, i, depth, fmt, fp, entries, held, base, out, ptr, cur, whole);
      cur := WithItem(cur, items[i], i + 1 < |items|, depth, fmt, fp);
      i := i + 1;
    }
    assert items[i..] == [] && cur + [] == cur;
    LeftStep(held, i);
  }

  method ComposeNthItem(heap: Allocator, items: seq<Value>, i: nat, depth: nat, fmt: bool, fp: FloatText, entries: array<array?<byte>>,
                        ghost held: seq<array<byte>>, ghost base: set<object>, out: array<byte>, at: nat, ghost cur: Text, ghost whole: Text)
    returns (ptr: nat)
    requires i < entries.Length == |items| == |held| && Holding(entries, held, base) && heap.live == base + Left(held, i)
    requires out != held[i] && Holds(held[i], Print(items[i], depth, fmt, fp))
    requires at == |cur| <= |whole| < out.Length && out[..at] == cur && cur + PrintItems(items[i..], depth, fmt, fp) == whole
    modifies heap, out
    ensures heap.denied == old(heap.denied)
    ensures heap.live == base + Left(held, i + 1)
    ensures WithItem(cur, items[i], i + 1 < |items|, depth, fmt, fp) + PrintItems(items[i + 1..], depth, fmt, fp) == whole
    ensures ptr == |WithItem(cur, items[i], i + 1 < |items|, depth, fmt, fp)| <= |whole|
    ensures out[..ptr] == WithItem(cur, items[i], i + 1 < |items|, depth, fmt, fp)
  {
    ItemTail(items, i, depth, fmt, fp, cur);
    LeftStep(held, i);
    ptr := ComposeItem(out, at, entries[i], items[i], i != |items| - 1, depth, fmt, fp, cur);
    heap.Free(entries[i]);
  }

  method ComposeItem(out: array<byte>, at: nat, entry: array<byte>, v: Value, more: bool, depth: nat, fmt: bool, fp: FloatText, ghost cur: Text)
    returns (ptr: nat)
    requires out != entry && Holds(entry, Print(v, depth, fmt, fp))
    requires at == |cur| && |WithItem(cur, v, more, depth, fmt, fp)| < out.Length && out[..at] == cur
    modifies out
    ensures ptr == |WithItem(cur, v, more, depth, fmt, fp)| && out[..ptr] == WithItem(cur, v, more, depth, fmt, fp)
  {
    ghost var t := cur + Print(v, depth, fmt, fp);
    ptr := PutBlock(out, at, entry, Print(v, depth, fmt, fp));
    assert t + [] == t;
    if more {
      ptr := Put(out, ptr, ItemGap(true, fmt));
      out[ptr] := 0;
    }
  }

  /** memcpy of a part, by its strlen. */
  method PutBlock(out: array<byte>, at: nat, b: array<byte>, ghost t: Text) returns (ptr: nat)
    requires out != b && Holds(b, t) && at + |t| <= out.Length
    modifies out
    ensures ptr == at + |t| && out[..ptr] == old(out[..at]) + t
  {
    var n := StrLen(b, 0, t);
    var i := 0;
    while i < n
      invariant i <= n && out[..at + i] == old(out[..at]) + t[..i]
    {
      out[at + i] := b[i];
      i := i + 1;
      assert t[..i] == t[..i - 1] + [t[i - 1]];
      assert out[..at + i] == out[..at + i - 1] + [out[at + i - 1]];
      assert b[i - 1] == b[..|t|][i - 1];
    }
    ptr := at + n;
    assert t[..n] == t;
  }

  // ----- Objects ------------------------------------------------------------------

  function NameTexts(ms: seq<Member>): (texts: seq<Text>)
    ensures |texts| == |ms| && forall i | 0 <= i < |ms| :: texts[i] == PrintString(ms[i].name)
  {
    seq(|ms|, i requires 0 <= i < |ms| => PrintString(ms[i].name))
  }

  function ValueTexts(ms: seq<Member>, depth: nat, fmt: bool, fp: FloatText): (texts: seq<Text>)
    ensures |texts| == |ms| && forall i | 0 <= i < |ms| :: texts[i] == Print(ms[i].value, depth, fmt, fp)
  {
    seq(|ms|, i requires 0 <= i < |ms| => Print(ms[i].value, depth, fmt, fp))
  }

  /** What the object loop adds for a member besides its two texts. */
  function MemberExtra(depth: nat, fmt: bool): nat {
    2 + if fmt then 2 + depth else 0
  }

  function MembersRoom(ms: seq<Member>, n: nat, depth: nat, fmt: bool, fp: FloatText): nat
    requires n <= |ms|
  {
    Room(NameTexts(ms)[..n], 0) + Room(ValueTexts(ms, depth, fmt, fp)[..n], MemberExtra(depth, fmt))
  }

  lemma MembersRoomStep(ms: seq<Member>, n: nat, depth: nat, fmt: bool, fp: FloatText)
    requires n < |ms|
    ensures MembersRoom(ms, n + 1, depth, fmt, fp) == MembersRoom(ms, n, depth, fmt, fp)
              + |PrintString(ms[n].name)| + |Print(ms[n].value, depth, fmt, fp)| + MemberExtra(depth, fmt)
  {
    var names, values := NameTexts(ms), ValueTexts(ms, depth, fmt, fp);
    assert names[..n + 1] == names[..n] + [names[n]] && values[..n + 1] == values[..n] + [values[n]];
    RoomAppend(names[..n], names[n], 0);
    RoomAppend(values[..n], values[n], MemberExtra(depth, fmt));
  }

  /** The loop counts the members' text exactly, but for a comma behind the last. */
  lemma {:induction false} MembersRoomExact(ms: seq<Member>, n: nat, depth: nat, fmt: bool, fp: FloatText)
    requires n <= |ms|
    ensures |PrintMembers(ms[n..], depth, fmt, fp)| + MembersRoom(ms, n, depth, fmt, fp) + (if n < |ms| then 1 else 0)
         == MembersRoom(ms, |ms|, depth, fmt, fp)
    decreases |ms| - n
  {
    if n < |ms| {
      MembersRoomExact(ms, n + 1, depth, fmt, fp);
      MembersRoomStep(ms, n, depth, fmt, fp);
      MemberTail(ms, n, depth, fmt, fp, []);
    }
  }

  /** Two pointer arrays over the same older blocks, holding different blocks. */
  ghost predicate HoldingBoth(names: array<array?<byte>>, entries: array<array?<byte>>, hn: seq<array<byte>>, he: seq<array<byte>>,
                              older: set<object>)
    reads names, entries
  {
    && names != entries && names in older && entries in older
    && Holding(names, hn, older) && Holding(entries, he, older) && Objects(hn) !! Objects(he)
  }

  method PrintObject(heap: Allocator, members: seq<Member>, depth: nat, fmt: bool, fp: FloatText) returns (out: array?<byte>)
    modifies heap
    ensures out == null ==> heap.live == old(heap.live) && heap.denied > old(heap.denied)
    ensures out != null ==>
              fresh(out) && heap.live == old(heap.live) + {out} && heap.denied == old(heap.denied) && Holds(out, Print(Object(members), depth, fmt, fp))
    ensures out != null && members != [] ==> out.Length == |Print(Object(members), depth, fmt, fp)| + 6
    decreases members, 1
  {
    if members == [] {
      out := heap.Malloc(if fmt then depth + 4 else 3);
      if out == null { return; }
      var text := [LBRACE] + If(fmt, [LF] + Tabs(depth)) + [RBRACE];
      assert Print(Object([]), depth, fmt, fp) == text;
      var ptr := Put(out, 0, text);
      out[ptr] := 0;
      return;
    }
    var entries := heap.MallocPointers(|members|);
    if entries == null { return null; }
    var names := heap.MallocPointers(|members|);
    if names == null {
      heap.Free(entries);
      return null;
    }
    out := JoinMembers(heap, members, depth, fmt, fp, names, entries);
    heap.Free(names);
    heap.Free(entries);
  }

  /** From the first object loop to the second, with the recovery between them. */
  method JoinMembers(heap: Allocator, members: seq<Member>, depth: nat, fmt: bool, fp: FloatText,
                     names: array<array?<byte>>, entries: array<array?<byte>>)
    returns (out: array?<byte>)
    requires members != [] && names.Length == entries.Length == |members|
    requires names != entries && names in heap.live && entries in heap.live
    requires forall k | 0 <= k < |members| :: names[k] == null && entries[k] == null
    modifies heap, names, entries
    ensures out == null ==> heap.live == old(heap.live) && heap.denied > old(heap.denied)
    ensures out != null ==>
              fresh(out) && heap.live == old(heap.live) + {out} && heap.denied == old(heap.denied) && Holds(out, Print(Object(members), depth, fmt, fp))
    ensures out != null ==> out.Length == |Print(Object(members), depth, fmt, fp)| + 6
    decreases members, 0, 1
  {
    ghost var base := heap.live;
    ghost var hn, he;
    out, hn, he := CollectObject(heap, members, depth, fmt, fp, names, entries);
    if out != null { ComposeObject(heap, members, depth, fmt, fp, names, entries, hn, he, base, out); }
  }

  /** The parts and a block for the whole; without one the parts are freed again. */
  method CollectObject(heap: Allocator, members: seq<Member>, depth: nat, fmt: bool, fp: FloatText,
                       names: array<array?<byte>>, entries: array<array?<byte>>)
    returns (out: array?<byte>, ghost hn: seq<array<byte>>, ghost he: seq<array<byte>>)
    requires members != [] && names.Length == entries.Length == |members|
    requires names != entries && names in heap.live && entries in heap.live
    requires forall k | 0 <= k < |members| :: names[k] == null && entries[k] == null
    modifies heap, names, entries
    ensures out == null ==> heap.live == old(heap.live) && heap.denied > old(heap.denied)
    ensures out != null ==>
              && fresh(out) && HoldingBoth(names, entries, hn, he, old(heap.live)) && |hn| == |he| == |members|
              && HoldTexts(hn, NameTexts(members)) && HoldTexts(he, ValueTexts(members, depth + 1, fmt, fp))
              && heap.live == old(heap.live) + Objects(hn) + Objects(he) + {out} && out !in Objects(hn) && out !in Objects(he)
              && heap.denied == old(heap.denied) && out.Length == |Print(Object(members), depth, fmt, fp)| + 6
    decreases members, 0, 0, 1
  {
    ghost var base := heap.live;
    var fail, len;
    fail, len, hn, he := CollectMembers(heap, members, depth + 1, fmt, fp, names, entries);
    if fail {
      FreeBoth(heap, names, entries, hn, he, base);
      return null, hn, he;
    }
    ObjectRoom(members, depth, fmt, fp);
    out := AllocateWhole(heap, len, names, entries, hn, he, NameTexts(members), ValueTexts(members, depth + 1, fmt, fp), base);
  }

  /** The block for the whole, beside its parts; without it they are freed. */
  method AllocateWhole(heap: Allocator, len: nat, names: array<array?<byte>>, entries: array<array?<byte>>,
                       ghost hn: seq<array<byte>>, ghost he: seq<array<byte>>, ghost nt: seq<Text>, ghost vt: seq<Text>, ghost base: set<object>)
    returns (out: array?<byte>)
    requires HoldingBoth(names, entries, hn, he, base) && names.Length == entries.Length
    requires heap.live == base + Objects(hn) + Objects(he) && HoldTexts(hn, nt) && HoldTexts(he, vt)
    modifies heap
    ensures out == null ==> heap.live == base && heap.denied > old(heap.denied)
    ensures out != null ==>
              && fresh(out) && out.Length == len && out !in Objects(hn) && out !in Objects(he)
              && heap.live == base + Objects(hn) + Objects(he) + {out} && heap.denied == old(heap.denied)
    ensures HoldTexts(hn, nt) && HoldTexts(he, vt)
  {
    out := heap.Malloc(len);
    if out == null { FreeBoth(heap, names, entries, hn, he, base); }
  }

  method ComposeObject(heap: Allocator, members: seq<Member>, depth: nat, fmt: bool, fp: FloatText,
                       names: array<array?<byte>>, entries: array<array?<byte>>,
                       ghost hn: seq<array<byte>>, ghost he: seq<array<byte>>, ghost base: set<object>, out: array<byte>)
    requires members != [] && names.Length == entries.Length == |members| == |hn| == |he|
    requires HoldingBoth(names, entries, hn, he, base) && heap.live == base + Objects(hn) + Objects(he) + {out}
    requires HoldTexts(hn, NameTexts(members)) && HoldTexts(he, ValueTexts(members, depth + 1, fmt, fp))
    requires out !in Objects(hn) && out !in Objects(he) && out.Length > |Print(Object(members), depth, fmt, fp)|
    modifies heap, out
    ensures heap.denied == old(heap.denied)
    ensures heap.live == base + {out} && Holds(out, Print(Object(members), depth, fmt, fp))
  {
    ObjectRoom(members, depth, fmt, fp);
    HoldingWith(names, entries, hn, he, base, out);
    ComposeMembers(heap, members, depth + 1, fmt, fp, names, entries,
                   [LBRACE] + If(fmt, [LF]), If(fmt, Tabs(depth)) + [RBRACE], hn, he, base + {out}, out);
  }

  lemma HoldingWith(names: array<array?<byte>>, entries: array<array?<byte>>, hn: seq<array<byte>>, he: seq<array<byte>>,
                    older: set<object>, out: array<byte>)
    requires HoldingBoth(names, entries, hn, he, older) && out !in Objects(hn) && out !in Objects(he)
    ensures HoldingBoth(names, entries, hn, he, older + {out})
    ensures out !in hn && out !in he
  {
    assert forall k | 0 <= k < |hn| :: hn[k] in Objects(hn);
    assert forall k | 0 <= k < |he| :: he[k] in Objects(he);
  }

  lemma ObjectRoom(members: seq<Member>, depth: nat, fmt: bool, fp: FloatText)
    requires members != []
    ensures Print(Object(members), depth, fmt, fp)
         == [LBRACE] + If(fmt, [LF]) + PrintMembers(members, depth + 1, fmt, fp) + (If(fmt, Tabs(depth)) + [RBRACE])
    ensures 7 + (if fmt then depth + 1 else 0) + MembersRoom(members, |members|, depth + 1, fmt, fp)
         == |Print(Object(members), depth, fmt, fp)| + 6
  {
    var whole, body := Print(Object(members), depth, fmt, fp), PrintMembers(members, depth + 1, fmt, fp);
    ObjectStart(members, depth, fmt, fp, []);
    assert [] + whole == whole && [] + ([LBRACE] + If(fmt, [LF])) == [LBRACE] + If(fmt, [LF]);
    MembersRoomAll(members, depth + 1, fmt, fp);
    RoomSum(whole, body, depth, fmt);
  }

  lemma RoomSum(whole: Text, body: Text, depth: nat, fmt: bool)
    requires whole == [LBRACE] + If(fmt, [LF]) + body + (If(fmt, Tabs(depth)) + [RBRACE])
    ensures |whole| == |body| + 2 + if fmt then depth + 1 else 0
  {}

  lemma MembersRoomAll(ms: seq<Member>, depth: nat, fmt: bool, fp: FloatText)
    requires ms != []
    ensures MembersRoom(ms, |ms|, depth, fmt, fp) == |PrintMembers(ms, depth, fmt, fp)| + 1
  {
    MembersRoomExact(ms, 0, depth, fmt, fp);
    assert ms[0..] == ms;
  }

  /** The first object loop. */
  method CollectMembers(heap: Allocator, ms: seq<Member>, depth: nat, fmt: bool, fp: FloatText,
                        names: array<array?<byte>>, entries: array<array?<byte>>)
    returns (fail: bool, len: nat, ghost hn: seq<array<byte>>, ghost he: seq<array<byte>>)
    requires names.Length == entries.Length == |ms| && names != entries && names in heap.live && entries in heap.live
    requires forall k | 0 <= k < |ms| :: names[k] == null && entries[k] == null
    modifies heap, names, entries
    ensures HoldingBoth(names, entries, hn, he, old(heap.live))
    ensures if fail then heap.denied > old(heap.denied) else heap.denied == old(heap.denied)
    ensures heap.live == old(heap.live) + Objects(hn) + Objects(he)
    ensures !fail ==> HoldTexts(hn, NameTexts(ms)) && HoldTexts(he, ValueTexts(ms, depth, fmt, fp))
    ensures !fail ==> len == 7 + (if fmt then depth else 0) + MembersRoom(ms, |ms|, depth, fmt, fp)
    decreases ms, 0, 0, 0
  {
    ghost var nt, vt := NameTexts(ms), ValueTexts(ms, depth, fmt, fp);
    ghost var base := heap.live;
    fail, len, hn, he := false, 7 + if fmt then depth else 0, [], [];
    var i := 0;
    while i < |ms| && !fail
      invariant i <= |ms| && HoldingBoth(names, entries, hn, he, base) && heap.live == base + Objects(hn) + Objects(he)
      invariant if fail then heap.denied > old(heap.denied) else heap.denied == old(heap.denied)
      invariant |hn| <= |ms| && |he| <= |ms| && HoldTexts(hn, nt[..|hn|]) && HoldTexts(he, vt[..|he|])
      invariant !fail ==> |hn| == |he| == i
      invariant !fail ==> len == 7 + (if fmt then depth else 0) + MembersRoom(ms, i, depth, fmt, fp)
    {
      MembersRoomStep(ms, i, depth, fmt, fp);
      PrefixStep(nt, i);
      PrefixStep(vt, i);
      var good, n;
      good, n, hn, he := CollectMember(heap, ms[i], depth, fmt, fp, names, entries, i, hn, he, nt[..i], vt[..i], base);
      if good {
        len := len + n + 2 + if fmt then 2 + depth else 0;
      } else {
        fail := true;
      }
      i := i + 1;
    }
    assert nt[..|ms|] == nt && vt[..|ms|] == vt;
  }

  /** One turn of it: both texts are tried and whatever was allocated is stored. */
  method CollectMember(heap: Allocator, m: Member, depth: nat, fmt: bool, fp: FloatText,
                       names: array<array?<byte>>, entries: array<array?<byte>>, i: nat,
                       ghost hn: seq<array<byte>>, ghost he: seq<array<byte>>, ghost nt: seq<Text>, ghost vt: seq<Text>,
                       ghost base: set<object>)
    returns (good: bool, n: nat, ghost hn': seq<array<byte>>, ghost he': seq<array<byte>>)
    requires HoldingBoth(names, entries, hn, he, base) && heap.live == base + Objects(hn) + Objects(he)
    requires HoldTexts(hn, nt) && HoldTexts(he, vt) && |hn| == |he| == i < names.Length == entries.Length
    modifies heap, names, entries
    ensures if good then heap.denied == old(heap.denied) else heap.denied > old(heap.denied)
    ensures HoldingBoth(names, entries, hn', he', base) && heap.live == base + Objects(hn') + Objects(he')
    ensures HoldTexts(hn', if |hn'| > i then nt + [PrintString(m.name)] else nt)
    ensures HoldTexts(he', if |he'| > i then vt + [Print(m.value, depth, fmt, fp)] else vt)
    ensures i <= |hn'| <= i + 1 && i <= |he'| <= i + 1
    ensures good == (|hn'| == |he'| == i + 1)
    ensures good ==> n == |PrintString(m.name)| + |Print(m.value, depth, fmt, fp)|
    decreases m, 0
  {
    var str, ret, k;
    str, k, hn' := CollectName(heap, m.name, names, entries, i, hn, he, nt, base);
    ret, n, he' := CollectEntry(heap, m.value, depth, fmt, fp, names, entries, i, hn', he, vt, base);
    n := n + k;
    good := str != null && ret != null;
  }

  method CollectName(heap: Allocator, name: Text, names: array<array?<byte>>, entries: array<array?<byte>>, i: nat,
                     ghost hn: seq<array<byte>>, ghost he: seq<array<byte>>, ghost nt: seq<Text>, ghost base: set<object>)
    returns (str: array?<byte>, n: nat, ghost hn': seq<array<byte>>)
    requires HoldingBoth(names, entries, hn, he, base) && heap.live == base + Objects(hn) + Objects(he)
    requires HoldTexts(hn, nt) && |hn| == i < names.Length
    modifies heap, names
    ensures if str == null then heap.denied > old(heap.denied) else heap.denied == old(heap.denied)
    ensures HoldingBoth(names, entries, hn', he, base) && heap.live == base + Objects(hn') + Objects(he)
    ensures hn' == (if str == null then hn else hn + [str]) && (str != null ==> n == |PrintString(name)|)
    ensures HoldTexts(hn', if str == null then nt else nt + [PrintString(name)])
  {
    str := PrintStringPtr(heap, name);
    n, hn' := StoreEntry(names, str, PrintString(name), hn, nt, base, i);
    MoveIn(base, Objects(hn), Objects(he), if str == null then {} else {str});
  }

  method CollectEntry(heap: Allocator, v: Value, depth: nat, fmt: bool, fp: FloatText,
                      names: array<array?<byte>>, entries: array<array?<byte>>, i: nat,
                      ghost hn: seq<array<byte>>, ghost he: seq<array<byte>>, ghost vt: seq<Text>, ghost base: set<object>)
    returns (ret: array?<byte>, n: nat, ghost he': seq<array<byte>>)
    requires HoldingBoth(names, entries, hn, he, base) && heap.live == base + Objects(hn) + Objects(he)
    requires HoldTexts(he, vt) && |he| == i < entries.Length
    modifies heap, entries
    ensures if ret == null then heap.denied > old(heap.denied) else heap.denied == old(heap.denied)
    ensures HoldingBoth(names, entries, hn, he', base) && heap.live == base + Objects(hn) + Objects(he')
    ensures he' == (if ret == null then he else he + [ret]) && (ret != null ==> n == |Print(v, depth, fmt, fp)|)
    ensures HoldTexts(he', if ret == null then vt else vt + [Print(v, depth, fmt, fp)])
    decreases v, 2
  {
    ret := PrintValue(heap, v, depth, fmt, fp);
    n, he' := StoreEntry(entries, ret, Print(v, depth, fmt, fp), he, vt, base, i);
    MoveIn(base, Objects(hn), Objects(he), if ret == null then {} else {ret});
  }

  lemma MoveIn(base: set<object>, a: set<object>, b: set<object>, x: set<object>)
    ensures base + a + b + x == base + (a + x) + b == base + a + (b + x)
  {}

  method FreeBoth(heap: Allocator, names: array<array?<byte>>, entries: array<array?<byte>>,
                  ghost hn: seq<array<byte>>, ghost he: seq<array<byte>>, ghost base: set<object>)
    requires HoldingBoth(names, entries, hn, he, base) && names.Length == entries.Length
    requires heap.live == base + Objects(hn) + Objects(he)
    modifies heap
    ensures heap.denied == old(heap.denied)
    ensures heap.live == base
  {
    var i := 0;
    assert hn[0..] == hn && he[0..] == he;
    while i < names.Length
      invariant i <= names.Length
      invariant heap.denied == old(heap.denied) && heap.live == base + Left(hn, i) + Left(he, i)
    {
      LeftStep(hn, i);
      LeftStep(he, i);
      if names[i] != null { heap.Free(names[i]); }
      if entries[i] != null { heap.Free(entries[i]); }
      i := i + 1;
    }
  }

  /** The blocks from index `i` on. */
  ghost function Left(held: seq<array<byte>>, i: nat): set<object> {
    if i <= |held| then Objects(held[i..]) else {}
  }

  lemma LeftStep(held: seq<array<byte>>, i: nat)
    requires forall j, k | 0 <= j < k < |held| :: held[j] != held[k]
    ensures Left(held, i) <= Objects(held)
    ensures i < |held| ==> Left(held, i) == {held[i]} + Left(held, i + 1) && held[i] !in Left(held, i + 1) && held[i] in Objects(held)
    ensures i >= |held| ==> Left(held, i) == Left(held, i + 1) == {}
  {
    if i < |held| { ObjectsDrop(held, i); }
    if i <= |held| {
      assert forall k | 0 <= k < |held[i..]| :: held[i..][k] == held[i + k];
    }
  }

  /** The second object loop, and the text around it. */
  method ComposeMembers(heap: Allocator, ms: seq<Member>, depth: nat, fmt: bool, fp: FloatText,
                        names: array<array?<byte>>, entries: array<array?<byte>>, head: Text, tail: Text,
                        ghost hn: seq<array<byte>>, ghost he: seq<array<byte>>, ghost base: set<object>, out: array<byte>)
    requires names.Length == entries.Length == |ms| == |hn| == |he|
    requires HoldingBoth(names, entries, hn, he, base) && heap.live == base + Objects(hn) + Objects(he) && out in base
    requires HoldTexts(hn, NameTexts(ms)) && HoldTexts(he, ValueTexts(ms, depth, fmt, fp)) && out !in hn && out !in he
    requires out.Length > |head| + |PrintMembers(ms, depth, fmt, fp)| + |tail|
    modifies heap, out
    ensures heap.denied == old(heap.denied)
    ensures heap.live == base && Holds(out, head + PrintMembers(ms, depth, fmt, fp) + tail)
  {
    var ptr := Start(out, head);
    ptr := ComposeAllMembers(heap, ms, depth, fmt, fp, names, entries, hn, he, base, out, ptr, head);
    ptr := Put(out, ptr, tail);
    out[ptr] := 0;
  }

  method Start(out: array<byte>, head: Text) returns (ptr: nat)
    requires |head| < out.Length
    modifies out
    ensures ptr == |head| && Holds(out, head)
  {
    ptr := Put(out, 0, head);
    out[ptr] := 0;
  }

  method ComposeAllMembers(heap: Allocator, ms: seq<Member>, depth: nat, fmt: bool, fp: FloatText,
                           names: array<array?<byte>>, entries: array<array?<byte>>,
                           ghost hn: seq<array<byte>>, ghost he: seq<array<byte>>, ghost base: set<object>,
                           out: array<byte>, at: nat, ghost head: Text)
    returns (ptr: nat)
    requires names.Length == entries.Length == |ms| == |hn| == |he|
    requires HoldingBoth(names, entries, hn, he, base) && heap.live == base + Objects(hn) + Objects(he)
    requires HoldTexts(hn, NameTexts(ms)) && HoldTexts(he, ValueTexts(ms, depth, fmt, fp)) && out !in hn && out !in he
    requires at == |head| && at + |PrintMembers(ms, depth, fmt, fp)| < out.Length && out[..at] == head
    modifies heap, out
    ensures heap.denied == old(heap.denied)
    ensures heap.live == base && ptr == at + |PrintMembers(ms, depth, fmt, fp)|
    ensures out[..ptr] == head + PrintMembers(ms, depth, fmt, fp)
  {
    ghost var cur := head;
    ghost var whole := cur + PrintMembers(ms, depth, fmt, fp);
    ptr := at;
    var i := 0;
    assert ms[0..] == ms && hn[0..] == hn && he[0..] == he;
    while i < |ms|
      invariant i <= |ms| && ptr == |cur| <= |whole| && out[..ptr] == cur
      invariant cur + PrintMembers(ms[i..], depth, fmt, fp) == whole
      invariant heap.denied == old(heap.denied) && heap.live == base + Left(hn, i) + Left(he, i)
      invariant HoldTexts(hn, NameTexts(ms)) && HoldTexts(he, ValueTexts(ms, depth, fmt, fp))
    {
      ptr := ComposeNth(heap, ms, i, depth, fmt, fp, names, entries, hn, he, base, out, ptr, cur, whole);
      cur := WithMember(cur, ms[i], i + 1 < |ms|, depth, fmt, fp);
      i := i + 1;
    }
    assert ms[i..] == [] && cur + [] == cur;
    LeftStep(hn, i);
    LeftStep(he, i);
  }

  /** One turn of it: both texts are copied, then freed. */
  method ComposeNth(heap: Allocator, ms: seq<Member>, i: nat, depth: nat, fmt: bool, fp: FloatText,
                    names: array<array?<byte>>, entries: array<array?<byte>>,
                    ghost hn: seq<array<byte>>, ghost he: seq<array<byte>>, ghost base: set<object>,
                    out: array<byte>, at: nat, ghost cur: Text, ghost whole: Text)
    returns (ptr: nat)
    requires HoldingBoth(names, entries, hn, he, base) && i < |ms| == |hn| == |he|
    requires heap.live == base + Left(hn, i) + Left(he, i)
    requires HoldTexts(hn, NameTexts(ms)) && HoldTexts(he, ValueTexts(ms, depth, fmt, fp)) && out !in hn && out !in he
    requires at == |cur| && |cur| <= |whole| < out.Length && out[..at] == cur && cur + PrintMembers(ms[i..], depth, fmt, fp) == whole
    modifies heap, out
    ensures heap.denied == old(heap.denied)
    ensures heap.live == base + Left(hn, i + 1) + Left(he, i + 1)
    ensures HoldTexts(hn, NameTexts(ms)) && HoldTexts(he, ValueTexts(ms, depth, fmt, fp))
    ensures WithMember(cur, ms[i], i + 1 < |ms|, depth, fmt, fp) + PrintMembers(ms[i + 1..], depth, fmt, fp) == whole
    ensures ptr == |WithMember(cur, ms[i], i + 1 < |ms|, depth, fmt, fp)| <= |whole|
    ensures out[..ptr] == WithMember(cur, ms[i], i + 1 < |ms|, depth, fmt, fp)
  {
    MemberTail(ms, i, depth, fmt, fp, cur);
    HeldAt(hn, NameTexts(ms), i);
    HeldAt(he, ValueTexts(ms, depth, fmt, fp), i);
    ptr := ComposeMember(out, at, names[i], entries[i], ms[i], i != |ms| - 1, depth, fmt, fp, cur);
    FreeBlocks(heap, hn, he, base, i, names[i], entries[i]);
  }

  method FreeBlocks(heap: Allocator, ghost hn: seq<array<byte>>, ghost he: seq<array<byte>>, ghost base: set<object>, ghost i: nat,
                    name: array<byte>, entry: array<byte>)
    requires Distinct(hn, base) && Distinct(he, base) && Objects(hn) !! Objects(he)
    requires i < |hn| == |he| && name == hn[i] && entry == he[i]
    requires heap.live == base + Left(hn, i) + Left(he, i)
    modifies heap
    ensures heap.denied == old(heap.denied)
    ensures heap.live == base + Left(hn, i + 1) + Left(he, i + 1)
  {
    LeftStep(hn, i);
    LeftStep(he, i);
    heap.Free(name);
    heap.Free(entry);
  }

  method ComposeMember(out: array<byte>, at: nat, name: array<byte>, entry: array<byte>, m: Member, more: bool,
                       depth: nat, fmt: bool, fp: FloatText, ghost cur: Text)
    returns (ptr: nat)
    requires out != name && out != entry && Holds(name, PrintString(m.name)) && Holds(entry, Print(m.value, depth, fmt, fp))
    requires at == |cur| && |WithMember(cur, m, more, depth, fmt, fp)| < out.Length && out[..at] == cur
    modifies out
    ensures ptr == |WithMember(cur, m, more, depth, fmt, fp)| && out[..ptr] == WithMember(cur, m, more, depth, fmt, fp)
  {
    ptr := Put(out, at, If(fmt, Tabs(depth)));
    ptr := PutBlock(out, ptr, name, PrintString(m.name));
    ptr := Put(out, ptr, [COLON] + If(fmt, [TAB]));
    ptr := PutBlock(out, ptr, entry, Print(m.value, depth, fmt, fp));
    out[ptr] := 0;
    ptr := Put(out, ptr, MemberGap(more, fmt));
    out[ptr] := 0;
  }
}
