/** The buffered printer of src/cJSON.c: one growing block, lengths recovered with strlen. */
module BufferedPrinter {
  import opened Bytes
  import opened Json
  import opened Grammar
  import opened JsonPrint
  import opened Allocation
  import opened TextBlocks

  class PrintBuffer {
    const heap: Allocator
    var buffer: array?<byte>
    var length: nat
    var offset: nat
    /** The blocks that were live before the buffer was allocated. */
    ghost const others: set<object>
    ghost const prebuffer: nat
    /** How many allocations had failed before. */
    ghost const denied: nat
    /** The number of bytes all growing has copied. */
    ghost var copied: nat

    /**
     The buffer is the only block of its own, or it has been given up after a failed malloc.
     Growing has copied fewer bytes than the first and the present length together.
     */
    ghost predicate Valid()
      reads this, heap
    {
      if buffer == null then length == 0 && heap.live == others && heap.denied > denied
      else
        && heap.denied == denied && buffer.Length == length && buffer !in others && heap.live == others + {buffer}
        && ((length == prebuffer && copied == 0)
            || (length > 0 && length == PowerFor(length) && copied < prebuffer + length))
    }

    /** The text so far ends at the offset. */
    ghost predicate At(t: Text)
      reads this, heap, buffer
    {
      Valid() && buffer != null && offset == |t| <= length && buffer[..offset] == t
    }

    /** The text so far is NUL-terminated and `update` would move the offset to its end. */
    ghost predicate Pending(t: Text)
      reads this, heap, buffer
    {
      Valid() && buffer != null && offset <= |t| < length && buffer[..|t|] == t && buffer[|t|] == 0
    }

    constructor (heap: Allocator, prebuffer: nat)
      modifies heap
      ensures this.heap == heap && fresh(this) && Valid() && others == old(heap.live) && this.prebuffer == prebuffer && denied == old(heap.denied)
      ensures buffer != null ==> At([]) && fresh(buffer) && length == prebuffer
    {
      this.heap := heap;
      others, denied := heap.live, heap.denied;
      buffer := null;
      length, offset := 0, 0;
      this.prebuffer, copied := prebuffer, 0;
      new;
      buffer := heap.Malloc(prebuffer);
      if buffer != null { length := prebuffer; }
    }

    /** Room for `needed` bytes behind the text; the old bytes are kept, a failure frees them. */
    method Ensure(needed: nat, ghost t: Text) returns (ok: bool)
      requires Valid() && (buffer != null ==> At(t) && 0 < |t| + needed <= LIMIT)
      modifies this, heap
      ensures Valid() && ok == (buffer != null) && (ok ==> old(buffer) != null)
      ensures ok ==> At(t) && |t| + needed <= length && (buffer == old(buffer) || fresh(buffer))
      ensures ok && |t| + needed <= old(length) ==> length == old(length) && copied == old(copied)
      ensures ok && |t| + needed > old(length) ==> length == PowerFor(|t| + needed) && copied == old(copied) + old(length)
    {
      if buffer == null { return false; }
      var need := needed + offset;
      if need <= length { return true; }
      var newsize := Pow2gt(need);
      var newbuffer := heap.Malloc(newsize);
      if newbuffer == null {
        heap.Free(buffer);
        buffer, length := null, 0;
        return false;
      }
      MemCopy(newbuffer, buffer, length);
      heap.Free(buffer);
      assert newbuffer[..offset] == t;
      if length > 0 && length == PowerFor(length) { GrowthDoubles(length, need); }
      PowerOfPower(need);
      copied := copied + length;
      length, buffer := newsize, newbuffer;
      ok := true;
    }

    /** p->offset=update(p): 0 once the buffer is gone. */
    method Update(ghost t: Text)
      requires Valid() && (buffer != null ==> Pending(t))
      modifies `offset
      ensures Valid() && (buffer != null ==> At(t))
    {
      if buffer == null {
        offset := 0;
      } else {
        var n := StrLen(buffer, offset, t);
        offset := offset + n;
      }
    }

    /** Room for `needed` bytes; stores `text`, terminated if there is a byte left, at the offset. */
    method Store(text: Text, needed: nat, ghost t: Text) returns (ok: bool)
      requires Valid() && |text| <= needed
      requires buffer != null ==> At(t) && 0 < |t| + needed <= LIMIT
      modifies this, heap, buffer
      ensures Valid() && ok == (buffer != null) && (ok ==> old(buffer) != null)
      ensures ok ==> buffer == old(buffer) || fresh(buffer)
      ensures ok ==> offset == |t| && |t| + needed <= length && buffer[..|t + text|] == t + text
      ensures ok && needed > |text| ==> buffer[|t + text|] == 0
    {
      ok := Ensure(needed, t);
      if !ok { return; }
      var ptr := Put(buffer, offset, text);
      if needed > |text| { buffer[ptr] := 0; }
    }

    /** The same, moving the offset on. */
    method Append(text: Text, needed: nat, ghost t: Text) returns (ok: bool)
      requires Valid() && |text| <= needed <= |text| + 1
      requires buffer != null ==> At(t) && 0 < |t| + needed <= LIMIT
      modifies this, heap, buffer
      ensures Valid() && ok == (buffer != null) && (ok ==> old(buffer) != null)
      ensures ok ==> At(t + text) && (buffer == old(buffer) || fresh(buffer))
    {
      ok := Store(text, needed, t);
      if ok { offset := offset + |text|; }
    }

    method PrintStringPtr(s: Text, ghost t: Text) returns (ok: bool)
      requires Valid() && (buffer != null ==> At(t) && |t| + |PrintString(s)| + 1 <= LIMIT)
      modifies this, heap, buffer
      ensures Valid() && ok == (buffer != null) && (ok ==> old(buffer) != null)
      ensures ok ==> Pending(t + PrintString(s)) && offset == |t| && (buffer == old(buffer) || fresh(buffer))
    {
      var flag := NeedsEscape(s);
      var len := |s|;
      if flag { len := EscapedLength(s); }
      ok := Ensure(len + 3, t);
      if !ok { return; }
      var ptr := PutString(buffer, offset, s, flag);
    }

    method PrintNumber(d: real, fp: FloatText, ghost t: Text) returns (ok: bool)
      requires Valid() && (buffer != null ==> At(t) && |t| + 64 <= LIMIT)
      modifies this, heap, buffer
      ensures Valid() && ok == (buffer != null) && (ok ==> old(buffer) != null)
      ensures ok ==> Pending(t + NumText(NumberToken(d, fp))) && offset == |t| && (buffer == old(buffer) || fresh(buffer))
    {
      NumberFits(d, fp);
      var text := NumText(NumberToken(d, fp));
      ok := Store(text, if d == 0.0 then 2 else if PrintsAsInt(d) then 21 else 64, t);
    }

    /** print_value; `start` is where the returned pointer points to in the buffer. */
    method PrintValue(v: Value, depth: nat, fmt: bool, fp: FloatText, ghost t: Text) returns (ok: bool, start: nat)
      requires Valid() && (buffer != null ==> At(t) && |t| + |Print(v, depth, fmt, fp)| + 64 <= LIMIT)
      modifies this, heap, buffer
      ensures Valid() && ok == (buffer != null) && (ok ==> old(buffer) != null)
      ensures ok ==> Pending(t + Print(v, depth, fmt, fp)) && (buffer == old(buffer) || fresh(buffer))
      ensures ok && depth == 0 && t == [] ==> start == 0
      decreases v, 1
    {
      start := offset;
      match v
      case Null => ok := Store(NULL_TEXT, 5, t);
      case False => ok := Store(FALSE_TEXT, 6, t);
      case True => ok := Store(TRUE_TEXT, 5, t);
      case Number(d) => ok := PrintNumber(d, fp, t);
      case String(s) => ok := PrintStringPtr(s, t);
      case Array(items) => ok, start := PrintArray(items, depth, fmt, fp, t);
      case Object(members) => ok, start := PrintObject(members, depth, fmt, fp, t);
    }

    method PrintArray(items: seq<Value>, depth: nat, fmt: bool, fp: FloatText, ghost t: Text) returns (ok: bool, start: nat)
      requires Valid() && (buffer != null ==> At(t) && |t| + |Print(Array(items), depth, fmt, fp)| + 64 <= LIMIT)
      modifies this, heap, buffer
      ensures Valid() && ok == (buffer != null) && (ok ==> old(buffer) != null)
      ensures ok ==> Pending(t + Print(Array(items), depth, fmt, fp)) && (buffer == old(buffer) || fresh(buffer))
      ensures ok && t == [] ==> start == 0
      decreases items, 1
    {
      start := offset;
      if items == [] {
        ok := Store([LBRACKET, RBRACKET], 3, t);
        assert Print(Array(items), depth, fmt, fp) == [LBRACKET, RBRACKET];
        return;
      }
      ok := Append([LBRACKET], 1, t);
      if !ok { return; }
      ArrayStart(items, depth, fmt, fp, t);
      ok := PrintAllItems(items, depth + 1, fmt, fp, t + [LBRACKET]);
      ok := Store([RBRACKET], 2, t + [LBRACKET] + PrintItems(items, depth + 1, fmt, fp));
    }

    /** The array loop. */
    method PrintAllItems(items: seq<Value>, depth: nat, fmt: bool, fp: FloatText, ghost t: Text) returns (ok: bool)
      requires Valid() && (buffer != null ==> At(t)) && |t| + |PrintItems(items, depth, fmt, fp)| + 64 <= LIMIT
      modifies this, heap, buffer
      ensures Valid() && ok == (buffer != null) && (ok ==> old(buffer) != null)
      ensures ok ==> At(t + PrintItems(items, depth, fmt, fp)) && (buffer == old(buffer) || fresh(buffer))
      decreases items, 0
    {
      ghost var cur, whole := t, t + PrintItems(items, depth, fmt, fp);
      var i := 0;
      ok := buffer != null;
      assert items[0..] == items;
      while i < |items|
        invariant i <= |items| && Valid() && ok == (buffer != null) && (ok ==> old(buffer) != null)
        invariant ok ==> At(cur) && (buffer == old(buffer) || fresh(buffer))
        invariant cur + PrintItems(items[i..], depth, fmt, fp) == whole && |whole| + 64 <= LIMIT
      {
        ItemTail(items, i, depth, fmt, fp, cur);
        ok := PrintItem(items[i], i + 1 < |items|, depth, fmt, fp, cur);
        if !ok && i + 1 < |items| { return; }
        cur := WithItem(cur, items[i], i + 1 < |items|, depth, fmt, fp);
        i := i + 1;
      }
      assert items[i..] == [] && cur + [] == cur;
    }

    /** One turn of the array loop. */
    method PrintItem(v: Value, more: bool, depth: nat, fmt: bool, fp: FloatText, ghost t: Text) returns (ok: bool)
      requires Valid() && (buffer != null ==> At(t) && |WithItem(t, v, more, depth, fmt, fp)| + 64 <= LIMIT)
      modifies this, heap, buffer
      ensures Valid() && ok == (buffer != null) && (ok ==> old(buffer) != null)
      ensures ok ==> At(WithItem(t, v, more, depth, fmt, fp)) && (buffer == old(buffer) || fresh(buffer))
      decreases v, 2
    {
      var good, at := PrintValue(v, depth, fmt, fp, t);
      ghost var cur := t + Print(v, depth, fmt, fp);
      Update(cur);
      ok := buffer != null;
      assert cur + [] == cur;
      if more {
        var gap := ItemGap(true, fmt);
        ok := Append(gap, |gap| + 1, cur);
      }
    }

    /** One turn of the object loop. */
    method PrintMember(m: Member, more: bool, depth: nat, fmt: bool, fp: FloatText, ghost t: Text) returns (ok: bool)
      requires depth > 0 && Valid()
      requires buffer != null ==> At(t) && |WithMember(t, m, more, depth, fmt, fp)| + 64 <= LIMIT
      modifies this, heap, buffer
      ensures Valid() && ok == (buffer != null) && (ok ==> old(buffer) != null)
      ensures ok ==> At(WithMember(t, m, more, depth, fmt, fp)) && (buffer == old(buffer) || fresh(buffer))
      decreases m, 0
    {
      ghost var cur := t;
      if fmt {
        ok := Append(Tabs(depth), depth, cur);
        if !ok { return; }
      }
      cur := cur + If(fmt, Tabs(depth));
      ok := PrintStringPtr(m.name, cur);
      cur := cur + PrintString(m.name);
      Update(cur);
      var colon := [COLON] + If(fmt, [TAB]);
      ok := Append(colon, |colon|, cur);
      if !ok { return; }
      cur := cur + colon;
      var good, at := PrintValue(m.value, depth, fmt, fp, cur);
      cur := cur + Print(m.value, depth, fmt, fp);
      Update(cur);
      var gap := MemberGap(more, fmt);
      ok := Append(gap, |gap| + 1, cur);
    }

    method PrintObject(members: seq<Member>, depth: nat, fmt: bool, fp: FloatText, ghost t: Text) returns (ok: bool, start: nat)
      requires Valid() && (buffer != null ==> At(t) && |t| + |Print(Object(members), depth, fmt, fp)| + 64 <= LIMIT)
      modifies this, heap, buffer
      ensures Valid() && ok == (buffer != null) && (ok ==> old(buffer) != null)
      ensures ok ==> Pending(t + Print(Object(members), depth, fmt, fp)) && (buffer == old(buffer) || fresh(buffer))
      ensures ok && depth == 0 && t == [] ==> start == 0
      decreases members, 1
    {
      start := offset;
      if members == [] {
        var text := [LBRACE] + If(fmt, [LF] + Tabs(depth)) + [RBRACE];
        assert Print(Object([]), depth, fmt, fp) == text;
        ok := Store(text, if fmt then depth + 4 else 3, t);
        return;
      }
      var open := [LBRACE] + If(fmt, [LF]);
      ok := Append(open, |open| + 1, t);
      if !ok { return; }
      var inner := depth + 1;
      ghost var cur := t + open + PrintMembers(members, inner, fmt, fp);
      ObjectStart(members, depth, fmt, fp, t);
      ok := PrintAllMembers(members, inner, fmt, fp, t + open);
      if !ok { return; }
      if fmt {
        start := inner - 1;
      }
      ok := Store(If(fmt, Tabs(depth)) + [RBRACE], if fmt then inner + 1 else 2, cur);
    }

    /** The object loop. */
    method PrintAllMembers(ms: seq<Member>, depth: nat, fmt: bool, fp: FloatText, ghost t: Text) returns (ok: bool)
      requires depth > 0 && Valid() && (buffer != null ==> At(t)) && |t| + |PrintMembers(ms, depth, fmt, fp)| + 64 <= LIMIT
      modifies this, heap, buffer
      ensures Valid() && ok == (buffer != null) && (ok ==> old(buffer) != null)
      ensures ok ==> At(t + PrintMembers(ms, depth, fmt, fp)) && (buffer == old(buffer) || fresh(buffer))
      decreases ms, 0
    {
      ghost var cur, whole := t, t + PrintMembers(ms, depth, fmt, fp);
      var i := 0;
      ok := buffer != null;
      assert ms[0..] == ms;
      while i < |ms|
        invariant i <= |ms| && Valid() && ok == (buffer != null) && (ok ==> old(buffer) != null)
        invariant ok ==> At(cur) && (buffer == old(buffer) || fresh(buffer))
        invariant cur + PrintMembers(ms[i..], depth, fmt, fp) == whole && |whole| + 64 <= LIMIT
      {
        MemberTail(ms, i, depth, fmt, fp, cur);
        ok := PrintMember(ms[i], i + 1 < |ms|, depth, fmt, fp, cur);
        if !ok { return; }
        cur := WithMember(cur, ms[i], i + 1 < |ms|, depth, fmt, fp);
        i := i + 1;
      }
      assert ms[i..] == [] && cur + [] == cur;
    }

    /** cJSON_PrintBuffered. */
    static method PrintBuffered(heap: Allocator, v: Value, prebuffer: nat, fmt: bool, fp: FloatText) returns (out: array?<byte>)
      requires |Print(v, 0, fmt, fp)| + 64 <= LIMIT
      modifies heap
      ensures out == null ==> heap.live == old(heap.live) && heap.denied > old(heap.denied)
      ensures out != null ==> out !in old(heap.live) && heap.live == old(heap.live) + {out} && heap.denied == old(heap.denied)
      ensures out != null ==>
                var text := Print(v, 0, fmt, fp);
                |text| < out.Length && out[..|text|] == text && out[|text|] == 0
    {
      var p := new PrintBuffer(heap, prebuffer);
      var ok, start := p.PrintValue(v, 0, fmt, fp, []);
      if !ok { return null; }
      // The returned pointer is p.buffer + start, the start of the block.
      assert start == 0 && [] + Print(v, 0, fmt, fp) == Print(v, 0, fmt, fp);
      return p.buffer;
    }
  }

  function MemberGap(more: bool, fmt: bool): Text {
    (if more then [COMMA] else []) + If(fmt, [LF])
  }

  function WithMember(cur: Text, m: Member, more: bool, depth: nat, fmt: bool, fp: FloatText): Text {
    cur + If(fmt, Tabs(depth)) + PrintString(m.name) + ([COLON] + If(fmt, [TAB])) + Print(m.value, depth, fmt, fp)
      + MemberGap(more, fmt)
  }

  lemma ObjectStart(ms: seq<Member>, depth: nat, fmt: bool, fp: FloatText, t: Text)
    ensures t + ([LBRACE] + If(fmt, [LF])) + PrintMembers(ms, depth + 1, fmt, fp) + (If(fmt, Tabs(depth)) + [RBRACE])
         == t + Print(Object(ms), depth, fmt, fp)
  {
    RegroupStart(t, [LBRACE], If(fmt, [LF]), PrintMembers(ms, depth + 1, fmt, fp), If(fmt, Tabs(depth)), [RBRACE]);
  }

  lemma RegroupStart(t: Text, a: Text, b: Text, c: Text, d: Text, e: Text)
    ensures t + (a + b) + c + (d + e) == t + (a + b + c + d + e)
    ensures b == [] && d == [] ==> t + a + c + e == t + (a + c + e)
  {}

  /** The text left to write, one member on. */
  lemma MemberTail(ms: seq<Member>, i: nat, depth: nat, fmt: bool, fp: FloatText, cur: Text)
    requires i < |ms|
    ensures cur + PrintMembers(ms[i..], depth, fmt, fp)
         == WithMember(cur, ms[i], i + 1 < |ms|, depth, fmt, fp) + PrintMembers(ms[i + 1..], depth, fmt, fp)
  {
    var rest := ms[i..];
    assert rest[1..] == ms[i + 1..] && rest[0] == ms[i];
    var more: Text := if i + 1 < |ms| then [COMMA] else [];
    assert Comma(|rest| > 1, []) == more;
    var p := PrintMembers(ms[i + 1..], depth, fmt, fp);
    assert PrintMembers(rest, depth, fmt, fp) == JsonPrint.PrintMember(ms[i], depth, fmt, fp) + more + If(fmt, [LF]) + p;
    RegroupTail(cur, If(fmt, Tabs(depth)), PrintString(ms[i].name), If(fmt, [TAB]),
                Print(ms[i].value, depth, fmt, fp), more, If(fmt, [LF]), p);
  }

  lemma RegroupTail(cur: Text, tabs: Text, name: Text, tab: Text, value: Text, more: Text, lf: Text, p: Text)
    ensures cur + ((tabs + name + [COLON] + tab + value) + more + lf + p)
         == cur + tabs + name + ([COLON] + tab) + value + (more + lf) + p
  {}


  lemma ArrayStart(items: seq<Value>, depth: nat, fmt: bool, fp: FloatText, t: Text)
    ensures t + [LBRACKET] + PrintItems(items, depth + 1, fmt, fp) + [RBRACKET] == t + Print(Array(items), depth, fmt, fp)
  {
    RegroupStart(t, [LBRACKET], [], PrintItems(items, depth + 1, fmt, fp), [], [RBRACKET]);
    assert [LBRACKET] + [] == [LBRACKET];
  }

  function ItemGap(more: bool, fmt: bool): Text {
    if !more then [] else if fmt then [COMMA, SPACE] else [COMMA]
  }

  function WithItem(cur: Text, v: Value, more: bool, depth: nat, fmt: bool, fp: FloatText): Text {
    cur + Print(v, depth, fmt, fp) + ItemGap(more, fmt)
  }

  /** The text left to write, one item on. */
  lemma ItemTail(items: seq<Value>, i: nat, depth: nat, fmt: bool, fp: FloatText, cur: Text)
    requires i < |items|
    ensures cur + PrintItems(items[i..], depth, fmt, fp)
         == WithItem(cur, items[i], i + 1 < |items|, depth, fmt, fp) + PrintItems(items[i + 1..], depth, fmt, fp)
  {
    assert items[i..][1..] == items[i + 1..];
    var gap := ItemGap(i + 1 < |items|, fmt);
    assert Comma(|items[i..]| > 1, If(fmt, [SPACE])) == gap;
    RegroupItems(cur, Print(items[i], depth, fmt, fp), gap, PrintItems(items[i + 1..], depth, fmt, fp));
  }

  lemma RegroupItems(cur: Text, item: Text, gap: Text, more: Text)
    ensures cur + (item + gap + more) == cur + item + gap + more
  {}

  lemma NumberFits(d: real, fp: FloatText)
    ensures |NumText(NumberToken(d, fp))| < if d == 0.0 then 2 else if PrintsAsInt(d) then 21 else 64
  {
    if d != 0.0 && PrintsAsInt(d) {
      var i := Truncate(d);
      DecimalLength(if i < 0 then -i else i, 10);
    }
  }

  function Ten(k: nat): (p: nat)
    ensures p > 0
  {
    if k == 0 then 1 else 10 * Ten(k - 1)
  }

  lemma {:induction false} DecimalLength(n: nat, k: nat)
    requires n < Ten(k) && k > 0
    ensures |Decimal(n)| <= k
  {
    if n >= 10 { DecimalLength(n / 10, k - 1); }
  }
}
