/** The parser of src/cJSON.c as written: cursors into the text, nodes linked as they are read. */
module Parser {
  import opened Bytes
  import opened Json
  import opened Allocation
  import opened TextBlocks
  import opened StringParser
  import opened Items

  // What the grammar functions give at a cursor. The triggers keep the functions folded.

  ghost predicate ValueAt(text: Text, at: nat, p: Parsed<Value>) {
    at <= |text| && forall s {:trigger Json.ParseValue(s)} :: s == text[at..] ==> Json.ParseValue(s) == p
  }

  ghost predicate StringAt(text: Text, at: nat, k: Parsed<Text>) {
    at <= |text| && forall s {:trigger Json.ParseString(s)} :: s == text[at..] ==> Json.ParseString(s) == k
  }

  ghost predicate PartsAt(text: Text, at: nat, named: bool, q: Parsed<seq<Part>>) {
    at <= |text| && forall s {:trigger ParseParts(s, named)} :: s == text[at..] ==> ParseParts(s, named) == q
  }

  ghost predicate FractionAt(text: Text, at: nat, neg: bool, whole: nat, p: Parsed<Value>) {
    at <= |text| && forall s {:trigger ParseFraction(neg, whole, s)} :: s == text[at..] ==> ParseFraction(neg, whole, s) == p
  }

  ghost predicate WholeAt(text: Text, at: nat, n: nat, k: nat) {
    at + k <= |text| && forall s {:trigger WholeDigits(s)} :: s == text[at..] ==> WholeDigits(s).0 == n && WholeDigits(s).1 == k
  }

  ghost predicate PartAt(text: Text, at: nat, named: bool, p: Parsed<Part>) {
    at <= |text| && forall s {:trigger ParsePart(s, named)} :: s == text[at..] ==> ParsePart(s, named) == p
  }

  /** After the children `parts`, what is at the cursor gives `q` in all. */
  ghost predicate AfterAt(text: Text, at: nat, named: bool, parts: seq<Part>, q: Parsed<seq<Part>>) {
    at <= |text| && forall s {:trigger AfterPart(s, named)} :: s == text[at..] ==> Onto(parts, AfterPart(s, named)) == q
  }

  /** skip */
  method SkipBlanks(text: Text, at: nat) returns (i: nat)
    requires at <= |text|
    ensures at <= i <= |text| && text[i..] == Skip(text[at..])
  {
    i := at;
    while Peek(text, i) != 0 && Peek(text, i) <= SPACE
      invariant at <= i <= |text| && Skip(text[i..]) == Skip(text[at..])
      decreases |text| - i
    {
      assert text[i..][1..] == text[i + 1..];
      i := i + 1;
    }
  }

  // ----- Numbers ------------------------------------------------------------------

  /** A digit loop. */
  method DigitLoop(text: Text, at: nat, acc: nat) returns (n: nat, i: nat)
    requires at <= |text|
    ensures at <= i <= |text| && i - at == DigitCount(text[at..])
    ensures n == ReadDigits(acc, text[at..]).0 && i - at == ReadDigits(acc, text[at..]).1
  {
    n, i := acc, at;
    while IsDigit(Peek(text, i))
      invariant at <= i <= |text| && AllDigits(text[at..i]) && n == Horner(acc, text[at..i])
      decreases |text| - i
    {
      OneMore(acc, text, at, i);
      n := n * 10 + (text[i] - ZERO);
      i := i + 1;
    }
    assert text[at..] == text[at..i] + text[i..];
    DigitCountOf(text[at..i], text[i..]);
    assert text[at..][..i - at] == text[at..i];
  }

  lemma OneMore(acc: nat, text: Text, at: nat, i: nat)
    requires at <= i < |text| && AllDigits(text[at..i]) && IsDigit(text[i])
    ensures AllDigits(text[at..i + 1]) && Horner(acc, text[at..i + 1]) == Horner(acc, text[at..i]) * 10 + (text[i] - ZERO)
  {
    var d := [text[i]];
    assert text[at..i + 1] == text[at..i] + d;
    HornerConcat(acc, text[at..i], d);
    assert d[1..] == [];
  }

  lemma Suffix(text: Text, i: nat, k: nat)
    requires i + k <= |text|
    ensures text[i..][k..] == text[i + k..]
    ensures Head(text[i..]) == Peek(text, i)
  {}

  /** parse_number, with exact arithmetic for the double and for pow. */
  method ParseNumber(item: Item, text: Text, at: nat, ghost p: Parsed<Value>) returns (end: nat)
    requires at < |text| && (text[at] == MINUS || IsDigit(text[at])) && ValueAt(text, at, p)
    modifies item`number, item`kind, item`isReference
    ensures at < end <= |text| && p == Parsed(Number(item.number.valuedouble), text[end..]) && Converted(item.number)
    ensures item.kind == NumberKind && !item.isReference
  {
    var neg := text[at] == MINUS;
    var num := if neg then at + 1 else at;
    ghost var sign := num;
    if Peek(text, num) == ZERO { num := num + 1; }
    var n, first := 0, num;
    n, num := WholeLoop(text, first);
    NumberParts(text, at, neg, sign, first, num, n, p);
    var x;
    x, end := ParseRest(neg, n, text, num, p);
    ReadsOn(text, at, end, p);
    var i: int := *;
    if INT_MIN as real - 1.0 < x < INT_MAX as real + 1.0 { i := Truncate(x); }
    item.number := Numeric(x, i);
    item.kind, item.isReference := NumberKind, false;
  }

  lemma ReadsOn(text: Text, at: nat, end: nat, p: Parsed<Value>)
    requires ValueAt(text, at, p) && end <= |text| && p.Parsed? && p.rest == text[end..]
    ensures at < end
  {
    assert p == Json.ParseValue(text[at..]) && |p.rest| < |text[at..]|;
  }

  method WholeLoop(text: Text, at: nat) returns (n: nat, num: nat)
    requires at <= |text|
    ensures at <= num <= |text| && WholeAt(text, at, n, num - at)
  {
    n, num := 0, at;
    Suffix(text, at, 0);
    if Peek(text, num) != ZERO { n, num := DigitLoop(text, num, 0); }
  }

  lemma NumberParts(text: Text, at: nat, neg: bool, sign: nat, first: nat, num: nat, n: nat, p: Parsed<Value>)
    requires at < |text| && (text[at] == MINUS || IsDigit(text[at])) && neg == (text[at] == MINUS) && ValueAt(text, at, p)
    requires sign == (if neg then at + 1 else at) && first == (if Peek(text, sign) == ZERO then sign + 1 else sign)
    requires first <= num <= |text| && WholeAt(text, first, n, num - first)
    ensures FractionAt(text, num, neg, n, p)
  {
    Suffix(text, at, 0);
    Suffix(text, at, sign - at);
    Suffix(text, sign, 0);
    Suffix(text, sign, first - sign);
    Suffix(text, first, num - first);
    NumberUnfolded(text[at..], neg, text[sign..], text[first..], n, num - first, text[num..], p);
  }

  lemma NumberUnfolded(s: Text, neg: bool, s1: Text, s2: Text, n: nat, k: nat, rest: Text, p: Parsed<Value>)
    requires (Head(s) == MINUS || IsDigit(Head(s))) && neg == (Head(s) == MINUS)
    requires s1 == (if neg then s[1..] else s) && s2 == if Head(s1) == ZERO then s1[1..] else s1
    requires forall x {:trigger WholeDigits(x)} :: x == s2 ==> WholeDigits(x).0 == n && WholeDigits(x).1 == k
    requires k <= |s2| && rest == s2[k..]
    requires forall x {:trigger Json.ParseValue(x)} :: x == s ==> Json.ParseValue(x) == p
    ensures forall x {:trigger ParseFraction(neg, n, x)} :: x == rest ==> ParseFraction(neg, n, x) == p
  {
    assert Json.ParseValue(s) == Json.ParseNumber(s);
  }

  /** The fraction digits go on the same accumulator. */
  method FractionLoop(whole: nat, text: Text, at: nat) returns (n: nat, num: nat, scale: nat)
    requires at <= |text|
    ensures scale == FractionLength(text[at..]) && num == (if scale > 0 then at + 1 + scale else at) <= |text|
    ensures n == if scale > 0 then ReadDigits(whole, text[at + 1..]).0 else whole
  {
    n, num, scale := whole, at, 0;
    Suffix(text, at, 0);
    if Peek(text, at) != POINT { return; }
    Suffix(text, at, 1);
    Suffix(text, at + 1, 0);
    if IsDigit(Peek(text, at + 1)) {
      n, num := DigitLoop(text, at + 1, n);
      scale := num - (at + 1);
    }
  }

  /** From the decimal point on. */
  method ParseRest(neg: bool, whole: nat, text: Text, at: nat, ghost p: Parsed<Value>) returns (x: real, end: nat)
    requires FractionAt(text, at, neg, whole, p)
    ensures at <= end <= |text| && p == Parsed(Number(x), text[end..])
  {
    var n, num, scale := FractionLoop(whole, text, at);
    var subscale;
    subscale, end := ParseExponent(text, num);
    x := Shift(Signed(neg, n as real), subscale - scale);
    Suffix(text, num, end - num);
    if scale > 0 {
      Suffix(text, at, 1);
      Suffix(text, at + 1, scale);
    }
    FractionUnfolded(neg, whole, text[at..], scale, text[num..], n, subscale, end - num, p);
  }

  lemma FractionUnfolded(neg: bool, whole: nat, s: Text, k: nat, s1: Text, n: nat, e: int, used: nat, p: Parsed<Value>)
    requires k == FractionLength(s) && s1 == if k > 0 then s[1..][k..] else s
    requires n == if k > 0 then ReadDigits(whole, s[1..]).0 else whole
    requires e == Exponent(s1).0 && used == Exponent(s1).1
    requires forall x {:trigger ParseFraction(neg, whole, x)} :: x == s ==> ParseFraction(neg, whole, x) == p
    ensures p == Parsed(Number(Shift(Signed(neg, n as real), e - k)), s1[used..])
  {
    assert p == ParseFraction(neg, whole, s);
  }

  /** The exponent part, signed. */
  method ParseExponent(text: Text, at: nat) returns (e: int, end: nat)
    requires at <= |text|
    ensures at <= end <= |text| && Exponent(text[at..]).0 == e && Exponent(text[at..]).1 == end - at
  {
    e, end := 0, at;
    Suffix(text, at, 0);
    if !IsExponentMark(Peek(text, at)) { return; }
    Suffix(text, at, 1);
    Suffix(text, at + 1, 0);
    var sign := Peek(text, at + 1);
    if IsSign(sign) {
      Suffix(text, at + 1, 1);
      e, end := DigitLoop(text, at + 2, 0);
      if sign == MINUS { e := 0 - e; }
    } else {
      e, end := DigitLoop(text, at + 1, 0);
    }
  }

  // ----- Strings --------------------------------------------------------------------

  /** The returned pointer; or null with `*ep` set, or with `*ep` untouched. */
  datatype Outcome = Read(next: nat) | Bad(ep: nat) | NoMemory

  /** The outcome of reading at `at` is the one the grammar function gives. */
  ghost predicate Agrees<T>(text: Text, at: nat, r: Outcome, p: Parsed<T>) {
    match r
    case Read(next) => at < next <= |text| && p.Parsed? && p.rest == text[next..]
    case Bad(ep) => ep <= |text| && p == Malformed(text[ep..])
    case NoMemory => true
  }

  /** The same, when blanks are skipped before and after. */
  ghost predicate Skipped<T>(text: Text, at: nat, r: Outcome, p: Parsed<T>) {
    match r
    case Read(next) => at < next <= |text| && p.Parsed? && Skip(p.rest) == text[next..]
    case Bad(ep) => ep <= |text| && p == Malformed(text[ep..])
    case NoMemory => true
  }

  /** parse_string; the block stays with the item when the body turns out to be malformed. */
  method ParseString(heap: Allocator, item: Item, text: Text, at: nat, ghost k: Parsed<Text>)
    returns (r: Outcome, ghost str: Option<Block>)
    requires Source(text) && StringAt(text, at, k)
    requires item.valuestring == null && !item.isReference
    modifies heap, item`valuestring, item`kind, item`isReference
    ensures Stored(item.valuestring, str) && Gained(old(heap.live), heap.live, Cells(str))
    ensures if r.NoMemory? then heap.denied > old(heap.denied) else heap.denied == old(heap.denied)
    ensures Agrees(text, at, r, k) && !item.isReference
    ensures r.Read? ==> item.kind == StringKind && str.Some? && str.value.text == Some(k.value)
  {
    str := None;
    if Peek(text, at) != QUOTE {
      NoString(text, at, k);
      return Bad(at), None;
    }
    var end, len := Scan(text, at + 1);
    var out := heap.Malloc(len + 1);
    if out == null { return NoMemory, None; }
    item.valuestring := out;
    item.kind, item.isReference := StringKind, false;
    var ok, n := DecodeBody(text, at + 1, end, len, out);
    StringParts(text, at, end, k);
    if !ok { return Bad(at), Some(Block(out, None)); }
    str := Some(Block(out, Some(k.value)));
    r := Read(if Peek(text, end) == QUOTE then end + 1 else end);
  }

  lemma NoString(text: Text, at: nat, k: Parsed<Text>)
    requires StringAt(text, at, k) && Peek(text, at) != QUOTE
    ensures k == Malformed(text[at..])
  {
    Suffix(text, at, 0);
    assert k == Json.ParseString(text[at..]);
  }

  lemma StringParts(text: Text, at: nat, end: nat, k: Parsed<Text>)
    requires StringAt(text, at, k) && Peek(text, at) == QUOTE && end == BodyEnd(text, at + 1) <= |text|
    ensures Decode(text[at + 1..end]).None? ==> k == Malformed(text[at..])
    ensures Decode(text[at + 1..end]).Some? ==>
              k == Parsed(Decode(text[at + 1..end]).value, text[if Peek(text, end) == QUOTE then end + 1 else end..])
  {
    var n := end - (at + 1);
    Suffix(text, at, 0);
    Suffix(text, at, 1);
    Slice(text, at + 1, end);
    if end < |text| {
      assert text[at + 1..][n] == text[end];
      Suffix(text, at, end + 1 - at);
    }
    StringUnfolded(text[at..], text[at + 1..], n, text[at + 1..end], Decode(text[at + 1..end]), k);
  }

  lemma Slice(text: Text, i: nat, j: nat)
    requires i <= j <= |text|
    ensures text[i..][..j - i] == text[i..j]
  {}

  lemma StringUnfolded(s: Text, tail: Text, n: nat, b: Text, d: Option<Text>, k: Parsed<Text>)
    requires Head(s) == QUOTE && tail == s[1..] && n == BodyLength(tail) && b == tail[..n] && d == Decode(b)
    requires forall x {:trigger Json.ParseString(x)} :: x == s ==> Json.ParseString(x) == k
    ensures k == if d.None? then Malformed(s) else Parsed(d.value, if n + 1 < |s| then s[n + 2..] else [])
    ensures n + 1 < |s| ==> s[n + 1] == QUOTE
  {
    assert k == Json.ParseString(s);
  }

  // ----- Lists ------------------------------------------------------------------------

  /** The children read so far, `last` the end of the list. */
  ghost predicate Listed(item: Item, last: Item?, ks: seq<Shape>)
    reads item`child, Tops(ks), Inner(ks), Blocks(ks)
  {
    && Linked(item.child, Roots(ks)) && TreeAll(ks, Plain) && SepAll(ks)
    && last == Nth(Roots(ks), |ks| - 1) && item !in FootAll(ks)
  }

  /** A new child at the end of the list, still empty. */
  method NewChild(heap: Allocator, item: Item, last: Item?, ghost s: seq<Item>) returns (child: Item?)
    requires Linked(item.child, s) && last == Nth(s, |s| - 1)
    modifies heap, item`child, (if last == null then {} else {last})`next
    ensures Linked(item.child, s + if child == null then [] else [child])
    ensures child == null ==> heap.live == old(heap.live) && heap.denied > old(heap.denied)
    ensures child != null ==>
              && fresh(child) && Gained(old(heap.live), heap.live, {child}) && heap.denied == old(heap.denied)
              && HoldsNothing(child) && child.name == null
  {
    assert s + [] == s;
    child := NewItem(heap);
    if child != null { LinkLast(item, last, child, s); }
  }

  /** Linking one more node touches no node's contents. */
  lemma {:induction false} Apart(item: Item, last: Item?, ks: seq<Shape>)
    requires SepAll(ks) && last == Nth(Roots(ks), |ks| - 1) && item !in FootAll(ks)
    ensures item !in Tops(ks) && item !in Inner(ks)
    ensures last != null ==> last !in Inner(ks)
  {
    NodesInFoot(ks);
    TopsNotInner(ks);
    assert last != null ==> last in Roots(ks);
  }

  // ----- Values -----------------------------------------------------------------------

  /** parse_value; on failure the item keeps, and owns, whatever was read before the error. */
  method ParseValue(heap: Allocator, item: Item, text: Text, at: nat, ghost p: Parsed<Value>) returns (r: Outcome, ghost t: Shape)
    requires Source(text) && ValueAt(text, at, p) && HoldsNothing(item) && item in heap.live
    modifies heap, item`child, item`valuestring, item`kind, item`isReference, item`number
    ensures t.item == item && t.name == None && Body(t, Plain) && SepUnder(t)
    ensures Gained(old(heap.live), heap.live, Under(t))
    ensures if r.NoMemory? then heap.denied > old(heap.denied) else heap.denied == old(heap.denied)
    ensures Agrees(text, at, r, p) && (r.Read? ==> Means(t, p.value))
    decreases |text| - at, 1
  {
    var n := ParseLiteral(item, text, at, p);
    if n > 0 {
      r, t := Read(at + n), Leaf(item, item.kind, item.number, None);
    } else if Peek(text, at) == QUOTE {
      ghost var k, str := StringCase(text, at, p), None;
      r, str := ParseString(heap, item, text, at, k);
      t := Leaf(item, item.kind, item.number, str);
    } else if Peek(text, at) == MINUS || IsDigit(Peek(text, at)) {
      var end := ParseNumber(item, text, at, p);
      r, t := Read(end), Leaf(item, NumberKind, item.number, None);
    } else if Peek(text, at) == LBRACKET {
      r, t := ParseArray(heap, item, text, at, p);
    } else if Peek(text, at) == LBRACE {
      r, t := ParseObject(heap, item, text, at, p);
    } else {
      OtherCase(text, at, p);
      r, t := Bad(at), Leaf(item, item.kind, item.number, None);
    }
  }

  /** The three strncmp tests: the length of the literal found, or 0. */
  method ParseLiteral(item: Item, text: Text, at: nat, ghost p: Parsed<Value>) returns (n: nat)
    requires ValueAt(text, at, p) && !item.isReference
    modifies item`kind, item`isReference
    ensures !item.isReference && at + n <= |text|
    ensures n == 0 ==> NoLiteral(text, at)
    ensures n > 0 ==> p.Parsed? && p.rest == text[at + n..] && Means(Leaf(item, item.kind, item.number, None), p.value)
  {
    n := 0;
    assert p == Json.ParseValue(text[at..]);
    if NULL_TEXT <= text[at..] {
      item.kind, item.isReference := NullKind, false;
      n := 4;
    } else if FALSE_TEXT <= text[at..] {
      item.kind, item.isReference := FalseKind, false;
      n := 5;
    } else if TRUE_TEXT <= text[at..] {
      item.kind, item.isReference := TrueKind, false;
      n := 4;
    }
    if n > 0 { Suffix(text, at, n); }
  }

  predicate NoLiteral(text: Text, at: nat)
    requires at <= |text|
  {
    !(NULL_TEXT <= text[at..]) && !(FALSE_TEXT <= text[at..]) && !(TRUE_TEXT <= text[at..])
  }

  /** The text a string value is read as. */
  ghost function StringCase(text: Text, at: nat, p: Parsed<Value>): (k: Parsed<Text>)
    requires at < |text| && text[at] == QUOTE && ValueAt(text, at, p)
    ensures StringAt(text, at, k)
    ensures p == if k.Parsed? then Parsed(String(k.value), k.rest) else Malformed(k.at)
  {
    assert p == Json.ParseValue(text[at..]);
    Json.ParseString(text[at..])
  }

  lemma OtherCase(text: Text, at: nat, p: Parsed<Value>)
    requires ValueAt(text, at, p) && NoLiteral(text, at)
    requires Peek(text, at) !in [QUOTE, MINUS, LBRACKET, LBRACE] && !IsDigit(Peek(text, at))
    ensures p == Malformed(text[at..])
  {
    assert p == Json.ParseValue(text[at..]);
  }

  /** A node without children. */
  ghost function Leaf(item: Item, kind: Kind, num: Numeric, str: Option<Block>): (t: Shape)
    ensures Under(t) == Cells(str) && SepUnder(t) && Roots(t.kids) == [] && forall v :: TreeAll(t.kids, v)
  {
    Shape(item, kind, num, str, None, [])
  }

  lemma {:induction false} Grown(item: Item, ks: seq<Shape>, t: Shape)
    requires Linked(item.child, Roots(ks) + [t.item]) && TreeAll(ks, Plain) && Tree(t, Plain)
    requires SepAll(ks) && Sep(t) && FootAll(ks) !! Foot(t) && item !in FootAll(ks) && item !in Foot(t)
    ensures Listed(item, t.item, ks + [t]) && FootAll(ks + [t]) == FootAll(ks) + Foot(t)
  {
    One(t);
    ListAppend(ks, [t]);
    TreeAppend(ks, [t], Plain);
  }

  method AddChild(heap: Allocator, item: Item, last: Item?, ghost ks: seq<Shape>) returns (child: Item?)
    requires Listed(item, last, ks)
    modifies heap, item`child, (if last == null then {} else {last})`next
    ensures Linked(item.child, Roots(ks) + if child == null then [] else [child]) && TreeAll(ks, Plain)
    ensures child == null ==> heap.live == old(heap.live) && heap.denied > old(heap.denied)
    ensures child != null ==>
              && fresh(child) && Gained(old(heap.live), heap.live, {child}) && heap.denied == old(heap.denied)
              && HoldsNothing(child) && child.name == null && child !in Tops(ks) && child !in Inner(ks)
  {
    Here(ks);
    Apart(item, last, ks);
    child := NewChild(heap, item, last, Roots(ks));
    Kept(ks, Plain);
  }

  /** One item of an array, or one member of an object. */
  datatype Part = Part(name: Option<Text>, value: Value)

  function ParsePart(s: Text, named: bool): Parsed<Part> {
    if named then
      var m := ParseMember(s);
      if m.Parsed? then Parsed(Part(Some(m.value.name), m.value.value), m.rest) else Malformed(m.at)
    else
      var v := Json.ParseValue(Skip(s));
      if v.Parsed? then Parsed(Part(None, v.value), v.rest) else Malformed(v.at)
  }

  ghost predicate Shows(t: Shape, p: Part) {
    Means(t, p.value) && (if p.name.Some? then Called(t, p.name.value) else t.name == None)
  }

  /** A new child, what the text gives for it, and the blanks behind it. */
  method AddPart(heap: Allocator, item: Item, last: Item?, named: bool, text: Text, at: nat, ghost ks: seq<Shape>, ghost p: Parsed<Part>)
    returns (r: Outcome, child: Item?, ghost more: seq<Shape>)
    requires Source(text) && PartAt(text, at, named, p)
    requires Listed(item, last, ks) && item in heap.live && FootAll(ks) <= heap.live
    modifies heap, item`child, (if last == null then {} else {last})`next
    ensures Listed(item, if child == null then last else child, ks + more) && FootAll(ks + more) == FootAll(ks) + FootAll(more)
    ensures Gained(old(heap.live), heap.live, FootAll(more))
    ensures |more| == (if child == null then 0 else 1) && (child != null ==> fresh(child))
    ensures if r.NoMemory? then heap.denied > old(heap.denied) else heap.denied == old(heap.denied)
    ensures Skipped(text, at, r, p) && (r.Read? ==> child != null && Shows(more[0], p.value))
    decreases |text| - at, 5
  {
    child := AddChild(heap, item, last, ks);
    more := [];
    if child == null {
      assert ks + [] == ks && Roots(ks) + [] == Roots(ks);
      return NoMemory, null, [];
    }
    ghost var t;
    ghost var mid := heap.live;
    r, t := GrowPart(heap, item, child, named, text, at, p, ks);
    more := [t];
    One(t);
    GainedBoth(old(heap.live), mid, heap.live, {child}, Cells(t.name) + Under(t));
  }

  method GrowPart(heap: Allocator, item: Item, child: Item, named: bool, text: Text, at: nat, ghost p: Parsed<Part>, ghost ks: seq<Shape>)
    returns (r: Outcome, ghost t: Shape)
    requires Source(text) && PartAt(text, at, named, p)
    requires Linked(item.child, Roots(ks) + [child]) && TreeAll(ks, Plain) && SepAll(ks)
    requires HoldsNothing(child) && child.name == null && child in heap.live - FootAll(ks) - {item}
    requires item in heap.live - FootAll(ks) && FootAll(ks) <= heap.live
    modifies heap, child`child, child`valuestring, child`kind, child`isReference, child`number, child`name
    ensures Listed(item, child, ks + [t]) && FootAll(ks + [t]) == FootAll(ks) + Foot(t)
    ensures Foot(t) == {child} + (Cells(t.name) + Under(t)) && Gained(old(heap.live), heap.live, Cells(t.name) + Under(t))
    ensures if r.NoMemory? then heap.denied > old(heap.denied) else heap.denied == old(heap.denied)
    ensures Skipped(text, at, r, p) && (r.Read? ==> Shows(t, p.value))
    decreases |text| - at, 4, 1
  {
    Here(ks);
    ghost var before := heap.live;
    r, t := FillBeside(heap, child, named, text, at, p, ks);
    FootParts(t);
    assert {t.item as object} + Cells(t.name) + Under(t) == {t.item} + (Cells(t.name) + Under(t));
    NewFoot(t, Cells(t.name) + Under(t), before, FootAll(ks), item);
    Grown(item, ks, t);
  }

  lemma NewFoot(t: Shape, more: set<object>, before: set<object>, others: set<object>, item: Item)
    requires Foot(t) == {t.item} + more && before !! more && others <= before && item in before
    requires t.item !in others && t.item != item
    ensures others !! Foot(t) && item !in Foot(t)
  {}

  /** The siblings stay as they are. */
  method FillBeside(heap: Allocator, child: Item, named: bool, text: Text, at: nat, ghost p: Parsed<Part>, ghost ks: seq<Shape>)
    returns (r: Outcome, ghost t: Shape)
    requires Source(text) && PartAt(text, at, named, p) && TreeAll(ks, Plain) && child !in FootAll(ks)
    requires HoldsNothing(child) && child.name == null && child in heap.live
    modifies heap, child`child, child`valuestring, child`kind, child`isReference, child`number, child`name
    ensures TreeAll(ks, Plain) && t.item == child && Tree(t, Plain) && Sep(t)
    ensures Gained(old(heap.live), heap.live, Cells(t.name) + Under(t))
    ensures if r.NoMemory? then heap.denied > old(heap.denied) else heap.denied == old(heap.denied)
    ensures Skipped(text, at, r, p) && (r.Read? ==> Shows(t, p.value))
    decreases |text| - at, 4, 0
  {
    Here(ks);
    NodesInFoot(ks);
    r, t := FillPart(heap, child, named, text, at, p);
    Kept(ks, Plain);
  }

  method FillPart(heap: Allocator, child: Item, named: bool, text: Text, at: nat, ghost p: Parsed<Part>) returns (r: Outcome, ghost t: Shape)
    requires Source(text) && PartAt(text, at, named, p)
    requires HoldsNothing(child) && child.name == null && child in heap.live
    modifies heap, child`child, child`valuestring, child`kind, child`isReference, child`number, child`name
    ensures t.item == child && Tree(t, Plain) && Sep(t)
    ensures Gained(old(heap.live), heap.live, Cells(t.name) + Under(t))
    ensures if r.NoMemory? then heap.denied > old(heap.denied) else heap.denied == old(heap.denied)
    ensures Skipped(text, at, r, p) && (r.Read? ==> Shows(t, p.value))
    decreases |text| - at, 3
  {
    assert p == ParsePart(text[at..], named);
    if named {
      r, t := FillMember(heap, child, text, at, ParseMember(text[at..]));
    } else {
      r, t := FillValue(heap, child, text, at, Json.ParseValue(Skip(text[at..])), None);
    }
  }

  // ----- Members ----------------------------------------------------------------------

  /** The name up to its colon: parsed as the child's value, then moved. */
  method FillName(heap: Allocator, child: Item, text: Text, at: nat, ghost k: Parsed<Text>)
    returns (r: Outcome, ghost t: Shape)
    requires Source(text) && at <= |text| && k == Json.ParseString(Skip(text[at..]))
    requires HoldsNothing(child) && child.name == null
    modifies heap, child`valuestring, child`kind, child`isReference, child`name
    ensures t.item == child && Tree(t, Plain) && Sep(t) && t.kids == [] && !child.isReference && child.child == null
    ensures Gained(old(heap.live), heap.live, Cells(t.str) + Cells(t.name))
    ensures if r.NoMemory? then heap.denied > old(heap.denied) else heap.denied == old(heap.denied)
    ensures r.Read? ==>
              && t.str == None && k.Parsed? && Called(t, k.value) && at < r.next <= |text|
              && Head(Skip(k.rest)) == COLON && Skip(k.rest) != [] && text[r.next..] == Skip(k.rest)[1..]
    ensures r.Bad? ==> r.ep <= |text| && text[r.ep..] == if k.Parsed? then Skip(k.rest) else k.at
    ensures r.Bad? && k.Parsed? ==> Head(Skip(k.rest)) != COLON
  {
    ghost var str;
    var value := SkipBlanks(text, at);
    assert StringAt(text, value, k);
    r, str := ParseString(heap, child, text, value, k);
    if !r.Read? {
      t := Shape(child, child.kind, child.number, str, None, []);
      LeafTree(t);
      assert Cells(t.str) + Cells(t.name) == Cells(str);
      return;
    }
    assert Cells(None) + Cells(str) == Cells(str);
    r, t := NameAndColon(child, text, r.next, k.rest, str);
  }

  /** The text becomes the name; then comes the colon. */
  method NameAndColon(child: Item, text: Text, at: nat, ghost s: Text, ghost str: Option<Block>) returns (r: Outcome, ghost t: Shape)
    requires at <= |text| && s == text[at..] && Stored(child.valuestring, str) && child.child == null && !child.isReference
    modifies child`name, child`valuestring
    ensures t == Shape(child, child.kind, child.number, None, str, []) && Tree(t, Plain) && Sep(t) && !r.NoMemory?
    ensures r.Read? ==> at < r.next <= |text| && Head(Skip(s)) == COLON && Skip(s) != [] && text[r.next..] == Skip(s)[1..]
    ensures r.Bad? ==> r.ep <= |text| && Head(Skip(s)) != COLON && text[r.ep..] == Skip(s)
  {
    MoveName(child, str);
    t := Shape(child, child.kind, child.number, None, str, []);
    LeafTree(t);
    assert allocated(Arrays(str));
    label moved:
    r := ReadColon(text, at, s);
    KeptLeaf@moved(t);
  }

  /** Name, colon and value, and the blanks around them. */
  method FillMember(heap: Allocator, child: Item, text: Text, at: nat, ghost p: Parsed<Member>) returns (r: Outcome, ghost t: Shape)
    requires Source(text) && at <= |text| && p == ParseMember(text[at..])
    requires HoldsNothing(child) && child.name == null && child in heap.live
    modifies heap, child`child, child`valuestring, child`kind, child`isReference, child`number, child`name
    ensures t.item == child && Tree(t, Plain) && Sep(t)
    ensures Gained(old(heap.live), heap.live, Cells(t.name) + Under(t))
    ensures if r.NoMemory? then heap.denied > old(heap.denied) else heap.denied == old(heap.denied)
    ensures Skipped(text, at, r, p) && (r.Read? ==> Called(t, p.value.name) && Means(t, p.value.value))
    decreases |text| - at, 2
  {
    ghost var k := Json.ParseString(Skip(text[at..]));
    r, t := FillName(heap, child, text, at, k);
    if !r.Read? { return; }
    var value := r.next;
    r, t := FillValue(heap, child, text, value, Json.ParseValue(Skip(text[value..])), t.name);
  }

  /** An item, or the value behind the colon, and the blanks around it. */
  method FillValue(heap: Allocator, child: Item, text: Text, at: nat, ghost p: Parsed<Value>, ghost name: Option<Block>)
    returns (r: Outcome, ghost t: Shape)
    requires Source(text) && at <= |text| && p == Json.ParseValue(Skip(text[at..]))
    requires HoldsNothing(child) && Stored(child.name, name) && child in heap.live && Cells(name) <= heap.live
    modifies heap, child`child, child`valuestring, child`kind, child`isReference, child`number
    ensures t.item == child && Tree(t, Plain) && Sep(t) && t.name == name
    ensures Gained(old(heap.live), heap.live, Under(t))
    ensures if r.NoMemory? then heap.denied > old(heap.denied) else heap.denied == old(heap.denied)
    ensures Skipped(text, at, r, p) && (r.Read? ==> Means(t, p.value))
    decreases |text| - at, 2
  {
    assert allocated(Arrays(name)) && forall b | b in Arrays(name) :: !((b as object) is Item);
    var value := SkipBlanks(text, at);
    ghost var v;
    r, v := ParseValue(heap, child, text, value, p);
    if r.Read? {
      label parsed:
      Here(v.kids);
      assert allocated(v.item) && allocated(Arrays(v.str));
      var next := SkipBlanks(text, r.next);
      KeptBody@parsed(v, Plain);
      r := Read(next);
    }
    KeptName(child.name, name);
    t := v.(name := name);
  }

  method ReadColon(text: Text, at: nat, ghost s: Text) returns (r: Outcome)
    requires at <= |text| && s == text[at..]
    ensures !r.NoMemory?
    ensures r.Read? ==> at < r.next <= |text| && Head(Skip(s)) == COLON && Skip(s) != [] && text[r.next..] == Skip(s)[1..]
    ensures r.Bad? ==> r.ep <= |text| && Head(Skip(s)) != COLON && text[r.ep..] == Skip(s)
  {
    var colon := SkipBlanks(text, at);
    Suffix(text, colon, 0);
    if Peek(text, colon) != COLON { return Bad(colon); }
    Suffix(text, colon, 1);
    r := Read(colon + 1);
  }

  method MoveName(child: Item, ghost str: Option<Block>)
    requires Stored(child.valuestring, str)
    modifies child`name, child`valuestring
    ensures Stored(child.name, str) && child.valuestring == null
  {
    ghost var p := child.valuestring;
    assert forall b | b in Arrays(str) :: !((b as object) is Item);
    child.name, child.valuestring := child.valuestring, null;
    assert Stored(p, str);
  }

  twostate lemma KeptLeaf(t: Shape)
    requires old(Tree(t, Plain)) && t.kids == [] && old(allocated(t.item) && allocated(Arrays(t.str)) && allocated(Arrays(t.name)))
    requires unchanged(t.item) && unchanged(Arrays(t.str)) && unchanged(Arrays(t.name))
    ensures Tree(t, Plain)
  {}

  // ----- Arrays and objects -------------------------------------------------------------

  /** Parts separated by commas; the rest begins with what follows the last one. */
  function ParseParts(s: Text, named: bool): Parsed<seq<Part>>
    decreases |s|
  {
    var p := ParsePart(s, named);
    if p.Malformed? then Malformed(p.at)
    else
      var s2 := Skip(p.rest);
      if Head(s2) == COMMA then Onto([p.value], ParseParts(s2[1..], named)) else Parsed([p.value], s2)
  }

  function Onto(parts: seq<Part>, q: Parsed<seq<Part>>): Parsed<seq<Part>> {
    if q.Parsed? then Parsed(parts + q.value, q.rest) else q
  }

  function AfterPart(s: Text, named: bool): Parsed<seq<Part>> {
    if Head(s) == COMMA then ParseParts(s[1..], named) else Parsed([], s)
  }

  lemma PartsBegin(s: Text, named: bool, p: Parsed<Part>)
    requires p == ParsePart(s, named)
    ensures ParseParts(s, named) == if p.Parsed? then Onto([p.value], AfterPart(Skip(p.rest), named)) else Malformed(p.at)
  {
    if p.Parsed? { assert [p.value] + [] == [p.value]; }
  }

  lemma PartsGoOn(parts: seq<Part>, s: Text, named: bool, p: Parsed<Part>)
    requires Head(s) == COMMA && s != [] && p == ParsePart(s[1..], named)
    ensures p.Malformed? ==> Onto(parts, AfterPart(s, named)) == Malformed(p.at)
    ensures p.Parsed? ==> Onto(parts, AfterPart(s, named)) == Onto(parts + [p.value], AfterPart(Skip(p.rest), named))
  {
    PartsBegin(s[1..], named, p);
    if p.Parsed? {
      var q := AfterPart(Skip(p.rest), named);
      if q.Parsed? { assert parts + ([p.value] + q.value) == parts + [p.value] + q.value; }
    }
  }

  lemma FirstPart(text: Text, at: nat, named: bool, q: Parsed<seq<Part>>) returns (p: Parsed<Part>)
    requires PartsAt(text, at, named, q)
    ensures PartAt(text, at, named, p) && (p.Malformed? ==> q == Malformed(p.at))
    ensures p.Parsed? ==> forall i: nat | i <= |text| && Skip(p.rest) == text[i..] :: AfterAt(text, i, named, [p.value], q)
  {
    p := ParsePart(text[at..], named);
    PartsBegin(text[at..], named, p);
  }

  lemma NextPart(text: Text, at: nat, named: bool, parts: seq<Part>, q: Parsed<seq<Part>>) returns (p: Parsed<Part>)
    requires at < |text| && text[at] == COMMA && AfterAt(text, at, named, parts, q)
    ensures PartAt(text, at + 1, named, p) && (p.Malformed? ==> q == Malformed(p.at))
    ensures p.Parsed? ==> forall i: nat | i <= |text| && Skip(p.rest) == text[i..] :: AfterAt(text, i, named, parts + [p.value], q)
  {
    Suffix(text, at, 1);
    Suffix(text, at, 0);
    p := ParsePart(text[at + 1..], named);
    PartsGoOn(parts, text[at..], named, p);
  }

  lemma {:induction false} LastPart(text: Text, at: nat, named: bool, parts: seq<Part>, q: Parsed<seq<Part>>)
    requires AfterAt(text, at, named, parts, q) && Peek(text, at) != COMMA
    ensures q == Parsed(parts, text[at..])
  {
    Suffix(text, at, 0);
    assert parts + [] == parts;
    assert AfterPart(text[at..], named) == Parsed([], text[at..]);
  }

  ghost predicate ShowAll(ks: seq<Shape>, parts: seq<Part>) {
    |ks| == |parts| && forall i | 0 <= i < |ks| :: Shows(ks[i], parts[i])
  }

  /** The children, up to the first that is not followed by a comma. */
  method ReadParts(heap: Allocator, item: Item, named: bool, text: Text, at: nat, ghost q: Parsed<seq<Part>>)
    returns (r: Outcome, ghost ks: seq<Shape>)
    requires Source(text) && PartsAt(text, at, named, q)
    requires item.child == null && item in heap.live
    modifies heap, item`child
    ensures Linked(item.child, Roots(ks)) && TreeAll(ks, Plain) && SepAll(ks)
    ensures Gained(old(heap.live), heap.live, FootAll(ks))
    ensures if r.NoMemory? then heap.denied > old(heap.denied) else heap.denied == old(heap.denied)
    ensures Agrees(text, at, r, q) && (r.Read? ==> ShowAll(ks, q.value))
    decreases |text| - at, 6
  {
    ghost var p := FirstPart(text, at, named, q);
    var last;
    r, last, ks := AddPart(heap, item, null, named, text, at, [], p);
    assert [] + ks == ks;
    if !r.Read? { return; }
    var value := r.next;
    ghost var parts, base := [p.value], old(heap.live);
    while Peek(text, value) == COMMA
      invariant at < value <= |text| && Listed(item, last, ks) && Gained(base, heap.live, FootAll(ks))
      invariant last != null && fresh(last) && heap.denied == old(heap.denied)
      invariant ShowAll(ks, parts) && AfterAt(text, value, named, parts, q)
      decreases |text| - value
    {
      r, last, ks, parts := ReadNext(heap, item, last, named, text, value, ks, parts, q, base);
      if !r.Read? { return; }
      value := r.next;
    }
    LastPart(text, value, named, parts, q);
    r := Read(value);
  }

  /** One turn of the loop. */
  method ReadNext(heap: Allocator, item: Item, last: Item, named: bool, text: Text, at: nat,
                  ghost ks: seq<Shape>, ghost parts: seq<Part>, ghost q: Parsed<seq<Part>>, ghost base: set<object>)
    returns (r: Outcome, child: Item?, ghost ks': seq<Shape>, ghost parts': seq<Part>)
    requires Source(text) && at < |text| && text[at] == COMMA
    requires Listed(item, last, ks) && item in base && Gained(base, heap.live, FootAll(ks))
    requires ShowAll(ks, parts) && AfterAt(text, at, named, parts, q)
    modifies heap, item`child, last`next
    ensures Listed(item, if child == null then last else child, ks') && Gained(base, heap.live, FootAll(ks'))
    ensures child != null ==> fresh(child)
    ensures if r.NoMemory? then heap.denied > old(heap.denied) else heap.denied == old(heap.denied)
    ensures r.Bad? ==> r.ep <= |text| && q == Malformed(text[r.ep..])
    ensures r.Read? ==>
              && child != null && at < r.next <= |text| && ShowAll(ks', parts')
              && AfterAt(text, r.next, named, parts', q)
    decreases |text| - at, 6
  {
    ghost var p := NextPart(text, at, named, parts, q);
    ghost var more;
    ghost var mid := heap.live;
    r, child, more := AddPart(heap, item, last, named, text, at + 1, ks, p);
    GainedBoth(base, mid, heap.live, FootAll(ks), FootAll(more));
    ks', parts' := ks + more, parts;
    if r.Read? {
      parts' := parts + [p.value];
      ShowMore(ks, parts, more, p.value);
    }
  }

  lemma ShowMore(ks: seq<Shape>, parts: seq<Part>, more: seq<Shape>, p: Part)
    requires ShowAll(ks, parts) && |more| == 1 && Shows(more[0], p)
    ensures ShowAll(ks + more, parts + [p])
  {}

  ghost function Values(parts: seq<Part>): (vs: seq<Value>)
    ensures |vs| == |parts| && forall i | 0 <= i < |vs| :: vs[i] == parts[i].value
  {
    seq(|parts|, i requires 0 <= i < |parts| => parts[i].value)
  }

  /** Behind the parts: the closing bracket. */
  function Closed(q: Parsed<seq<Part>>, bracket: Char): Parsed<seq<Part>> {
    if q.Malformed? then q
    else if Head(q.rest) == bracket then Parsed(q.value, q.rest[1..]) else Malformed(q.rest)
  }

  lemma ValuesCons(p: Part, rest: seq<Part>)
    ensures Values([p] + rest) == [p.value] + Values(rest) && Values([p]) == [p.value]
  {}

  lemma {:induction false} ItemsAreParts(s: Text)
    ensures var q := Closed(ParseParts(s, false), RBRACKET);
            ParseItems(s) == if q.Parsed? then Parsed(Values(q.value), q.rest) else Malformed(q.at)
    decreases |s|
  {
    var p := Json.ParseValue(Skip(s));
    if p.Parsed? {
      var s2 := Skip(p.rest);
      ValuesCons(Part(None, p.value), []);
      if Head(s2) == COMMA {
        ItemsAreParts(s2[1..]);
        var q := ParseParts(s2[1..], false);
        if q.Parsed? { ValuesCons(Part(None, p.value), q.value); }
      }
    }
  }

  ghost function Members(parts: seq<Part>): (ms: seq<Member>)
    ensures |ms| == |parts|
    ensures forall i | 0 <= i < |ms| && parts[i].name.Some? :: ms[i] == Member(parts[i].name.value, parts[i].value)
  {
    seq(|parts|, i requires 0 <= i < |parts| =>
      Member(if parts[i].name.Some? then parts[i].name.value else [], parts[i].value))
  }

  lemma MembersCons(p: Part, rest: seq<Part>)
    requires p.name.Some?
    ensures Members([p] + rest) == [Member(p.name.value, p.value)] + Members(rest)
    ensures Members([p]) == [Member(p.name.value, p.value)]
  {}

  lemma {:induction false} MembersAreParts(s: Text)
    ensures var q := Closed(ParseParts(s, true), RBRACE);
            ParseMembers(s) == if q.Parsed? then Parsed(Members(q.value), q.rest) else Malformed(q.at)
    decreases |s|
  {
    var m := ParseMember(s);
    if m.Parsed? {
      var s2 := Skip(m.rest);
      var p := Part(Some(m.value.name), m.value.value);
      MembersCons(p, []);
      if Head(s2) == COMMA {
        MembersAreParts(s2[1..]);
        var q := ParseParts(s2[1..], true);
        if q.Parsed? { MembersCons(p, q.value); }
      }
    }
  }

  lemma {:induction false} MembersNamed(s: Text)
    ensures var q := ParseParts(s, true);
            q.Parsed? ==> forall i | 0 <= i < |q.value| :: q.value[i].name.Some?
    decreases |s|
  {
    var m := ParseMember(s);
    if m.Parsed? {
      var p, q, s2 := Part(Some(m.value.name), m.value.value), ParseParts(s, true), Skip(m.rest);
      if Head(s2) == COMMA {
        MembersNamed(s2[1..]);
        var more := ParseParts(s2[1..], true);
        if more.Parsed? {
          assert q.value == [p] + more.value;
          assert forall i | 1 <= i < |q.value| :: q.value[i] == more.value[i - 1];
        }
      } else {
        assert q.value == [p];
      }
    }
  }

  ghost function ArrayOf(q: Parsed<seq<Part>>): Parsed<Value> {
    if q.Parsed? then Parsed(Array(Values(q.value)), q.rest) else Malformed(q.at)
  }

  ghost function ObjectOf(q: Parsed<seq<Part>>): Parsed<Value> {
    if q.Parsed? then Parsed(Object(Members(q.value)), q.rest) else Malformed(q.at)
  }

  /** The parts of an array that is not empty. */
  lemma ArrayCase(text: Text, at: nat, value: nat, p: Parsed<Value>) returns (q: Parsed<seq<Part>>)
    requires at < |text| && text[at] == LBRACKET && ValueAt(text, at, p)
    requires value <= |text| && text[value..] == Skip(text[at + 1..])
    ensures PartsAt(text, value, false, q)
    ensures p == if Peek(text, value) == RBRACKET then Parsed(Array([]), text[value + 1..]) else ArrayOf(Closed(q, RBRACKET))
  {
    assert p == Json.ParseValue(text[at..]);
    Suffix(text, at, 1);
    Suffix(text, value, 0);
    if value < |text| { Suffix(text, value, 1); }
    q := ParseParts(text[value..], false);
    ItemsAreParts(text[value..]);
  }

  lemma {:induction false} ObjectCase(text: Text, at: nat, value: nat, p: Parsed<Value>) returns (q: Parsed<seq<Part>>)
    requires at < |text| && text[at] == LBRACE && ValueAt(text, at, p)
    requires value <= |text| && text[value..] == Skip(text[at + 1..])
    ensures PartsAt(text, value, true, q)
    ensures p == if Peek(text, value) == RBRACE then Parsed(Object([]), text[value + 1..]) else ObjectOf(Closed(q, RBRACE))
    ensures q.Parsed? ==> forall i | 0 <= i < |q.value| :: q.value[i].name.Some?
  {
    assert p == Json.ParseValue(text[at..]);
    Suffix(text, at, 1);
    Suffix(text, value, 0);
    if value < |text| { Suffix(text, value, 1); }
    q := ParseParts(text[value..], true);
    MembersAreParts(text[value..]);
    MembersNamed(text[value..]);
  }

  method ParseArray(heap: Allocator, item: Item, text: Text, at: nat, ghost p: Parsed<Value>) returns (r: Outcome, ghost t: Shape)
    requires Source(text) && at < |text| && text[at] == LBRACKET && ValueAt(text, at, p)
    requires HoldsNothing(item) && item in heap.live
    modifies heap, item`child, item`kind, item`isReference
    ensures t.item == item && t.name == None && Body(t, Plain) && SepUnder(t)
    ensures Gained(old(heap.live), heap.live, Under(t))
    ensures if r.NoMemory? then heap.denied > old(heap.denied) else heap.denied == old(heap.denied)
    ensures Agrees(text, at, r, p) && (r.Read? ==> Means(t, p.value))
    decreases |text| - at, 0
  {
    item.kind, item.isReference := ArrayKind, false;
    var value := SkipBlanks(text, at + 1);
    ghost var ks;
    ghost var q := ArrayCase(text, at, value, p);
    if Peek(text, value) == RBRACKET { return Read(value + 1), Leaf(item, ArrayKind, item.number, None); }
    r, ks := ReadList(heap, item, false, text, value, q, RBRACKET);
    t := Shape(item, ArrayKind, item.number, None, None, ks);
  }

  method ParseObject(heap: Allocator, item: Item, text: Text, at: nat, ghost p: Parsed<Value>) returns (r: Outcome, ghost t: Shape)
    requires Source(text) && at < |text| && text[at] == LBRACE && ValueAt(text, at, p)
    requires HoldsNothing(item) && item in heap.live
    modifies heap, item`child, item`kind, item`isReference
    ensures t.item == item && t.name == None && Body(t, Plain) && SepUnder(t)
    ensures Gained(old(heap.live), heap.live, Under(t))
    ensures if r.NoMemory? then heap.denied > old(heap.denied) else heap.denied == old(heap.denied)
    ensures Agrees(text, at, r, p) && (r.Read? ==> Means(t, p.value))
    decreases |text| - at, 0
  {
    item.kind, item.isReference := ObjectKind, false;
    var value := SkipBlanks(text, at + 1);
    ghost var ks;
    ghost var q := ObjectCase(text, at, value, p);
    if Peek(text, value) == RBRACE { return Read(value + 1), Leaf(item, ObjectKind, item.number, None); }
    r, ks := ReadList(heap, item, true, text, value, q, RBRACE);
    t := Shape(item, ObjectKind, item.number, None, None, ks);
    if r.Read? { ShowsMembers(ks, q.value); }
  }

  lemma ShowsMembers(ks: seq<Shape>, parts: seq<Part>)
    requires ShowAll(ks, parts) && forall i | 0 <= i < |parts| :: parts[i].name.Some?
    ensures MeansMembers(ks, Members(parts))
  {
    assert forall i | 0 <= i < |ks| :: Shows(ks[i], parts[i]) && Members(parts)[i] == Member(parts[i].name.value, parts[i].value);
  }

  /** The children and the closing bracket. */
  method ReadList(heap: Allocator, item: Item, named: bool, text: Text, at: nat, ghost q: Parsed<seq<Part>>, bracket: Char)
    returns (r: Outcome, ghost ks: seq<Shape>)
    requires Source(text) && PartsAt(text, at, named, q) && item.child == null && item in heap.live
    modifies heap, item`child
    ensures Linked(item.child, Roots(ks)) && TreeAll(ks, Plain) && SepAll(ks)
    ensures Gained(old(heap.live), heap.live, FootAll(ks))
    ensures if r.NoMemory? then heap.denied > old(heap.denied) else heap.denied == old(heap.denied)
    ensures Agrees(text, at, r, Closed(q, bracket)) && (r.Read? ==> ShowAll(ks, q.value))
    decreases |text| - at, 7
  {
    r, ks := ReadParts(heap, item, named, text, at, q);
    if r.Read? {
      var end := r.next;
      Suffix(text, end, 0);
      if Peek(text, end) == bracket {
        Suffix(text, end, 1);
        r := Read(end + 1);
      } else {
        r := Bad(end);
      }
    }
  }

  // ----- cJSON_ParseWithOpts --------------------------------------------------------------

  /**
   The root, and where reading stopped or what `*ep` is left at. Either the text is accepted
   and exactly the nodes and strings of the tree have been allocated, or nothing new is left.
   */
  method ParseWithOpts(heap: Allocator, text: Text, toEnd: bool) returns (c: Item?, r: Outcome, ghost t: Option<Shape>)
    requires Source(text)
    modifies heap
    ensures (c != null) == r.Read? == t.Some?
    ensures c == null ==> heap.live == old(heap.live)
    ensures c != null ==>
              && t.value.item == c && IsRoot(c) && Tree(t.value, Plain) && Sep(t.value) && t.value.name == None
              && Gained(old(heap.live), heap.live, Foot(t.value))
    ensures r.Read? ==>
              && r.next <= |text| && Parse(text, toEnd).Parsed? && Parse(text, toEnd).rest == text[r.next..]
              && Means(t.value, Parse(text, toEnd).value)
    ensures r.Bad? ==> r.ep <= |text| && Parse(text, toEnd) == Malformed(text[r.ep..])
    ensures if r.NoMemory? then heap.denied > old(heap.denied) else heap.denied == old(heap.denied)
  {
    c := NewItem(heap);
    if c == null { return null, NoMemory, None; }
    ghost var mid := heap.live;
    ghost var d := Parse(text, toEnd);
    ghost var root;
    r, root := ParseRoot(heap, c, text, toEnd, d);
    GainedBoth(old(heap.live), mid, heap.live, {c}, Under(root));
    t := Some(root);
    if !r.Read? {
      PlainTree(root);
      DeleteOne(heap, c, root);
      return null, r, None;
    }
  }

  ghost predicate DocumentIs(text: Text, toEnd: bool, d: Parsed<Value>) {
    forall s {:trigger Parse(s, toEnd)} :: s == text ==> Parse(s, toEnd) == d
  }

  /** The value and, if asked for, the end of the text. */
  method ParseRoot(heap: Allocator, c: Item, text: Text, toEnd: bool, ghost d: Parsed<Value>) returns (r: Outcome, ghost t: Shape)
    requires Source(text) && HoldsNothing(c) && IsRoot(c) && c.name == null && c in heap.live && DocumentIs(text, toEnd, d)
    modifies heap, c`child, c`valuestring, c`kind, c`isReference, c`number
    ensures t.item == c && Tree(t, Plain) && Sep(t) && t.name == None
    ensures Gained(old(heap.live), heap.live, Under(t))
    ensures if r.NoMemory? then heap.denied > old(heap.denied) else heap.denied == old(heap.denied)
    ensures r.Read? ==> r.next <= |text| && d.Parsed? && d.rest == text[r.next..] && Means(t, d.value)
    ensures r.Bad? ==> r.ep <= |text| && d == Malformed(text[r.ep..])
  {
    var value := SkipBlanks(text, 0);
    ghost var p := FirstValue(text, value, toEnd, d);
    r, t := ParseValue(heap, c, text, value, p);
    if r.Read? && toEnd {
      label parsed:
      Here(t.kids);
      assert allocated(t.item) && allocated(Arrays(t.str));
      var end := SkipBlanks(text, r.next);
      KeptBody@parsed(t, Plain);
      Suffix(text, end, 0);
      r := if Peek(text, end) != 0 then Bad(end) else Read(end);
    }
  }

  lemma FirstValue(text: Text, value: nat, toEnd: bool, d: Parsed<Value>) returns (p: Parsed<Value>)
    requires DocumentIs(text, toEnd, d) && value <= |text| && text[value..] == Skip(text[0..])
    ensures ValueAt(text, value, p)
    ensures d == if p.Parsed? && toEnd then (if Skip(p.rest) == [] then Parsed(p.value, []) else Malformed(Skip(p.rest))) else p
  {
    assert text[0..] == text;
    assert d == Parse(text, toEnd);
    p := Json.ParseValue(text[value..]);
  }
}
