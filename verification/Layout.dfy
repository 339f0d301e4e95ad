/**
 Where the printers put white space, as a scan of the bytes that knows nothing of values: a stack
 of open brackets, strings passed over, and every blank accounted for.
 */
module Layout {
  import opened Bytes
  import opened Json
  import opened Grammar
  import opened JsonPrint

  /** The length of the string that starts `s`, with both quotes, or more if it is not closed. */
  function StringLength(s: Text): (n: nat)
    requires s != []
    ensures n >= 2
  {
    2 + BodyLength(s[1..])
  }

  /** The number of bytes 9 in front. */
  function TabCount(s: Text): (n: nat)
    ensures n <= |s|
  {
    if s != [] && s[0] == 9 then 1 + TabCount(s[1..]) else 0
  }

  function Innermost(open: Text): byte {
    if open == [] then 0 else open[|open| - 1]
  }

  /**
   Formatted text from here on. Behind a brace, behind a comma of an object and in front of its
   closing brace stands a byte 10 and a byte 9 for every bracket open there, one fewer in front of
   the closing brace; behind a colon one byte 9; behind a comma of an array one byte 32.
   Outside strings there is no other byte up to 32.
   */
  predicate Formatted(s: Text, open: Text)
    decreases |s|, 1
  {
    if s == [] then open == []
    else if s[0] == 34 then StringLength(s) <= |s| && Formatted(s[StringLength(s)..], open)
    else if s[0] == 123 then Head(s[1..]) == 10 && FormattedLine(s[2..], open + [123], false)
    else if s[0] == 44 && Innermost(open) == 123 then Head(s[1..]) == 10 && FormattedLine(s[2..], open, false)
    else if s[0] == 44 then Innermost(open) == 91 && Head(s[1..]) == 32 && Formatted(s[2..], open)
    else if s[0] == 10 then FormattedLine(s[1..], open, true)
    else if s[0] == 58 then Innermost(open) == 123 && Head(s[1..]) == 9 && Formatted(s[2..], open)
    else if s[0] == 91 then Formatted(s[1..], open + [91])
    else if s[0] == 93 then Innermost(open) == 91 && Formatted(s[1..], open[..|open| - 1])
    else if s[0] == 125 then Innermost(open) == 123 && Formatted(s[1..], open[..|open| - 1])
    else s[0] > 32 && Formatted(s[1..], open)
  }

  /** The tabs of a line, one fewer if it closes a brace; only a closing brace may be demanded. */
  predicate FormattedLine(s: Text, open: Text, closes: bool)
    decreases |s|, 2
  {
    var n := TabCount(s);
    if Head(s[n..]) == 125 then n + 1 == |open| && Formatted(s[n..], open)
    else !closes && n == |open| && Formatted(s[n..], open)
  }

  /** Text without a blank outside strings. */
  predicate Compact(s: Text)
    decreases |s|
  {
    if s == [] then true
    else if s[0] == 34 then StringLength(s) <= |s| && Compact(s[StringLength(s)..])
    else s[0] > 32 && Compact(s[1..])
  }

  // ----- Tokens ---------------------------------------------------------------------

  /** A byte that is no string, no punctuation and no blank. */
  predicate Ordinary(c: byte) {
    c > 32 && c != 34 && c != 44 && c != 58 && c != 91 && c != 93 && c != 123 && c != 125
  }

  lemma {:induction false} TokenLaid(tok: Text, tail: Text, open: Text)
    requires forall i | 0 <= i < |tok| :: Ordinary(tok[i])
    ensures Formatted(tok + tail, open) == Formatted(tail, open) && Compact(tok + tail) == Compact(tail)
  {
    if tok == [] {
      assert tok + tail == tail;
    } else {
      assert (tok + tail)[1..] == tok[1..] + tail;
      TokenLaid(tok[1..], tail, open);
    }
  }

  lemma NumberOrdinary(n: NumToken)
    ensures forall i | 0 <= i < |NumText(n)| :: Ordinary(NumText(n)[i])
  {
    forall c: byte | IsDigit(c) || c == MINUS || c == PLUS || c == POINT || IsExponentMark(c) ensures Ordinary(c) {}
    var e := ExpText(n.exp);
    assert forall i | 0 <= i < |e| :: Ordinary(e[i]);
    var f := FracText(n.frac);
    assert forall i | 0 <= i < |f| :: Ordinary(f[i]);
  }

  lemma StringLaid(z: Text, tail: Text, open: Text)
    ensures Formatted(PrintString(z) + tail, open) == Formatted(tail, open)
    ensures Compact(PrintString(z) + tail) == Compact(tail)
  {
    EscapedEnds(z, tail);
    StringParts(EscapeText(z), tail);
    StringPassed(PrintString(z) + tail, |PrintString(z)|, tail, open);
  }

  lemma EscapedEnds(z: Text, tail: Text)
    ensures BodyLength(EscapeText(z) + ([QUOTE] + tail)) == |EscapeText(z)|
  {
    StringPiecesRight(z);
    BodyLengthOf(StringPieces(z), tail);
  }

  lemma StringParts(body: Text, tail: Text)
    requires BodyLength(body + ([QUOTE] + tail)) == |body|
    ensures var s := [34] + body + [34] + tail; s[0] == 34 && StringLength(s) == |body| + 2 && s[|body| + 2..] == tail
  {
    var s := [34] + body + [34] + tail;
    assert s[1..] == body + ([QUOTE] + tail);
  }

  lemma StringPassed(s: Text, n: nat, tail: Text, open: Text)
    requires s != [] && s[0] == 34 && StringLength(s) == n <= |s| && s[n..] == tail
    ensures Formatted(s, open) == Formatted(tail, open) && Compact(s) == Compact(tail)
  {}

  lemma {:induction false} TabsCounted(n: nat, tail: Text)
    requires Head(tail) != 9
    ensures TabCount(Tabs(n) + tail) == n && (Tabs(n) + tail)[n..] == tail
  {
    if n == 0 {
      assert Tabs(0) + tail == tail;
    } else {
      TabsCounted(n - 1, tail);
      assert Tabs(n) == [TAB] + Tabs(n - 1);
      assert (Tabs(n) + tail)[1..] == Tabs(n - 1) + tail;
    }
  }

  /** A printed value starts with a byte that is neither a blank nor a closing brace. */
  lemma PrintStarts(v: Value, depth: nat, fmt: bool, fp: FloatText)
    ensures var s := Print(v, depth, fmt, fp); s != [] && s[0] > 32 && s[0] != 125
  {
    PrintTreeText(v, depth, fmt, fp);
    RenderStarts(PrintTree(v, depth, fmt, fp));
  }

  // ----- Formatted values ---------------------------------------------------------------

  /** In front of a byte that is no tab, a printed value leaves the scan where it was. */
  lemma {:induction false} ValueLaid(v: Value, open: Text, tail: Text, fp: FloatText)
    ensures Formatted(Print(v, |open|, true, fp) + tail, open) == Formatted(tail, open)
    decreases v, 1, 0
  {
    match v
    case Null => TokenLaid(NULL_TEXT, tail, open);
    case False => TokenLaid(FALSE_TEXT, tail, open);
    case True => TokenLaid(TRUE_TEXT, tail, open);
    case Number(d) =>
      NumberOrdinary(NumberToken(d, fp));
      TokenLaid(NumText(NumberToken(d, fp)), tail, open);
    case String(s) => StringLaid(s, tail, open);
    case Array(items) => ArrayLaid(v, items, open, tail, fp);
    case Object(members) => ObjectLaid(v, members, open, tail, fp);
  }

  lemma {:induction false} ArrayLaid(v: Value, items: seq<Value>, open: Text, tail: Text, fp: FloatText)
    requires v == Array(items)
    ensures Formatted(Print(v, |open|, true, fp) + tail, open) == Formatted(tail, open)
    decreases v, 0, |items| + 1
  {
    var inner, body := open + [91], PrintItems(items, |open| + 1, true, fp);
    assert Print(v, |open|, true, fp) + tail == [91] + (body + ([93] + tail));
    assert ([91] + (body + ([93] + tail)))[1..] == body + ([93] + tail);
    ItemsLaid(v, items, inner, [93] + tail, fp);
    assert inner[..|inner| - 1] == open && ([93] + tail)[1..] == tail;
  }

  lemma {:induction false} ItemsLaid(whole: Value, items: seq<Value>, open: Text, tail: Text, fp: FloatText)
    requires (forall i | 0 <= i < |items| :: items[i] < whole) && Innermost(open) == 91
    ensures Formatted(PrintItems(items, |open|, true, fp) + tail, open) == Formatted(tail, open)
    decreases whole, 0, |items|
  {
    if items == [] {
      assert PrintItems(items, |open|, true, fp) + tail == tail;
    } else {
      var first, more := Print(items[0], |open|, true, fp), PrintItems(items[1..], |open|, true, fp);
      var comma := Comma(|items| > 1, [32]);
      Regroup3(first, comma, more, tail);
      ValueLaid(items[0], open, comma + (more + tail), fp);
      ItemsLaid(whole, items[1..], open, tail, fp);
      if |items| > 1 {
        assert comma == [44, 32];
        CommaLaid(more + tail, open);
      } else {
        assert more == [] && comma + (more + tail) == tail;
      }
    }
  }

  lemma Regroup3(a: Text, b: Text, c: Text, d: Text)
    ensures a + b + c + d == a + (b + (c + d))
  {}

  lemma CommaLaid(s: Text, open: Text)
    requires Innermost(open) == 91
    ensures Formatted([44, 32] + s, open) == Formatted(s, open)
  {
    assert ([44, 32] + s)[1..] == [32] + s && ([44, 32] + s)[2..] == s;
  }

  lemma {:induction false} ObjectLaid(v: Value, members: seq<Member>, open: Text, tail: Text, fp: FloatText)
    requires v == Object(members)
    ensures Formatted(Print(v, |open|, true, fp) + tail, open) == Formatted(tail, open)
    decreases v, 0, |members| + 1
  {
    var inner, body := open + [123], PrintMembers(members, |open| + 1, true, fp);
    var close := Tabs(|open|) + ([125] + tail);
    RegroupObject(body, Tabs(|open|), tail);
    OpenLaid(body + close, open);
    CloseLaid(open, tail);
    if members == [] {
      assert body + close == close;
    } else {
      MembersLaid(v, members, inner, close, fp);
    }
  }

  lemma RegroupObject(body: Text, tabs: Text, tail: Text)
    ensures [123] + [10] + body + tabs + [125] + tail == [123, 10] + (body + (tabs + ([125] + tail)))
  {}

  lemma OpenLaid(s: Text, open: Text)
    ensures Formatted([123, 10] + s, open) == FormattedLine(s, open + [123], false)
  {
    var t := [123, 10] + s;
    assert t[1..] == [10] + s && t[2..] == s;
  }

  /** The line of a closing brace. */
  lemma CloseLaid(open: Text, tail: Text)
    ensures FormattedLine(Tabs(|open|) + ([125] + tail), open + [123], false) == Formatted(tail, open)
    ensures FormattedLine(Tabs(|open|) + ([125] + tail), open + [123], true) == Formatted(tail, open)
  {
    var inner := open + [123];
    TabsCounted(|open|, [125] + tail);
    assert inner[..|inner| - 1] == open && ([125] + tail)[1..] == tail;
  }

  /** The members, each on a line of its own, and the line behind them. */
  lemma {:induction false} MembersLaid(whole: Value, ms: seq<Member>, open: Text, close: Text, fp: FloatText)
    requires (forall i | 0 <= i < |ms| :: ms[i] < whole) && ms != [] && Innermost(open) == 123
    ensures FormattedLine(PrintMembers(ms, |open|, true, fp) + close, open, false) == FormattedLine(close, open, true)
    decreases whole, 0, |ms|
  {
    var value, more := Print(ms[0].value, |open|, true, fp), PrintMembers(ms[1..], |open|, true, fp);
    var comma := Comma(|ms| > 1, []);
    var rest := comma + ([10] + (more + close));
    MemberText(ms, open, fp, close);
    NameLaid(ms[0].name, value + rest, open);
    ValueLaid(ms[0].value, open, rest, fp);
    if |ms| > 1 { MembersLaid(whole, ms[1..], open, close, fp); }
    LineEndLaid(|ms| > 1, more, close, open);
  }

  lemma LineEndLaid(follows: bool, more: Text, close: Text, open: Text)
    requires Innermost(open) == 123 && (!follows ==> more == [])
    ensures Formatted(Comma(follows, []) + ([10] + (more + close)), open)
         == if follows then FormattedLine(more + close, open, false) else FormattedLine(close, open, true)
  {
    if follows {
      assert Comma(true, []) == [44];
      NextLaid(more + close, open);
    } else {
      assert more + close == close && [] + ([10] + close) == [10] + close;
      LastLaid(close, open);
    }
  }

  lemma MemberText(ms: seq<Member>, open: Text, fp: FloatText, close: Text)
    requires ms != []
    ensures var value, more := Print(ms[0].value, |open|, true, fp), PrintMembers(ms[1..], |open|, true, fp);
            PrintMembers(ms, |open|, true, fp) + close ==
            Tabs(|open|) + (PrintString(ms[0].name) + ([58, 9] + (value + (Comma(|ms| > 1, []) + ([10] + (more + close))))))
  {
    var value, more := Print(ms[0].value, |open|, true, fp), PrintMembers(ms[1..], |open|, true, fp);
    RegroupMember(Tabs(|open|), PrintString(ms[0].name), value, Comma(|ms| > 1, []), more, close);
  }

  lemma RegroupMember(tabs: Text, name: Text, value: Text, comma: Text, more: Text, close: Text)
    ensures (tabs + name + [58] + [9] + value) + comma + [10] + more + close
         == tabs + (name + ([58, 9] + (value + (comma + ([10] + (more + close))))))
  {}

  lemma NameLaid(name: Text, s: Text, open: Text)
    requires Innermost(open) == 123
    ensures FormattedLine(Tabs(|open|) + (PrintString(name) + ([58, 9] + s)), open, false) == Formatted(s, open)
  {
    var colon := [58, 9] + s;
    TabsCounted(|open|, PrintString(name) + colon);
    StringLaid(name, colon, open);
    assert colon[1..] == [9] + s && colon[2..] == s;
  }

  lemma NextLaid(s: Text, open: Text)
    requires Innermost(open) == 123
    ensures Formatted([44] + ([10] + s), open) == FormattedLine(s, open, false)
  {
    var t := [44] + ([10] + s);
    assert t[1..] == [10] + s && t[2..] == s;
  }

  lemma LastLaid(s: Text, open: Text)
    ensures Formatted([10] + s, open) == FormattedLine(s, open, true)
  {
    assert ([10] + s)[1..] == s;
  }

  /** What is printed with formatting is laid out as described, whatever the value. */
  lemma PrintIsFormatted(v: Value, fp: FloatText)
    ensures Formatted(Print(v, 0, true, fp), [])
  {
    ValueLaid(v, [], [], fp);
    assert Print(v, 0, true, fp) + [] == Print(v, 0, true, fp);
  }

  // ----- Values without formatting ------------------------------------------------------------

  lemma {:induction false} ValueCompact(v: Value, depth: nat, tail: Text, fp: FloatText)
    ensures Compact(Print(v, depth, false, fp) + tail) == Compact(tail)
    decreases v, 1, 0
  {
    match v
    case Null => TokenLaid(NULL_TEXT, tail, []);
    case False => TokenLaid(FALSE_TEXT, tail, []);
    case True => TokenLaid(TRUE_TEXT, tail, []);
    case Number(d) =>
      NumberOrdinary(NumberToken(d, fp));
      TokenLaid(NumText(NumberToken(d, fp)), tail, []);
    case String(s) => StringLaid(s, tail, []);
    case Array(items) =>
      ItemsCompact(v, items, depth + 1, [93] + tail, fp);
      BracketsCompact(91, PrintItems(items, depth + 1, false, fp), 93, tail);
    case Object(members) =>
      MembersCompact(v, members, depth + 1, [125] + tail, fp);
      BracketsCompact(123, PrintMembers(members, depth + 1, false, fp), 125, tail);
  }

  lemma BracketsCompact(open: Char, body: Text, close: Char, tail: Text)
    requires open > 32 && open != 34 && close > 32 && close != 34 && Compact(body + ([close] + tail)) == Compact([close] + tail)
    ensures Compact([open] + body + [close] + tail) == Compact(tail)
    ensures Compact([open] + [] + body + [] + [close] + tail) == Compact(tail)
  {
    assert [open] + body + [close] + tail == [open] + (body + ([close] + tail));
    assert [open] + [] + body + [] + [close] + tail == [open] + (body + ([close] + tail));
    ByteCompact(open, body + ([close] + tail));
    ByteCompact(close, tail);
  }

  lemma ByteCompact(c: Char, tail: Text)
    requires c > 32 && c != 34
    ensures Compact([c] + tail) == Compact(tail)
  {
    assert ([c] + tail)[1..] == tail;
  }

  lemma {:induction false} ItemsCompact(whole: Value, items: seq<Value>, depth: nat, tail: Text, fp: FloatText)
    requires forall i | 0 <= i < |items| :: items[i] < whole
    ensures Compact(PrintItems(items, depth, false, fp) + tail) == Compact(tail)
    decreases whole, 0, |items|
  {
    if items == [] {
      assert PrintItems(items, depth, false, fp) + tail == tail;
    } else {
      var first, more := Print(items[0], depth, false, fp), PrintItems(items[1..], depth, false, fp);
      var comma := Comma(|items| > 1, []);
      Regroup3(first, comma, more, tail);
      ValueCompact(items[0], depth, comma + (more + tail), fp);
      ItemsCompact(whole, items[1..], depth, tail, fp);
      if |items| > 1 { ByteCompact(44, more + tail); } else { assert comma + (more + tail) == more + tail; }
    }
  }

  lemma {:induction false} MembersCompact(whole: Value, ms: seq<Member>, depth: nat, tail: Text, fp: FloatText)
    requires forall i | 0 <= i < |ms| :: ms[i] < whole
    ensures Compact(PrintMembers(ms, depth, false, fp) + tail) == Compact(tail)
    decreases whole, 0, |ms|
  {
    if ms == [] {
      assert PrintMembers(ms, depth, false, fp) + tail == tail;
    } else {
      var value, more := Print(ms[0].value, depth, false, fp), PrintMembers(ms[1..], depth, false, fp);
      var comma := Comma(|ms| > 1, []);
      RegroupCompact(PrintString(ms[0].name), value, comma, more, tail);
      StringLaid(ms[0].name, [58] + (value + (comma + (more + tail))), []);
      ByteCompact(58, value + (comma + (more + tail)));
      ValueCompact(ms[0].value, depth, comma + (more + tail), fp);
      MembersCompact(whole, ms[1..], depth, tail, fp);
      if |ms| > 1 { ByteCompact(44, more + tail); } else { assert comma + (more + tail) == more + tail; }
    }
  }

  lemma RegroupCompact(name: Text, value: Text, comma: Text, more: Text, tail: Text)
    ensures ([] + name + [58] + [] + value) + comma + [] + more + tail == name + ([58] + (value + (comma + (more + tail))))
  {}

  /** Without formatting there is no blank outside strings. */
  lemma PrintIsCompact(v: Value, fp: FloatText)
    ensures Compact(Print(v, 0, false, fp))
  {
    ValueCompact(v, 0, [], fp);
    assert Print(v, 0, false, fp) + [] == Print(v, 0, false, fp);
  }
}
