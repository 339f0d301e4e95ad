/**
 The text both printers of src/cJSON.c produce, and what the parser makes of it. The C
 library's `sprintf` for doubles that are not C ints is the parameter `fp`.
 */
module JsonPrint {
  import opened Bytes
  import opened Json
  import opened Grammar

  const DBL_EPSILON: real := 1.0 / 4503599627370496.0

  /** What `sprintf` writes for a double: a JSON number that fits the 64-byte buffer. */
  type FloatText = f: real -> JsonNumber | forall d :: |NumText(f(d))| < 64
    witness (d: real) => NumParts(false, [ZERO], [], NoExp)

  // ----- Numbers ------------------------------------------------------------

  /** The test that selects the "%d" branch of print_number. */
  predicate PrintsAsInt(d: real) {
    && INT_MIN as real <= d <= INT_MAX as real
    && -DBL_EPSILON <= Truncate(d) as real - d <= DBL_EPSILON
  }

  function Decimal(n: nat): (s: WholePart)
    ensures s != [] && if n > 0 then s[0] != ZERO else s == [ZERO]
  {
    if n < 10 then [ZERO + n] else Decimal(n / 10) + [ZERO + n % 10]
  }

  function IntToken(i: int): JsonNumber {
    NumParts(i < 0, Decimal(if i < 0 then -i else i), [], NoExp)
  }

  function NumberToken(d: real, fp: FloatText): JsonNumber {
    if d == 0.0 then IntToken(0) else if PrintsAsInt(d) then IntToken(Truncate(d)) else fp(d)
  }

  // ----- Strings ------------------------------------------------------------

  function HexChar(d: nat): (c: Char)
    requires d < 16
    ensures IsHex(c) && HexDigit(c) == d
  {
    if d < 10 then ZERO + d else 'a' as int + (d - 10)
  }

  function EscapeByte(c: Char): Text {
    if c > 31 && c != QUOTE && c != BACKSLASH then [c]
    else if c == BACKSLASH || c == QUOTE then [BACKSLASH, c]
    else if c == BACKSPACE then [BACKSLASH, 'b' as int]
    else if c == FORMFEED then [BACKSLASH, 'f' as int]
    else if c == LF then [BACKSLASH, 'n' as int]
    else if c == CR then [BACKSLASH, 'r' as int]
    else if c == TAB then [BACKSLASH, 't' as int]
    else [BACKSLASH, 'u' as int, ZERO, ZERO, HexChar(c / 16), HexChar(c % 16)]
  }

  function EscapeText(s: Text): Text {
    if s == [] then [] else EscapeByte(s[0]) + EscapeText(s[1..])
  }

  function PrintString(s: Text): Text {
    [QUOTE] + EscapeText(s) + [QUOTE]
  }

  // ----- Values -------------------------------------------------------------

  function Tabs(n: nat): Text {
    seq(n, i => TAB)
  }

  function If(fmt: bool, t: Text): Text {
    if fmt then t else []
  }

  function Print(v: Value, depth: nat, fmt: bool, fp: FloatText): Text
    decreases v, 0
  {
    match v
    case Null => NULL_TEXT
    case False => FALSE_TEXT
    case True => TRUE_TEXT
    case Number(d) => NumText(NumberToken(d, fp))
    case String(s) => PrintString(s)
    case Array(items) => [LBRACKET] + PrintItems(items, depth + 1, fmt, fp) + [RBRACKET]
    case Object(members) =>
      [LBRACE] + If(fmt, [LF]) + PrintMembers(members, depth + 1, fmt, fp) + If(fmt, Tabs(depth)) + [RBRACE]
  }

  function PrintItems(items: seq<Value>, depth: nat, fmt: bool, fp: FloatText): Text
    decreases items, 0
  {
    if items == [] then []
    else
      Print(items[0], depth, fmt, fp) + Comma(|items| > 1, If(fmt, [SPACE]))
        + PrintItems(items[1..], depth, fmt, fp)
  }

  function Comma(more: bool, gap: Text): Text {
    if more then [COMMA] + gap else []
  }

  function PrintMember(m: Member, depth: nat, fmt: bool, fp: FloatText): Text
    decreases m, 0
  {
    If(fmt, Tabs(depth)) + PrintString(m.name) + [COLON] + If(fmt, [TAB]) + Print(m.value, depth, fmt, fp)
  }

  function PrintMembers(ms: seq<Member>, depth: nat, fmt: bool, fp: FloatText): Text
    decreases ms, 0
  {
    if ms == [] then []
    else
      PrintMember(ms[0], depth, fmt, fp) + Comma(|ms| > 1, []) + If(fmt, [LF])
        + PrintMembers(ms[1..], depth, fmt, fp)
  }

  // ----- Printed text as a syntax tree ----------------------------------------

  function Blanks(t: Text): (gs: seq<Gap>)
    ensures |gs| == |t|
  {
    seq(|t|, i requires 0 <= i < |t| => Blank(t[i]))
  }

  lemma {:induction false} BlanksText(t: Text)
    ensures GapsText(Blanks(t)) == t
    ensures GapSet(Blanks(t)) == set c | c in t :: Blank(c)
  {
    if t != [] {
      BlanksText(t[1..]);
      assert Blanks(t)[1..] == Blanks(t[1..]);
    }
    forall c | c in t ensures Blank(c) in GapSet(Blanks(t)) {
      var i :| 0 <= i < |t| && t[i] == c;
      assert Blanks(t)[i] == Blank(c);
    }
  }

  function BytePiece(c: Char): Piece {
    if c > 31 && c != QUOTE && c != BACKSLASH then Plain(c)
    else if c == BACKSLASH || c == QUOTE then Escape(c)
    else if c == BACKSPACE then Escape('b' as int)
    else if c == FORMFEED then Escape('f' as int)
    else if c == LF then Escape('n' as int)
    else if c == CR then Escape('r' as int)
    else if c == TAB then Escape('t' as int)
    else Unicode([ZERO, ZERO, HexChar(c / 16), HexChar(c % 16)])
  }

  function StringPieces(s: Text): seq<Piece> {
    if s == [] then [] else [BytePiece(s[0])] + StringPieces(s[1..])
  }

  lemma {:induction false} StringPiecesRight(s: Text)
    ensures PiecesText(StringPieces(s)) == EscapeText(s)
    ensures PiecesMeaning(StringPieces(s)) == s
  {
    if s != [] {
      StringPiecesRight(s[1..]);
      assert StringPieces(s)[1..] == StringPieces(s[1..]);
      assert PieceText(BytePiece(s[0])) == EscapeByte(s[0]);
      assert PieceMeaning(BytePiece(s[0])) == [s[0]];
    }
  }

  /** What stands between two members, and between the last one and the brace. */
  function Break(fmt: bool, depth: nat): seq<Gap> {
    Blanks(If(fmt, [LF] + Tabs(depth)))
  }

  function PrintTree(v: Value, depth: nat, fmt: bool, fp: FloatText): Syntax
    decreases v, 0
  {
    match v
    case Null => TNull
    case False => TFalse
    case True => TTrue
    case Number(d) => TNumber(NumberToken(d, fp))
    case String(s) => TString(StringPieces(s))
    case Array(items) =>
      if items == [] then TEmptyArray([])
      else TArray(Elem([], PrintTree(items[0], depth + 1, fmt, fp), []),
                  ItemTrees(items[1..], depth + 1, fmt, fp))
    case Object(members) =>
      if members == [] then TEmptyObject(Break(fmt, depth))
      else TObject(MemberTree(members[0], |members| == 1, depth + 1, fmt, fp),
                   MemberTrees(members[1..], depth + 1, fmt, fp))
  }

  function ItemTrees(items: seq<Value>, depth: nat, fmt: bool, fp: FloatText): seq<Elem>
    decreases items, 0
  {
    if items == [] then []
    else [Elem(Blanks(If(fmt, [SPACE])), PrintTree(items[0], depth, fmt, fp), [])]
           + ItemTrees(items[1..], depth, fmt, fp)
  }

  function MemberTree(m: Member, last: bool, depth: nat, fmt: bool, fp: FloatText): Field
    requires depth > 0
    decreases m, 0
  {
    var after := if last then Break(fmt, depth - 1) else [];
    Field(Break(fmt, depth), StringPieces(m.name), [],
          Elem(Blanks(If(fmt, [TAB])), PrintTree(m.value, depth, fmt, fp), after))
  }

  function MemberTrees(ms: seq<Member>, depth: nat, fmt: bool, fp: FloatText): seq<Field>
    requires depth > 0
    decreases ms, 0
  {
    if ms == [] then []
    else [MemberTree(ms[0], |ms| == 1, depth, fmt, fp)] + MemberTrees(ms[1..], depth, fmt, fp)
  }

  lemma Regroup(a: Text, b: Text, c: Text, d: Text)
    ensures (a + b + c) + d == a + (b + (c + d))
  {}

  lemma RegroupItem(gap: Text, first: Text, comma: Text, more: Text)
    ensures [COMMA] + ((gap + (first + [])) + (comma + (more + [RBRACKET])))
         == ([COMMA] + gap) + ((first + comma + more) + [RBRACKET])
  {}

  /** The tree is the printed text. */
  lemma {:induction false} PrintTreeText(v: Value, depth: nat, fmt: bool, fp: FloatText)
    ensures Render(PrintTree(v, depth, fmt, fp)) == Print(v, depth, fmt, fp)
    decreases v, 1, 0
  {
    match v
    case Null =>
    case False =>
    case True =>
    case Number(d) =>
    case String(s) => StringPiecesRight(s);
    case Array(items) => ArrayTreeText(items, depth + 1, fmt, fp);
    case Object(members) => ObjectTreeText(members, depth, fmt, fp);
  }

  lemma {:induction false} ArrayTreeText(items: seq<Value>, depth: nat, fmt: bool, fp: FloatText)
    requires depth > 0
    ensures Render(PrintTree(Array(items), depth - 1, fmt, fp)) == [LBRACKET] + PrintItems(items, depth, fmt, fp) + [RBRACKET]
    decreases items, 1, 0
  {
    if items == [] {
      assert GapsText([]) + [RBRACKET] == [RBRACKET];
    } else {
      var first := Print(items[0], depth, fmt, fp);
      var more := ItemTrees(items[1..], depth, fmt, fp);
      var comma := Comma(|items| > 1, If(fmt, [SPACE]));
      PrintTreeText(items[0], depth, fmt, fp);
      ItemTreesText(items[1..], depth, fmt, fp);
      assert RenderElem(Elem([], PrintTree(items[0], depth, fmt, fp), [])) == first;
      Regroup(first, comma, PrintItems(items[1..], depth, fmt, fp), [RBRACKET]);
    }
  }

  lemma {:induction false} ItemTreesText(items: seq<Value>, depth: nat, fmt: bool, fp: FloatText)
    ensures RenderMore(ItemTrees(items, depth, fmt, fp))
         == Comma(items != [], If(fmt, [SPACE])) + (PrintItems(items, depth, fmt, fp) + [RBRACKET])
    decreases items, 1, 0
  {
    if items != [] {
      var gap := If(fmt, [SPACE]);
      PrintTreeText(items[0], depth, fmt, fp);
      ItemTreesText(items[1..], depth, fmt, fp);
      BlanksText(gap);
      RenderMoreCons(Elem(Blanks(gap), PrintTree(items[0], depth, fmt, fp), []), ItemTrees(items[1..], depth, fmt, fp));
      RegroupItem(gap, Print(items[0], depth, fmt, fp), Comma(|items| > 1, gap), PrintItems(items[1..], depth, fmt, fp));
    }
  }

  lemma RegroupMember(gap: Text, name: Text, tab: Text, value: Text, after: Text)
    ensures ([LF] + gap) + (name + ([] + ([COLON] + (tab + (value + after)))))
         == [LF] + ((gap + name + [COLON] + tab + value) + after)
    ensures [] + (name + ([] + ([COLON] + (tab + (value + after)))))
         == [] + (([] + name + [COLON] + tab + value) + after)
  {}

  lemma {:induction false} MemberTreeText(m: Member, last: bool, depth: nat, fmt: bool, fp: FloatText)
    requires depth > 0
    ensures RenderField(MemberTree(m, last, depth, fmt, fp))
         == If(fmt, [LF]) + (PrintMember(m, depth, fmt, fp) + If(last && fmt, [LF] + Tabs(depth - 1)))
    decreases m, 1, 0
  {
    var after := If(last && fmt, [LF] + Tabs(depth - 1));
    StringPiecesRight(m.name);
    BlanksText(If(fmt, [LF] + Tabs(depth)));
    BlanksText(after);
    BlanksText(If(fmt, [TAB]));
    PrintTreeText(m.value, depth, fmt, fp);
    RegroupMember(Tabs(depth), PrintString(m.name), If(fmt, [TAB]), Print(m.value, depth, fmt, fp), after);
  }

  lemma RegroupMembers(lf: Text, p: Text, ms: Text, close: Text)
    ensures (lf + (p + [])) + ([COMMA] + (lf + (ms + close))) == lf + ((p + [COMMA] + lf + ms) + close)
  {}

  lemma RegroupLast(p: Text, tabs: Text)
    ensures ([LF] + (p + ([LF] + tabs))) + [RBRACE] == [LF] + ((p + [] + [LF] + []) + (tabs + [RBRACE]))
    ensures ([] + (p + [])) + [RBRACE] == [] + ((p + [] + [] + []) + ([] + [RBRACE]))
  {}

  function MemberTreesBody(ms: seq<Member>, depth: nat, fmt: bool, fp: FloatText): Text
    requires depth > 0 && ms != []
  {
    RenderField(MemberTree(ms[0], |ms| == 1, depth, fmt, fp)) + RenderOthers(MemberTrees(ms[1..], depth, fmt, fp))
  }

  lemma {:induction false} MemberTreesText(ms: seq<Member>, depth: nat, fmt: bool, fp: FloatText)
    requires depth > 0 && ms != []
    ensures MemberTreesBody(ms, depth, fmt, fp)
         == If(fmt, [LF]) + (PrintMembers(ms, depth, fmt, fp) + (If(fmt, Tabs(depth - 1)) + [RBRACE]))
    decreases ms, 2, 0
  {
    var p := PrintMember(ms[0], depth, fmt, fp);
    var lf, close := If(fmt, [LF]), If(fmt, Tabs(depth - 1)) + [RBRACE];
    var rest := ms[1..];
    var f := RenderField(MemberTree(ms[0], |ms| == 1, depth, fmt, fp));
    var o := RenderOthers(MemberTrees(rest, depth, fmt, fp));
    var q := PrintMembers(rest, depth, fmt, fp);
    var comma := Comma(|ms| > 1, []);
    assert comma == if |ms| > 1 then [COMMA] else [];
    assert PrintMembers(ms, depth, fmt, fp) == p + comma + lf + q;
    MemberTreeText(ms[0], |ms| == 1, depth, fmt, fp);
    if |ms| == 1 {
      assert q == [] && o == [RBRACE];
      RegroupLast(p, Tabs(depth - 1));
      assert f + o == lf + ((p + [] + lf + q) + close);
    } else {
      MemberTreesText(rest, depth, fmt, fp);
      assert o == [COMMA] + (lf + (q + close)) by {
        RenderOthersCons(MemberTree(rest[0], |rest| == 1, depth, fmt, fp), MemberTrees(rest[1..], depth, fmt, fp));
      }
      RegroupMembers(lf, p, q, close);
      assert f + o == lf + ((p + [COMMA] + lf + q) + close);
    }
  }

  lemma RegroupObject(a: Text, b: Text, c: Text, d: Text, e: Text)
    ensures a + b + c + d + e == a + (b + (c + (d + e)))
    ensures c == [] ==> a + b + c + d + e == a + (b + d + e)
  {}

  lemma {:induction false} ObjectTreeText(ms: seq<Member>, depth: nat, fmt: bool, fp: FloatText)
    ensures Render(PrintTree(Object(ms), depth, fmt, fp))
         == [LBRACE] + If(fmt, [LF]) + PrintMembers(ms, depth + 1, fmt, fp) + If(fmt, Tabs(depth)) + [RBRACE]
    decreases ms, 3, 0
  {
    var lf, p, tabs := If(fmt, [LF]), PrintMembers(ms, depth + 1, fmt, fp), If(fmt, Tabs(depth));
    if ms == [] {
      BlanksText(If(fmt, [LF] + Tabs(depth)));
      assert lf + tabs == If(fmt, [LF] + Tabs(depth));
    } else {
      MemberTreesText(ms, depth + 1, fmt, fp);
      var t := PrintTree(Object(ms), depth, fmt, fp);
      assert Render(t) == [LBRACE] + MemberTreesBody(ms, depth + 1, fmt, fp);
    }
    RegroupObject([LBRACE], lf, p, tabs, [RBRACE]);
  }

  // ----- Round trip -----------------------------------------------------------

  /** The tree with every number replaced by the one its printed text denotes. */
  function Reread(v: Value, fp: FloatText): Value
    decreases v, 0
  {
    match v
    case Number(d) => Number(NumValue(NumberToken(d, fp)))
    case Array(items) => Array(RereadItems(items, fp))
    case Object(members) => Object(RereadMembers(members, fp))
    case _ => v
  }

  function RereadItems(items: seq<Value>, fp: FloatText): seq<Value>
    decreases items, 0
  {
    if items == [] then [] else [Reread(items[0], fp)] + RereadItems(items[1..], fp)
  }

  function RereadMembers(ms: seq<Member>, fp: FloatText): seq<Member>
    decreases ms, 0
  {
    if ms == [] then []
    else [Member(ms[0].name, Reread(ms[0].value, fp))] + RereadMembers(ms[1..], fp)
  }

  lemma {:induction false} PrintTreeMeaning(v: Value, depth: nat, fmt: bool, fp: FloatText)
    ensures Meaning(PrintTree(v, depth, fmt, fp)) == Reread(v, fp)
    decreases v, 1, 0
  {
    match v
    case Null =>
    case False =>
    case True =>
    case Number(d) =>
    case String(s) => StringPiecesRight(s);
    case Array(items) => ArrayTreeMeaning(items, depth, fmt, fp);
    case Object(members) => ObjectTreeMeaning(members, depth, fmt, fp);
  }

  lemma {:induction false} ArrayTreeMeaning(items: seq<Value>, depth: nat, fmt: bool, fp: FloatText)
    ensures Meaning(PrintTree(Array(items), depth, fmt, fp)) == Array(RereadItems(items, fp))
    decreases items, 1, 0
  {
    if items != [] {
      PrintTreeMeaning(items[0], depth + 1, fmt, fp);
      ItemTreesMeaning(items[1..], depth + 1, fmt, fp);
      assert RereadItems(items, fp) == [Reread(items[0], fp)] + RereadItems(items[1..], fp);
    }
  }

  lemma {:induction false} ItemTreesMeaning(items: seq<Value>, depth: nat, fmt: bool, fp: FloatText)
    ensures MoreMeaning(ItemTrees(items, depth, fmt, fp)) == RereadItems(items, fp)
    decreases items, 0, |items|
  {
    if items != [] {
      PrintTreeMeaning(items[0], depth, fmt, fp);
      ItemTreesMeaning(items[1..], depth, fmt, fp);
      assert ItemTrees(items, depth, fmt, fp)[1..] == ItemTrees(items[1..], depth, fmt, fp);
    }
  }

  lemma {:induction false} MemberTreeMeaning(m: Member, last: bool, depth: nat, fmt: bool, fp: FloatText)
    requires depth > 0
    ensures FieldMeaning(MemberTree(m, last, depth, fmt, fp)) == Member(m.name, Reread(m.value, fp))
    decreases m, 2, 0
  {
    StringPiecesRight(m.name);
    PrintTreeMeaning(m.value, depth, fmt, fp);
  }

  lemma {:induction false} ObjectTreeMeaning(ms: seq<Member>, depth: nat, fmt: bool, fp: FloatText)
    ensures Meaning(PrintTree(Object(ms), depth, fmt, fp)) == Object(RereadMembers(ms, fp))
    decreases ms, 1, 0
  {
    if ms != [] {
      MemberTreeMeaning(ms[0], |ms| == 1, depth + 1, fmt, fp);
      MemberTreesMeaning(ms[1..], depth + 1, fmt, fp);
      assert RereadMembers(ms, fp) == [Member(ms[0].name, Reread(ms[0].value, fp))] + RereadMembers(ms[1..], fp);
    }
  }

  lemma {:induction false} MemberTreesMeaning(ms: seq<Member>, depth: nat, fmt: bool, fp: FloatText)
    requires depth > 0
    ensures OthersMeaning(MemberTrees(ms, depth, fmt, fp)) == RereadMembers(ms, fp)
    decreases ms, 0, |ms|
  {
    if ms != [] {
      MemberTreeMeaning(ms[0], |ms| == 1, depth, fmt, fp);
      MemberTreesMeaning(ms[1..], depth, fmt, fp);
      assert MemberTrees(ms, depth, fmt, fp)[1..] == MemberTrees(ms[1..], depth, fmt, fp);
    }
  }

  /** The white space the printers write. */
  predicate IsLayout(g: Gap) {
    g == Blank(SPACE) || g == Blank(TAB) || g == Blank(LF)
  }

  lemma LayoutBlanks(fmt: bool, t: Text)
    requires forall i | 0 <= i < |t| :: IsLayout(Blank(t[i]))
    ensures forall g | g in GapSet(Blanks(If(fmt, t))) :: IsLayout(g)
  {
    forall g | g in GapSet(Blanks(If(fmt, t))) ensures IsLayout(g) {
      var i :| 0 <= i < |Blanks(If(fmt, t))| && Blanks(If(fmt, t))[i] == g;
    }
  }

  lemma {:induction false} PrintTreeGaps(v: Value, depth: nat, fmt: bool, fp: FloatText)
    ensures forall g | g in Gaps(PrintTree(v, depth, fmt, fp)) :: IsLayout(g)
    decreases v, 1, 0
  {
    match v
    case Null =>
    case False =>
    case True =>
    case Number(d) =>
    case String(s) =>
    case Array(items) =>
      if items != [] {
        PrintTreeGaps(items[0], depth + 1, fmt, fp);
        ItemTreesGaps(v, items[1..], depth + 1, fmt, fp);
      }
    case Object(members) =>
      LayoutBlanks(fmt, [LF] + Tabs(depth));
      if members != [] {
        MemberTreeGaps(members[0], |members| == 1, depth + 1, fmt, fp);
        MemberTreesGaps(v, members[1..], depth + 1, fmt, fp);
      }
  }

  lemma {:induction false} ItemTreesGaps(whole: Value, items: seq<Value>, depth: nat, fmt: bool, fp: FloatText)
    requires forall i | 0 <= i < |items| :: items[i] < whole
    ensures forall e, g | e in ItemTrees(items, depth, fmt, fp) && g in ElemGaps(e) :: IsLayout(g)
    decreases whole, 0, |items|
  {
    if items != [] {
      PrintTreeGaps(items[0], depth, fmt, fp);
      LayoutBlanks(fmt, [SPACE]);
      ItemTreesGaps(whole, items[1..], depth, fmt, fp);
    }
  }

  lemma {:induction false} MemberTreeGaps(m: Member, last: bool, depth: nat, fmt: bool, fp: FloatText)
    requires depth > 0
    ensures forall g | g in FieldGaps(MemberTree(m, last, depth, fmt, fp)) :: IsLayout(g)
    decreases m, 1, 0
  {
    PrintTreeGaps(m.value, depth, fmt, fp);
    LayoutBlanks(fmt, [LF] + Tabs(depth));
    LayoutBlanks(fmt, [LF] + Tabs(depth - 1));
    LayoutBlanks(fmt, [TAB]);
  }

  lemma {:induction false} MemberTreesGaps(whole: Value, ms: seq<Member>, depth: nat, fmt: bool, fp: FloatText)
    requires depth > 0 && forall i | 0 <= i < |ms| :: ms[i] < whole
    ensures forall f, g | f in MemberTrees(ms, depth, fmt, fp) && g in FieldGaps(f) :: IsLayout(g)
    decreases whole, 0, |ms|
  {
    if ms != [] {
      MemberTreeGaps(ms[0], |ms| == 1, depth, fmt, fp);
      MemberTreesGaps(whole, ms[1..], depth, fmt, fp);
    }
  }

  /** Parsing printed text gives the tree back, up to the rounding `fp` does, and stops behind it. */
  lemma ParsePrinted(v: Value, depth: nat, fmt: bool, fp: FloatText, rest: Text)
    requires v.Number? ==> Ends(rest)
    ensures ParseValue(Print(v, depth, fmt, fp) + rest) == Parsed(Reread(v, fp), rest)
  {
    var t := PrintTree(v, depth, fmt, fp);
    PrintTreeText(v, depth, fmt, fp);
    PrintTreeMeaning(v, depth, fmt, fp);
    PrintTreeGaps(v, depth, fmt, fp);
    ParseValueOf(t, rest);
  }

  /** The "%d" branch keeps integers only, the other one what `fp` keeps. */
  predicate PrintsExactly(d: real, fp: FloatText) {
    d == 0.0 || if PrintsAsInt(d) then Truncate(d) as real == d else NumValue(fp(d)) == d
  }

  /** No number in the tree is rounded when it is printed. */
  predicate Exact(v: Value, fp: FloatText)
    decreases v
  {
    match v
    case Number(d) => PrintsExactly(d, fp)
    case Array(items) => forall i | 0 <= i < |items| :: Exact(items[i], fp)
    case Object(members) => forall i | 0 <= i < |members| :: Exact(members[i].value, fp)
    case _ => true
  }

  lemma IntValue(i: int)
    ensures NumValue(IntToken(i)) == i as real
  {
    DecimalValue(if i < 0 then -i else i);
  }

  lemma NumberExact(d: real, fp: FloatText)
    ensures NumValue(NumberToken(d, fp)) == d <==> PrintsExactly(d, fp)
  {
    IntValue(0);
    IntValue(Truncate(d));
  }

  lemma {:induction false} RereadIffExact(v: Value, fp: FloatText)
    ensures Reread(v, fp) == v <==> Exact(v, fp)
    decreases v, 1, 0
  {
    match v
    case Number(d) => NumberExact(d, fp);
    case Array(items) => RereadItemsIffExact(v, items, fp);
    case Object(members) => RereadMembersIffExact(v, members, fp);
    case _ =>
  }

  lemma {:induction false} RereadItemsIffExact(whole: Value, items: seq<Value>, fp: FloatText)
    requires forall i | 0 <= i < |items| :: items[i] < whole
    ensures RereadItems(items, fp) == items <==> forall i | 0 <= i < |items| :: Exact(items[i], fp)
    decreases whole, 0, |items|
  {
    if items != [] {
      RereadIffExact(items[0], fp);
      RereadItemsIffExact(whole, items[1..], fp);
      assert RereadItems(items, fp)[1..] == RereadItems(items[1..], fp);
      assert items == [items[0]] + items[1..];
      assert forall i | 0 < i < |items| :: items[i] == items[1..][i - 1];
    }
  }

  lemma {:induction false} RereadMembersIffExact(whole: Value, ms: seq<Member>, fp: FloatText)
    requires forall i | 0 <= i < |ms| :: ms[i] < whole
    ensures RereadMembers(ms, fp) == ms <==> forall i | 0 <= i < |ms| :: Exact(ms[i].value, fp)
    decreases whole, 0, |ms|
  {
    if ms != [] {
      RereadIffExact(ms[0].value, fp);
      RereadMembersIffExact(whole, ms[1..], fp);
      var v := Reread(ms[0].value, fp);
      ConsSame(Member(ms[0].name, v), RereadMembers(ms[1..], fp), ms[0], ms[1..]);
      assert ms == [ms[0]] + ms[1..];
      ExactMembers(ms, fp);
    }
  }

  lemma ConsSame(a: Member, x: seq<Member>, b: Member, y: seq<Member>)
    ensures [a] + x == [b] + y <==> a == b && x == y
  {
    assert ([a] + x)[0] == a && ([a] + x)[1..] == x && ([b] + y)[0] == b && ([b] + y)[1..] == y;
  }

  lemma ExactMembers(ms: seq<Member>, fp: FloatText)
    requires ms != []
    ensures (forall i | 0 <= i < |ms| :: Exact(ms[i].value, fp)) <==>
              Exact(ms[0].value, fp) && forall i | 0 <= i < |ms[1..]| :: Exact(ms[1..][i].value, fp)
  {
    assert forall i | 0 < i < |ms| :: ms[i] == ms[1..][i - 1];
    assert forall i | 0 <= i < |ms| - 1 :: ms[1..][i] == ms[i + 1];
  }

  /** The round trip holds exactly for the trees whose numbers print without rounding. */
  lemma RoundTrip(v: Value, depth: nat, fmt: bool, fp: FloatText, rest: Text)
    requires v.Number? ==> Ends(rest)
    ensures ParseValue(Print(v, depth, fmt, fp) + rest) == Parsed(v, rest) <==> Exact(v, fp)
  {
    ParsePrinted(v, depth, fmt, fp, rest);
    RereadIffExact(v, fp);
  }

  lemma {:induction false} DecimalValue(n: nat)
    ensures Horner(0, Decimal(n)) == n
  {
    if n >= 10 {
      DecimalValue(n / 10);
      HornerConcat(0, Decimal(n / 10), [ZERO + n % 10]);
    }
  }

  // ----- Trees of C ints ----------------------------------------------------------------

  predicate IsCInt(d: real) {
    INT_MIN as real <= d <= INT_MAX as real && Truncate(d) as real == d
  }

  /** Every number in the tree is a C int. */
  predicate CInts(v: Value)
    decreases v
  {
    match v
    case Number(d) => IsCInt(d)
    case Array(items) => forall i | 0 <= i < |items| :: CInts(items[i])
    case Object(members) => forall i | 0 <= i < |members| :: CInts(members[i].value)
    case _ => true
  }

  lemma {:induction false} CIntsExact(v: Value, fp: FloatText)
    requires CInts(v)
    ensures Exact(v, fp)
    decreases v
  {
    match v
    case Array(items) =>
      forall i | 0 <= i < |items| ensures Exact(items[i], fp) { CIntsExact(items[i], fp); }
    case Object(ms) =>
      forall i | 0 <= i < |ms| ensures Exact(ms[i].value, fp) { CIntsExact(ms[i].value, fp); }
    case _ =>
  }

  /** Such a tree comes back exactly, and reading stops behind its text. */
  lemma RoundTripInts(v: Value, depth: nat, fmt: bool, fp: FloatText, rest: Text)
    requires CInts(v) && (v.Number? ==> Ends(rest))
    ensures ParseValue(Print(v, depth, fmt, fp) + rest) == Parsed(v, rest)
  {
    CIntsExact(v, fp);
    RoundTrip(v, depth, fmt, fp, rest);
  }

  /** Printing what has been parsed from any text gives a text that parsing and printing leave alone. */
  lemma PrintAfterParse(s: Text, toEnd: bool, fmt: bool, fp: FloatText)
    requires Parse(s, toEnd).Parsed? && CInts(Parse(s, toEnd).value)
    ensures var v := Parse(s, toEnd).value;
            var text := Print(v, 0, fmt, fp);
            Parse(text, true) == Parsed(v, []) && Print(Parse(text, true).value, 0, fmt, fp) == text
  {
    var v := Parse(s, toEnd).value;
    var t := PrintTree(v, 0, fmt, fp);
    PrintTreeText(v, 0, fmt, fp);
    PrintTreeMeaning(v, 0, fmt, fp);
    PrintTreeGaps(v, 0, fmt, fp);
    ParseDocument([], t, [], true);
    CIntsExact(v, fp);
    RereadIffExact(v, fp);
    assert GapsText([]) + (Render(t) + GapsText([])) == Render(t);
  }

  /** The next double above 1 passes the test for "%d" and is printed as 1. */
  lemma NextAfterOneIsLost(fp: FloatText)
    ensures var d := 1.0 + DBL_EPSILON; !Exact(Number(d), fp) && Reread(Number(d), fp) == Number(1.0)
  {
    var d := 1.0 + DBL_EPSILON;
    assert Truncate(d) == 1 && PrintsAsInt(d);
    IntValue(1);
  }
}
