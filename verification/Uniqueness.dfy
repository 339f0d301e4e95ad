/**
 No text has two syntax trees, so that the one the parser finds tells whether a text it accepts
 is JSON by RFC 8259.
 */
module Uniqueness {
  import opened Bytes
  import opened Json
  import opened Grammar
  import opened Recognition

  // ----- Tokens ---------------------------------------------------------------------

  predicate Visible(x: Text) {
    x == [] || x[0] > SPACE
  }

  lemma {:induction false} GapsOnce(gs: seq<Gap>, x: Text, gs': seq<Gap>, x': Text)
    requires AllBlank(GapSet(gs)) && AllBlank(GapSet(gs')) && Visible(x) && Visible(x')
    requires GapsText(gs) + x == GapsText(gs') + x'
    ensures gs == gs' && x == x'
  {
    GapsHead(gs, x);
    GapsHead(gs', x');
    if gs != [] && gs' != [] {
      GapsOnce(gs[1..], x, gs'[1..], x');
      assert gs == [gs[0]] + gs[1..] && gs' == [gs'[0]] + gs'[1..];
    }
  }

  lemma GapsHead(gs: seq<Gap>, x: Text)
    requires AllBlank(GapSet(gs)) && Visible(x)
    ensures if gs == [] then GapsText(gs) + x == x && Visible(GapsText(gs) + x)
            else
              var s := GapsText(gs) + x;
              && s != [] && gs[0] == Blank(s[0]) && s[0] <= SPACE && s[1..] == GapsText(gs[1..]) + x
              && AllBlank(GapSet(gs[1..]))
  {
    if gs == [] {
      assert GapsText(gs) + x == x;
    } else {
      assert IsBlank(gs[0]) by { assert gs[0] in GapSet(gs); }
      assert GapSet(gs[1..]) <= GapSet(gs);
      assert GapsText(gs) + x == [gs[0].c] + (GapsText(gs[1..]) + x);
    }
  }

  lemma {:induction false} PieceOnce(p: Piece, x: Text, p': Piece, x': Text)
    requires PieceText(p) + x == PieceText(p') + x'
    ensures p == p' && x == x'
  {
    var s := PieceText(p) + x;
    Split(PieceText(p), x);
    Split(PieceText(p'), x');
    PieceHead(p, s);
    PieceHead(p', s);
  }

  /** A piece is determined by the text it starts. */
  lemma PieceHead(p: Piece, s: Text)
    requires PieceText(p) <= s
    ensures match p
            case Plain(c) => s[0] == c
            case Escape(c) => s[0] == BACKSLASH && s[1] == c
            case Unicode(hex) => s[0] == BACKSLASH && s[1] == 'u' as int && s[2..6] == hex
            case Surrogates(hi, lo) => s[0] == BACKSLASH && s[1] == 'u' as int && s[2..6] == hi && s[8..12] == lo
  {
    var t := PieceText(p);
    assert t == s[..|t|];
    if p.Unicode? {
      assert t[2..6] == p.hex && s[2..6] == t[2..6];
    } else if p.Surrogates? {
      assert t[2..6] == p.hi && s[2..6] == t[2..6] && t[8..12] == p.lo && s[8..12] == t[8..12];
    }
  }

  lemma {:induction false} PiecesOnce(ps: seq<Piece>, x: Text, ps': seq<Piece>, x': Text)
    requires PiecesText(ps) + ([QUOTE] + x) == PiecesText(ps') + ([QUOTE] + x')
    ensures ps == ps' && x == x'
  {
    PiecesHead(ps, x);
    PiecesHead(ps', x');
    if ps == [] || ps' == [] {
      assert ([QUOTE] + x)[1..] == x && ([QUOTE] + x')[1..] == x';
    } else {
      PieceOnce(ps[0], PiecesText(ps[1..]) + ([QUOTE] + x), ps'[0], PiecesText(ps'[1..]) + ([QUOTE] + x'));
      PiecesOnce(ps[1..], x, ps'[1..], x');
      assert ps == [ps[0]] + ps[1..] && ps' == [ps'[0]] + ps'[1..];
    }
  }

  lemma {:induction false} PiecesHead(ps: seq<Piece>, x: Text)
    ensures var s := PiecesText(ps) + ([QUOTE] + x);
            && s != [] && (s[0] == QUOTE <==> ps == [])
            && if ps == [] then s == [QUOTE] + x else s == PieceText(ps[0]) + (PiecesText(ps[1..]) + ([QUOTE] + x))
  {
    if ps == [] {
      assert PiecesText(ps) + ([QUOTE] + x) == [QUOTE] + x;
    } else {
      Assoc(PieceText(ps[0]), PiecesText(ps[1..]), [QUOTE] + x);
    }
  }

  lemma DigitsOnce(ds: Digits, x: Text, ds': Digits, x': Text)
    requires ds + x == ds' + x' && !IsDigit(Head(x)) && !IsDigit(Head(x'))
    ensures ds == ds' && x == x'
  {
    DigitCountOf(ds, x);
    DigitCountOf(ds', x');
    Split(ds, x);
    Split(ds', x');
  }

  lemma ExpHead(e: Exp, x: Text)
    requires Ends(x)
    ensures var s := ExpText(e) + x;
            if e.NoExp? then s == x && !IsExponentMark(Head(s))
            else
              && s != [] && s[0] == (if e.capital then 'E' as int else 'e' as int) && IsExponentMark(s[0])
              && s[1..] == SignText(e.sign) + (e.digits + x)
  {
    if e.NoExp? {
      assert ExpText(e) + x == x;
    } else {
      var mark: Char := if e.capital then 'E' as int else 'e' as int;
      assert ExpText(e) + x == [mark] + (SignText(e.sign) + (e.digits + x));
    }
  }

  lemma SignOnce(sign: ExpSign, ds: Digits, x: Text, sign': ExpSign, ds': Digits, x': Text)
    requires Ends(x) && Ends(x') && SignText(sign) + (ds + x) == SignText(sign') + (ds' + x')
    ensures sign == sign' && ds == ds' && x == x'
  {
    SignHead(sign, ds, x);
    SignHead(sign', ds', x');
    DigitsOnce(ds, x, ds', x');
  }

  lemma SignHead(sign: ExpSign, ds: Digits, x: Text)
    requires Ends(x)
    ensures var s := SignText(sign) + (ds + x);
            && sign == (if Head(s) == PLUS then Positive else if Head(s) == MINUS then Negative else Unsigned)
            && ds + x == if IsSign(Head(s)) then s[1..] else s
  {
    var s := SignText(sign) + (ds + x);
    if sign.Unsigned? {
      assert s == ds + x;
      if ds == [] { assert s == x; }
    }
  }

  lemma ExpOnce(e: Exp, x: Text, e': Exp, x': Text)
    requires Ends(x) && Ends(x') && ExpText(e) + x == ExpText(e') + x'
    ensures e == e' && x == x'
  {
    ExpHead(e, x);
    ExpHead(e', x');
    if e.Exp? && e'.Exp? { SignOnce(e.sign, e.digits, x, e'.sign, e'.digits, x'); }
  }

  lemma FracHead(frac: Digits, e: Exp, x: Text)
    requires Ends(x)
    ensures var s := FracText(frac) + (ExpText(e) + x);
            && !IsDigit(Head(ExpText(e) + x)) && !IsDigit(Head(s)) && Head(s) != MINUS
            && if frac == [] then s == ExpText(e) + x && Head(s) != POINT
               else Head(s) == POINT && s[1..] == frac + (ExpText(e) + x)
  {
    ExpHead(e, x);
    if frac == [] {
      assert FracText(frac) + (ExpText(e) + x) == ExpText(e) + x;
    } else {
      Assoc([POINT], frac, ExpText(e) + x);
    }
  }

  lemma FracOnce(frac: Digits, e: Exp, x: Text, frac': Digits, e': Exp, x': Text)
    requires Ends(x) && Ends(x') && FracText(frac) + (ExpText(e) + x) == FracText(frac') + (ExpText(e') + x')
    ensures frac == frac' && e == e' && x == x'
  {
    FracHead(frac, e, x);
    FracHead(frac', e', x');
    if frac != [] { DigitsOnce(frac, ExpText(e) + x, frac', ExpText(e') + x'); }
    ExpOnce(e, x, e', x');
  }

  lemma NumberHead(n: NumToken, x: Text)
    requires Ends(x)
    ensures var s, f := NumText(n) + x, FracText(n.frac) + (ExpText(n.exp) + x);
            && n.neg == (Head(s) == MINUS) && (if n.neg then s[1..] else s) == n.whole + f && !IsDigit(Head(f))
            && (Head(s) == MINUS || IsDigit(Head(s)))
  {
    var f := FracText(n.frac) + (ExpText(n.exp) + x);
    var sign: Text := if n.neg then [MINUS] else [];
    FracHead(n.frac, n.exp, x);
    assert NumText(n) + x == sign + (n.whole + f);
  }

  lemma NumberOnce(n: NumToken, x: Text, n': NumToken, x': Text)
    requires Ends(x) && Ends(x') && NumText(n) + x == NumText(n') + x'
    ensures n == n' && x == x'
  {
    NumberHead(n, x);
    NumberHead(n', x');
    DigitsOnce(n.whole, FracText(n.frac) + (ExpText(n.exp) + x), n'.whole, FracText(n'.frac) + (ExpText(n'.exp) + x'));
    FracOnce(n.frac, n.exp, x, n'.frac, n'.exp, x');
  }

  // ----- Trees ----------------------------------------------------------------------

  /** The kind of a value by its first byte. */
  function KindOf(t: Syntax): Char {
    match t
    case TNull => 'n' as int
    case TFalse => 'f' as int
    case TTrue => 't' as int
    case TNumber(_) => ZERO
    case TString(_) => QUOTE
    case TEmptyArray(_) => LBRACKET
    case TArray(_, _) => LBRACKET
    case TEmptyObject(_) => LBRACE
    case TObject(_, _) => LBRACE
  }

  lemma KindRead(t: Syntax, x: Text)
    requires Delimited(t, x)
    ensures var c := Head(Render(t) + x);
            KindOf(t) == if c == MINUS || IsDigit(c) then ZERO else c
  {
    match t {
      case TNumber(n) => NumberHead(n, x);
      case _ => assert (Render(t) + x)[0] == Render(t)[0];
    }
  }

  lemma VisibleTree(t: Syntax, x: Text)
    ensures Visible(Render(t) + x) && Render(t) + x != [] && !Stop((Render(t) + x)[0])
  {
    RenderStarts(t);
  }

  lemma Unfold(open: Char, x: Text, y: Text, rest: Text)
    ensures ([open] + (x + y) + rest)[1..] == x + (y + rest)
  {
    Around(open, x, y, rest);
  }

  /** A text starts with at most one tree. */
  lemma {:induction false} TreeOnce(t: Syntax, x: Text, t': Syntax, x': Text)
    requires AllBlank(Gaps(t)) && AllBlank(Gaps(t')) && Delimited(t, x) && Delimited(t', x')
    requires Render(t) + x == Render(t') + x'
    ensures t == t' && x == x'
    decreases t, 4
  {
    KindRead(t, x);
    KindRead(t', x');
    if t.TNumber? {
      NumberOnce(t.num, x, t'.num, x');
    } else if t.TString? {
      Unfold(QUOTE, PiecesText(t.pieces), [QUOTE], x);
      Unfold(QUOTE, PiecesText(t'.pieces), [QUOTE], x');
      Assoc([QUOTE], PiecesText(t.pieces), [QUOTE]);
      Assoc([QUOTE], PiecesText(t'.pieces), [QUOTE]);
      PiecesOnce(t.pieces, x, t'.pieces, x');
    } else if KindOf(t) == LBRACKET {
      ArrayOnce(t, x, t', x');
    } else if KindOf(t) == LBRACE {
      ObjectOnce(t, x, t', x');
    } else {
      assert t == t';
      Split(Render(t), x);
      Split(Render(t), x');
    }
  }

  lemma {:induction false} ArrayOnce(t: Syntax, x: Text, t': Syntax, x': Text)
    requires AllBlank(Gaps(t)) && AllBlank(Gaps(t')) && KindOf(t) == KindOf(t') == LBRACKET
    requires Render(t) + x == Render(t') + x'
    ensures t == t' && x == x'
    decreases t, 3
  {
    if t.TArray? && t'.TArray? {
      Unfold(LBRACKET, RenderElem(t.first), RenderMore(t.more), x);
      Unfold(LBRACKET, RenderElem(t'.first), RenderMore(t'.more), x');
      ItemsOnce(t, t.first, t.more, x, t'.first, t'.more, x');
    } else if t.TArray? {
      EmptyOrNot(LBRACKET, t'.inside, RBRACKET, x', t.first, RenderMore(t.more), x);
    } else if t'.TArray? {
      EmptyOrNot(LBRACKET, t.inside, RBRACKET, x, t'.first, RenderMore(t'.more), x');
    } else {
      EmptyOnce(LBRACKET, t.inside, RBRACKET, x, t'.inside, x');
    }
  }

  lemma EmptyOnce(open: Char, gs: seq<Gap>, close: Char, x: Text, gs': seq<Gap>, x': Text)
    requires AllBlank(GapSet(gs)) && AllBlank(GapSet(gs')) && close > SPACE
    requires [open] + (GapsText(gs) + [close]) + x == [open] + (GapsText(gs') + [close]) + x'
    ensures gs == gs' && x == x'
  {
    Unfold(open, GapsText(gs), [close], x);
    Unfold(open, GapsText(gs'), [close], x');
    GapsOnce(gs, [close] + x, gs', [close] + x');
    Split([close], x);
    Split([close], x');
  }

  /** Behind the opening bracket stands either the closing one or an element. */
  lemma EmptyOrNot(open: Char, gs: seq<Gap>, close: Char, x: Text, e: Elem, more: Text, x': Text)
    requires AllBlank(GapSet(gs)) && AllBlank(ElemGaps(e)) && Stop(close)
    ensures [open] + (GapsText(gs) + [close]) + x != [open] + (RenderElem(e) + more) + x'
  {
    if [open] + (GapsText(gs) + [close]) + x == [open] + (RenderElem(e) + more) + x' {
      Unfold(open, GapsText(gs), [close], x);
      Unfold(open, RenderElem(e), more, x');
      var tail := GapsText(e.after) + (more + x');
      ElemUnfold(e, more + x');
      VisibleTree(e.value, tail);
      GapsOnce(gs, [close] + x, e.before, Render(e.value) + tail);
    }
  }

  lemma ElemUnfold(e: Elem, y: Text)
    ensures RenderElem(e) + y == GapsText(e.before) + (Render(e.value) + (GapsText(e.after) + y))
  {
    Assoc(GapsText(e.before), Render(e.value) + GapsText(e.after), y);
    Assoc(Render(e.value), GapsText(e.after), y);
  }

  lemma {:induction false} ElemOnce(e: Elem, y: Text, e': Elem, y': Text)
    requires AllBlank(ElemGaps(e)) && AllBlank(ElemGaps(e')) && Stop(Head(y)) && Stop(Head(y'))
    requires RenderElem(e) + y == RenderElem(e') + y'
    ensures e == e' && y == y'
    decreases e, 0
  {
    var tail, tail' := GapsText(e.after) + y, GapsText(e'.after) + y';
    ElemUnfold(e, y);
    ElemUnfold(e', y');
    VisibleTree(e.value, tail);
    VisibleTree(e'.value, tail');
    GapsOnce(e.before, Render(e.value) + tail, e'.before, Render(e'.value) + tail');
    GapsEnd(e.after, y);
    GapsEnd(e'.after, y');
    TreeOnce(e.value, tail, e'.value, tail');
    GapsOnce(e.after, y, e'.after, y');
  }

  lemma MoreHead(es: seq<Elem>, x: Text)
    ensures var s := RenderMore(es) + x;
            && Stop(Head(s)) && (es == [] <==> Head(s) == RBRACKET)
            && s[1..] == if es == [] then x else RenderElem(es[0]) + (RenderMore(es[1..]) + x)
  {
    if es != [] { Unfold(COMMA, RenderElem(es[0]), RenderMore(es[1..]), x); }
  }

  lemma {:induction false} ItemsOnce(whole: Syntax, e: Elem, es: seq<Elem>, x: Text, e': Elem, es': seq<Elem>, x': Text)
    requires e < whole && AllBlank(ElemGaps(e)) && AllBlank(ElemGaps(e'))
    requires (forall i | 0 <= i < |es| :: es[i] < whole && AllBlank(ElemGaps(es[i]))) && ElemsBlank(es')
    requires RenderElem(e) + (RenderMore(es) + x) == RenderElem(e') + (RenderMore(es') + x')
    ensures e == e' && es == es' && x == x'
    decreases whole, 2, |es|
  {
    MoreHead(es, x);
    MoreHead(es', x');
    ElemOnce(e, RenderMore(es) + x, e', RenderMore(es') + x');
    if es != [] {
      ItemsOnce(whole, es[0], es[1..], x, es'[0], es'[1..], x');
      assert es == [es[0]] + es[1..] && es' == [es'[0]] + es'[1..];
    }
  }

  lemma {:induction false} ObjectOnce(t: Syntax, x: Text, t': Syntax, x': Text)
    requires AllBlank(Gaps(t)) && AllBlank(Gaps(t')) && KindOf(t) == KindOf(t') == LBRACE
    requires Render(t) + x == Render(t') + x'
    ensures t == t' && x == x'
    decreases t, 3
  {
    if t.TObject? && t'.TObject? {
      Unfold(LBRACE, RenderField(t.lead), RenderOthers(t.others), x);
      Unfold(LBRACE, RenderField(t'.lead), RenderOthers(t'.others), x');
      MembersOnce(t, t.lead, t.others, x, t'.lead, t'.others, x');
    } else if t.TObject? {
      EmptyOrField(t'.inside, x', t.lead, RenderOthers(t.others), x);
    } else if t'.TObject? {
      EmptyOrField(t.inside, x, t'.lead, RenderOthers(t'.others), x');
    } else {
      EmptyOnce(LBRACE, t.inside, RBRACE, x, t'.inside, x');
    }
  }

  lemma EmptyOrField(gs: seq<Gap>, x: Text, f: Field, more: Text, x': Text)
    requires AllBlank(GapSet(gs)) && AllBlank(FieldGaps(f))
    ensures [LBRACE] + (GapsText(gs) + [RBRACE]) + x != [LBRACE] + (RenderField(f) + more) + x'
  {
    if [LBRACE] + (GapsText(gs) + [RBRACE]) + x == [LBRACE] + (RenderField(f) + more) + x' {
      Unfold(LBRACE, GapsText(gs), [RBRACE], x);
      Unfold(LBRACE, RenderField(f), more, x');
      var tail := FieldTail(f, more + x');
      FieldUnfold(f, more + x');
      GapsOnce(gs, [RBRACE] + x, f.before, [QUOTE] + (PiecesText(f.key) + ([QUOTE] + tail)));
    }
  }

  /** What stands behind the name. */
  function FieldTail(f: Field, y: Text): Text {
    GapsText(f.gap) + ([COLON] + (RenderElem(f.elem) + y))
  }

  lemma FieldUnfold(f: Field, y: Text)
    ensures RenderField(f) + y == GapsText(f.before) + ([QUOTE] + (PiecesText(f.key) + ([QUOTE] + FieldTail(f, y))))
  {
    RegroupField(GapsText(f.before), PiecesText(f.key), GapsText(f.gap), RenderElem(f.elem), y);
  }

  lemma RegroupField(before: Text, key: Text, gap: Text, elem: Text, y: Text)
    ensures before + (([QUOTE] + key + [QUOTE]) + (gap + ([COLON] + elem))) + y
         == before + ([QUOTE] + (key + ([QUOTE] + (gap + ([COLON] + (elem + y))))))
  {}

  lemma {:induction false} FieldOnce(f: Field, y: Text, f': Field, y': Text)
    requires AllBlank(FieldGaps(f)) && AllBlank(FieldGaps(f')) && Stop(Head(y)) && Stop(Head(y'))
    requires RenderField(f) + y == RenderField(f') + y'
    ensures f == f' && y == y'
    decreases f, 1
  {
    FieldUnfold(f, y);
    FieldUnfold(f', y');
    var key, key' := PiecesText(f.key) + ([QUOTE] + FieldTail(f, y)), PiecesText(f'.key) + ([QUOTE] + FieldTail(f', y'));
    GapsOnce(f.before, [QUOTE] + key, f'.before, [QUOTE] + key');
    Split([QUOTE], key);
    Split([QUOTE], key');
    PiecesOnce(f.key, FieldTail(f, y), f'.key, FieldTail(f', y'));
    var elem, elem' := RenderElem(f.elem) + y, RenderElem(f'.elem) + y';
    GapsOnce(f.gap, [COLON] + elem, f'.gap, [COLON] + elem');
    Split([COLON], elem);
    Split([COLON], elem');
    ElemOnce(f.elem, y, f'.elem, y');
  }

  lemma OthersHead(fs: seq<Field>, x: Text)
    ensures var s := RenderOthers(fs) + x;
            && Stop(Head(s)) && (fs == [] <==> Head(s) == RBRACE)
            && s[1..] == if fs == [] then x else RenderField(fs[0]) + (RenderOthers(fs[1..]) + x)
  {
    if fs != [] { Unfold(COMMA, RenderField(fs[0]), RenderOthers(fs[1..]), x); }
  }

  lemma {:induction false} MembersOnce(whole: Syntax, f: Field, fs: seq<Field>, x: Text, f': Field, fs': seq<Field>, x': Text)
    requires f < whole && AllBlank(FieldGaps(f)) && AllBlank(FieldGaps(f'))
    requires (forall i | 0 <= i < |fs| :: fs[i] < whole && AllBlank(FieldGaps(fs[i]))) && FieldsBlank(fs')
    requires RenderField(f) + (RenderOthers(fs) + x) == RenderField(f') + (RenderOthers(fs') + x')
    ensures f == f' && fs == fs' && x == x'
    decreases whole, 2, |fs|
  {
    OthersHead(fs, x);
    OthersHead(fs', x');
    FieldOnce(f, RenderOthers(fs) + x, f', RenderOthers(fs') + x');
    if fs != [] {
      MembersOnce(whole, fs[0], fs[1..], x, fs'[0], fs'[1..], x');
      assert fs == [fs[0]] + fs[1..] && fs' == [fs'[0]] + fs'[1..];
    }
  }

  /** A document has one tree, and the blanks around it are determined as well. */
  lemma {:induction false} DocumentOnce(lead: seq<Gap>, t: Syntax, trail: seq<Gap>, lead': seq<Gap>, t': Syntax, trail': seq<Gap>)
    requires AllBlank(GapSet(lead)) && AllBlank(Gaps(t)) && AllBlank(GapSet(trail))
    requires AllBlank(GapSet(lead')) && AllBlank(Gaps(t')) && AllBlank(GapSet(trail'))
    requires DocumentText(lead, t, GapsText(trail)) == DocumentText(lead', t', GapsText(trail'))
    ensures lead == lead' && t == t' && trail == trail'
  {
    var x, x' := GapsText(trail), GapsText(trail');
    VisibleTree(t, x);
    VisibleTree(t', x');
    GapsOnce(lead, Render(t) + x, lead', Render(t') + x');
    BlanksEndNumbers(trail);
    BlanksEndNumbers(trail');
    TreeOnce(t, x, t', x');
    assert x + [] == x && x' + [] == x';
    GapsOnce(trail, [], trail', []);
  }

  lemma BlanksEndNumbers(gs: seq<Gap>)
    requires AllBlank(GapSet(gs))
    ensures Ends(GapsText(gs))
  {
    GapsHead(gs, []);
    assert GapsText(gs) + [] == GapsText(gs);
  }

  // ----- RFC 8259 -------------------------------------------------------------------

  /** White space by section 2. */
  predicate Section2(g: Gap) {
    g.Blank? && (g.c == SPACE || g.c == TAB || g.c == LF || g.c == CR)
  }

  predicate AllSection2(gs: set<Gap>) {
    forall g | g in gs :: Section2(g)
  }

  /** The pieces of a string by section 7. */
  predicate Section7Piece(p: Piece) {
    match p
    case Plain(c) => c >= SPACE
    case Escape(c) => EscapeLetter(c)
    case Unicode(_) => true
    case Surrogates(_, _) => true
  }

  predicate Section7Pieces(ps: seq<Piece>) {
    forall i | 0 <= i < |ps| :: Section7Piece(ps[i])
  }

  /** Every number and string in the tree is one of RFC 8259. */
  ghost predicate StrictTree(t: Syntax)
    decreases t, 0
  {
    match t
    case TNumber(n) => Section6(n)
    case TString(ps) => Section7Pieces(ps)
    case TArray(first, more) => StrictTree(first.value) && forall i | 0 <= i < |more| :: StrictTree(more[i].value)
    case TObject(lead, others) => StrictField(lead) && forall i | 0 <= i < |others| :: StrictField(others[i])
    case _ => true
  }

  ghost predicate StrictField(f: Field)
    decreases f, 0
  {
    Section7Pieces(f.key) && StrictTree(f.elem.value)
  }

  /** A document of RFC 8259. */
  ghost predicate Strict(lead: seq<Gap>, t: Syntax, trail: seq<Gap>) {
    AllSection2(GapSet(lead)) && AllSection2(Gaps(t)) && AllSection2(GapSet(trail)) && StrictTree(t)
  }

  ghost predicate IsJson(s: Text) {
    exists lead, t, trail {:trigger DocumentText(lead, t, GapsText(trail))} ::
      Strict(lead, t, trail) && s == DocumentText(lead, t, GapsText(trail))
  }

  lemma BlankOfSection2(gs: set<Gap>)
    requires AllSection2(gs)
    ensures AllBlank(gs)
  {}

  /** A text that is accepted is JSON exactly if nothing in the tree it is read as is outside RFC 8259. */
  lemma {:induction false} JsonIff(s: Text, lead: seq<Gap>, t: Syntax, trail: seq<Gap>)
    requires AllBlank(GapSet(lead)) && AllBlank(Gaps(t)) && AllBlank(GapSet(trail)) && s == DocumentText(lead, t, GapsText(trail))
    ensures Parse(s, true) == Parsed(Meaning(t), [])
    ensures IsJson(s) <==> Strict(lead, t, trail)
  {
    ParseDocument(lead, t, trail, true);
    if IsJson(s) {
      var lead', t', trail' :| Strict(lead', t', trail') && s == DocumentText(lead', t', GapsText(trail'));
      BlankOfSection2(GapSet(lead'));
      BlankOfSection2(Gaps(t'));
      BlankOfSection2(GapSet(trail'));
      DocumentOnce(lead, t, trail, lead', t', trail');
    }
  }

  /** A string that is left open is never JSON. */
  lemma {:induction false} OpenIsNotJson(s: Text, v: Value)
    requires IsOpenDocument(s, v)
    ensures !IsJson(s)
  {
    AcceptedIff(s, v);
    OpenIff(s, v);
    if IsJson(s) {
      var lead, t, trail :| Strict(lead, t, trail) && s == DocumentText(lead, t, GapsText(trail));
      BlankOfSection2(GapSet(lead));
      BlankOfSection2(Gaps(t));
      BlankOfSection2(GapSet(trail));
      ParseDocument(lead, t, trail, true);
      assert StartsWithValue(s, v, GapsText(trail));
    }
  }

  /** A digit behind the sign, none behind a leading zero, and one at the end. */
  predicate Regular(s: Text) {
    var s1 := if Head(s) == MINUS then s[1..] else s;
    IsDigit(Head(s1)) && !(s1[0] == ZERO && IsDigit(Head(s1[1..]))) && IsDigit(s[|s| - 1])
  }

  /** An accepted number is one of section 6 exactly if it is regular. */
  lemma Section6Iff(n: NumToken)
    ensures Section6(n) <==> Regular(NumText(n))
  {
    NumberHead(n, []);
    assert NumText(n) + [] == NumText(n);
    WholeIff(n.whole, FracText(n.frac) + (ExpText(n.exp) + []));
    if n.whole != [] { LastByte(n); }
  }

  lemma WholeIff(digits: WholePart, f: Text)
    requires !IsDigit(Head(f))
    ensures var s := digits + f;
            && (IsDigit(Head(s)) <==> digits != [])
            && (digits != [] ==> (s[0] == ZERO && IsDigit(Head(s[1..])) <==> digits[0] == ZERO && |digits| > 1))
  {
    var s := digits + f;
    if digits == [] {
      assert s == f;
    } else {
      assert s[0] == digits[0] && s[1..] == digits[1..] + f;
      if |digits| == 1 { assert digits[1..] + f == f; }
    }
  }

  lemma LastByte(n: NumToken)
    requires n.whole != []
    ensures var s := NumText(n); IsDigit(s[|s| - 1]) <==> (n.exp.Exp? ==> n.exp.digits != [])
  {
    var sign: Text := if n.neg then [MINUS] else [];
    var e, f := ExpText(n.exp), FracText(n.frac);
    assert e != [] ==> IsDigit(e[|e| - 1]) == (n.exp.digits != []);
    assert f != [] ==> IsDigit(f[|f| - 1]);
    EndOf(f, e);
    EndOf(n.whole, f + e);
    EndOf(sign, n.whole + (f + e));
  }

  lemma EndOf(a: Text, b: Text)
    ensures a + b != [] ==> (a + b)[|a + b| - 1] == if b == [] then a[|a| - 1] else b[|b| - 1]
  {}

  /** Every number of the grammar is accepted; it is no JSON unless section 6 has it. */
  lemma LooseNumber(n: NumToken)
    ensures Parse(NumText(n), true) == Parsed(Number(NumValue(n)), [])
    ensures IsJson(NumText(n)) <==> Section6(n)
  {
    var t := TNumber(n);
    assert GapsText([]) == [] && NumText(n) == DocumentText([], t, GapsText([]));
    JsonIff(NumText(n), [], t, []);
  }

  /** `-`, `01` and `1e` are such numbers: 0, 1 and 1. */
  lemma LooseNumbers()
    ensures var n: NumToken := NumParts(true, [], [], NoExp); NumText(n) == [MINUS] && NumValue(n) == 0.0 && !Section6(n)
    ensures var n: NumToken := NumParts(false, [ZERO, '1' as int], [], NoExp);
            NumText(n) == [ZERO, '1' as int] && NumValue(n) == 1.0 && !Section6(n)
    ensures var n: NumToken := NumParts(false, ['1' as int], [], Exp(false, Unsigned, []));
            NumText(n) == ['1' as int, 'e' as int] && NumValue(n) == 1.0 && !Section6(n)
  {
    var one: Char := '1' as int;
    assert Horner(0, []) == 0;
    assert [ZERO, one][1..] == [one] && Horner(0, [one]) == 1;
  }

  /** A control byte other than tab, line feed and carriage return in front of a value. */
  lemma LooseBlank()
    ensures var s := DocumentText([Blank(1)], TNull, []); Parse(s, true) == Parsed(Null, []) && !IsJson(s)
  {
    var lead := [Blank(1)];
    assert GapsText([]) == [] && Blank(1) in GapSet(lead);
    JsonIff(DocumentText(lead, TNull, []), lead, TNull, []);
  }
}
