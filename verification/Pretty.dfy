/** The SQL pretty-printer of the SQLite shell: two passes over one buffer. */
module Pretty {
  import opened Bytes

  const OPEN: Char := '(' as int
  const CLOSE: Char := ')' as int
  const SEMICOLON: Char := ';' as int
  const BACKTICK: Char := '`' as int
  const LINE_WIDTH := 79

  // ----- What must not change ---------------------------------------------------------

  /** Punctuation that is a word of its own. */
  predicate IsMark(c: byte) {
    c == OPEN || c == CLOSE || c == COMMA || c == SEMICOLON
  }

  /** Words read so far, and the one being read. */
  datatype Scan = Scan(words: seq<Text>, open: Text)

  function Ended(st: Scan): seq<Text> {
    if st.open == [] then st.words else st.words + [st.open]
  }

  function Feed(st: Scan, c: Char): Scan {
    if IsSpace(c) then Scan(Ended(st), [])
    else if IsMark(c) then Scan(Ended(st) + [[c]], [])
    else Scan(st.words, st.open + [c])
  }

  function ScanOf(s: Text): Scan {
    if s == [] then Scan([], []) else Feed(ScanOf(s[..|s| - 1]), s[|s| - 1])
  }

  /** The words and marks of a text; white space only separates them. */
  function Words(s: Text): seq<Text> {
    Ended(ScanOf(s))
  }

  lemma Fed(s: Text, c: Char)
    ensures ScanOf(s + [c]) == Feed(ScanOf(s), c)
  {
    assert (s + [c])[..|s|] == s;
  }

  /** Nothing is being read behind white space or a mark. */
  lemma Between(s: Text)
    requires s != [] && (IsSpace(s[|s| - 1]) || IsMark(s[|s| - 1]))
    ensures ScanOf(s).open == []
  {}

  /** White space makes no difference where no word is being read. */
  lemma SpaceBetween(st: Scan, c: Char)
    requires IsSpace(c) && st.open == []
    ensures Feed(st, c) == st
  {}

  /** White space makes no difference before a mark. */
  lemma SpaceBeforeMark(st: Scan, c: Char, mark: Char)
    requires IsSpace(c) && IsMark(mark)
    ensures Feed(Feed(st, c), mark) == Feed(st, mark)
  {}

  /** Neither byte is a blank the first pass would have dropped. */
  predicate Fits(a: Char, b: Char) {
    !(IsSpace(b) && (IsSpace(a) || a == OPEN)) && !(IsSpace(a) && (b == OPEN || b == CLOSE))
  }

  ghost predicate FitsAt(s: Text, k: nat)
    requires 0 < k < |s|
  {
    Fits(s[k - 1], s[k])
  }

  /** No white space in front, doubled, behind an opening or before any parenthesis. */
  ghost predicate TidySoFar(s: Text) {
    (s != [] ==> !IsSpace(s[0])) && forall k: nat | 0 < k < |s| :: FitsAt(s, k)
  }

  /** And none at the end. */
  ghost predicate Tidy(s: Text) {
    TidySoFar(s) && (s != [] ==> !IsSpace(s[|s| - 1]))
  }

  lemma TidyFront(s: Text, n: nat)
    requires TidySoFar(s) && n <= |s|
    ensures TidySoFar(s[..n])
  {
    var f := s[..n];
    forall k: nat | 0 < k < |f| ensures FitsAt(f, k) { assert FitsAt(s, k); }
  }

  lemma TidyMore(s: Text, c: Char)
    requires TidySoFar(s) && if s == [] then !IsSpace(c) else Fits(s[|s| - 1], c)
    ensures TidySoFar(s + [c])
  {
    var more := s + [c];
    forall k: nat | 0 < k < |more| ensures FitsAt(more, k) {
      if k < |s| { assert FitsAt(s, k); }
    }
  }

  // ----- What the first pass makes of a text ----------------------------------------------

  /** One more byte: dropped, put over a blank, or added. */
  function Onto(s: Text, c: Char): Text {
    if IsSpace(c) && (s == [] || IsSpace(s[|s| - 1]) || s[|s| - 1] == OPEN) then s
    else if (c == OPEN || c == CLOSE) && s != [] && IsSpace(s[|s| - 1]) then s[..|s| - 1] + [c]
    else s + [c]
  }

  function Squeezed(t: Text): (s: Text)
    ensures |s| <= |t|
  {
    if t == [] then [] else Onto(Squeezed(t[..|t| - 1]), t[|t| - 1])
  }

  function Trimmed(s: Text): (r: Text)
    ensures |r| <= |s|
  {
    if s != [] && IsSpace(s[|s| - 1]) then Trimmed(s[..|s| - 1]) else s
  }

  function Tidied(t: Text): Text {
    Trimmed(Squeezed(t))
  }

  lemma SqueezedAnd(t: Text, c: Char)
    ensures Squeezed(t + [c]) == Onto(Squeezed(t), c)
  {
    assert (t + [c])[..|t|] == t;
  }

  lemma Dropped(s: Text, c: Char)
    requires s != [] && IsSpace(c) && (IsSpace(s[|s| - 1]) || s[|s| - 1] == OPEN)
    ensures Feed(ScanOf(s), c) == ScanOf(s)
  {
    Between(s);
    SpaceBetween(ScanOf(s), c);
  }

  lemma Overwritten(s: Text, c: Char)
    requires s != [] && IsSpace(s[|s| - 1]) && (c == OPEN || c == CLOSE) && TidySoFar(s)
    ensures var s' := s[..|s| - 1] + [c]; ScanOf(s') == Feed(ScanOf(s), c) && TidySoFar(s')
  {
    var front := s[..|s| - 1];
    SpaceBeforeMark(ScanOf(front), s[|s| - 1], c);
    Fed(front, c);
    TidyFront(s, |s| - 1);
    if front != [] { assert FitsAt(s, |s| - 1); }
    TidyMore(front, c);
  }

  lemma {:induction false} Added(s: Text, c: Char)
    requires TidySoFar(s) && if s == [] then !IsSpace(c) else Fits(s[|s| - 1], c)
    ensures ScanOf(s + [c]) == Feed(ScanOf(s), c) && TidySoFar(s + [c])
  {
    Fed(s, c);
    TidyMore(s, c);
  }

  lemma OntoKeeps(s: Text, c: Char)
    requires TidySoFar(s)
    ensures ScanOf(Onto(s, c)) == Feed(ScanOf(s), c) && TidySoFar(Onto(s, c))
  {
    if IsSpace(c) && s == [] {
      SpaceBetween(ScanOf(s), c);
    } else if IsSpace(c) && (IsSpace(s[|s| - 1]) || s[|s| - 1] == OPEN) {
      Dropped(s, c);
    } else if (c == OPEN || c == CLOSE) && s != [] && IsSpace(s[|s| - 1]) {
      Overwritten(s, c);
    } else {
      Added(s, c);
    }
  }

  lemma {:induction false} SqueezedKeeps(t: Text)
    ensures ScanOf(Squeezed(t)) == ScanOf(t) && TidySoFar(Squeezed(t))
  {
    if t != [] {
      SqueezedKeeps(t[..|t| - 1]);
      OntoKeeps(Squeezed(t[..|t| - 1]), t[|t| - 1]);
    }
  }

  lemma {:induction false} TrimmedKeeps(s: Text)
    requires TidySoFar(s)
    ensures Words(Trimmed(s)) == Words(s) && Tidy(Trimmed(s))
  {
    if s != [] && IsSpace(s[|s| - 1]) {
      TidyFront(s, |s| - 1);
      TrimmedKeeps(s[..|s| - 1]);
    }
  }

  /** The words stay, and no blank is left at either end, doubled, behind `(` or before a parenthesis. */
  lemma TidiedKeeps(t: Text)
    ensures Words(Tidied(t)) == Words(t) && Tidy(Tidied(t))
  {
    SqueezedKeeps(t);
    TrimmedKeeps(Squeezed(t));
  }

  lemma {:induction false} SqueezedFixed(t: Text)
    requires TidySoFar(t)
    ensures Squeezed(t) == t
  {
    if t != [] {
      var n := |t| - 1;
      TidyFront(t, n);
      SqueezedFixed(t[..n]);
      if n > 0 { assert FitsAt(t, n); }
      assert t == t[..n] + [t[n]];
    }
  }

  /** A tidy text is left alone. */
  lemma TidiedFixed(t: Text)
    requires Tidy(t)
    ensures Tidied(t) == t
  {
    SqueezedFixed(t);
  }

  // ----- What the first pass takes out, blank by blank ----------------------------------------

  /** What has been squeezed so far is all that matters for the rest. */
  lemma SqueezedFrom(x: Text, y: Text, u: Text)
    requires Squeezed(x) == Squeezed(y)
    ensures Squeezed(x + u) == Squeezed(y + u)
  {
    var g := SqueezedOn(x, y, Squeezed(x), u);
    assert Squeezed(x + u) == g && Squeezed(y + u) == g;
  }

  lemma {:induction false} SqueezedOn(x: Text, y: Text, f: Text, u: Text) returns (g: Text)
    requires SqueezedIs(x, f) && SqueezedIs(y, f)
    ensures SqueezedIs(x + u, g) && SqueezedIs(y + u, g)
  {
    if u == [] {
      g := f;
      assert x + u == x && y + u == y;
    } else {
      var n := |u| - 1;
      g := SqueezedOn(x, y, f, u[..n]);
      assert x + u == x + u[..n] + [u[n]] && y + u == y + u[..n] + [u[n]];
      MoreSqueezed(x + u[..n], g, u[n], x + u);
      MoreSqueezed(y + u[..n], g, u[n], y + u);
      g := Onto(g, u[n]);
    }
  }

  lemma SqueezedTwo(t: Text, c: Char, d: Char)
    ensures Squeezed(t + [c, d]) == Onto(Onto(Squeezed(t), c), d)
  {
    SqueezedAnd(t, c);
    SqueezedAnd(t + [c], d);
    assert t + [c] + [d] == t + [c, d];
  }

  /**
   Of a run of blanks the first is kept; a blank behind `(`, before a parenthesis, or at either end makes no difference. With
   `TidiedFixed` this says what every text is tidied to.
   */
  lemma BlanksGo(t: Text, b: Char, c: Char, u: Text)
    requires b == 32 || 9 <= b <= 13
    ensures c == 32 || 9 <= c <= 13 ==> Tidied(t + [b, c] + u) == Tidied(t + [b] + u)
    ensures c == 40 ==> Tidied(t + [c, b] + u) == Tidied(t + [c] + u)
    ensures c == 40 || c == 41 ==> Tidied(t + [b, c] + u) == Tidied(t + [c] + u)
  {
    SqueezedTwo(t, b, c);
    SqueezedTwo(t, c, b);
    SqueezedAnd(t, b);
    SqueezedAnd(t, c);
    if IsSpace(c) { SqueezedFrom(t + [b, c], t + [b], u); }
    if c == 40 { SqueezedFrom(t + [c, b], t + [c], u); }
    if c == 40 || c == 41 { SqueezedFrom(t + [b, c], t + [c], u); }
  }

  lemma BlankEndsGo(t: Text, b: Char)
    requires b == 32 || 9 <= b <= 13
    ensures Tidied([b] + t) == Tidied(t) && Tidied(t + [b]) == Tidied(t)
  {
    SqueezedAnd([], b);
    assert [] + [b] == [b] && [] + t == t;
    SqueezedFrom([b], [], t);
    SqueezedAnd(t, b);
    var f := Squeezed(t);
    assert (f + [b])[..|f|] == f;
  }

  // ----- What the second pass makes of a text -----------------------------------------------

  /** What has been written; the parentheses open; whether a line has been broken, and is empty. */
  datatype Page = Page(text: Text, depth: int, broken: bool, empty: bool)

  const START := Page([], 0, false, true)

  /** How a byte changes the number of open parentheses, quoted or not. */
  function Step(c: Char): int {
    if c == OPEN then 1 else if c == CLOSE then -1 else 0
  }

  /** Blanks behind a line break are dropped. */
  predicate Passed(p: Page, c: Char) {
    p.broken && p.empty && IsSpace(c)
  }

  /** A line ends before the parenthesis that closes the outermost ones. */
  predicate Before(p: Page, c: Char) {
    c == CLOSE && p.broken && p.depth == 1 && !p.empty
  }

  /** A line ends behind each of these directly inside the outermost parentheses. */
  predicate Behind(p: Page, c: Char) {
    p.depth + Step(c) == 1 && (c == OPEN || c == COMMA || c == LF)
  }

  function Piece(p: Page, c: Char): Text {
    if Passed(p, c) then []
    else if Before(p, c) then [LF, c]
    else if Behind(p, c) then if c == LF then [LF, SPACE, SPACE] else [c, LF, SPACE, SPACE]
    else [c]
  }

  function Turned(p: Page, c: Char): Page {
    if Passed(p, c) then p
    else Page(p.text + Piece(p, c), p.depth + Step(c), p.broken || Behind(p, c), Behind(p, c))
  }

  function PageOf(t: Text): Page {
    if t == [] then START else Turned(PageOf(t[..|t| - 1]), t[|t| - 1])
  }

  function Layout(t: Text): Text {
    PageOf(t).text
  }

  lemma PageAnd(t: Text, c: Char)
    ensures PageOf(t + [c]) == Turned(PageOf(t), c)
  {
    assert (t + [c])[..|t|] == t;
  }

  lemma LineEnd(out: Text)
    ensures ScanOf(out + [LF]) == Scan(Words(out), [])
    ensures ScanOf(out + [LF, SPACE, SPACE]) == Scan(Words(out), [])
  {
    Fed(out, LF);
    Fed(out + [LF], SPACE);
    Fed(out + [LF, SPACE], SPACE);
    assert out + [LF] + [SPACE] == out + [LF, SPACE] && out + [LF, SPACE] + [SPACE] == out + [LF, SPACE, SPACE];
  }

  /** A line break before a closing parenthesis. */
  lemma BreakBeforeClose(out: Text, s: Text)
    ensures ScanOf(out + s + [LF] + [CLOSE]) == ScanOf(out + s + [CLOSE])
  {
    Fed(out + s, LF);
    Fed(out + s + [LF], CLOSE);
    Fed(out + s, CLOSE);
    SpaceBeforeMark(ScanOf(out + s), LF, CLOSE);
  }

  /** A line break behind an opening parenthesis or a comma, or in place of one. */
  lemma BreakAfter(out: Text, c: Char)
    requires c == OPEN || c == COMMA || c == LF
    ensures ScanOf((if c == LF then out else out + [c]) + [LF, SPACE, SPACE]) == ScanOf(out + [c])
  {
    Fed(out, c);
    LineEnd(out);
    LineEnd(out + [c]);
  }

  /** Between the words of the page there is white space or a mark wherever a line is empty. */
  ghost predicate SameWords(p: Page, t: Text) {
    ScanOf(p.text) == ScanOf(t) && (p.empty ==> ScanOf(p.text).open == [])
  }

  lemma TurnedWords(p: Page, t: Text, c: Char)
    requires SameWords(p, t)
    ensures SameWords(Turned(p, c), t + [c])
  {
    Fed(t, c);
    Fed(p.text, c);
    if Passed(p, c) {
      SpaceBetween(ScanOf(t), c);
    } else if Before(p, c) {
      BreakBeforeClose(p.text, []);
      assert p.text + [] == p.text && p.text + [LF, CLOSE] == p.text + [] + [LF] + [CLOSE];
    } else if Behind(p, c) {
      BehindWords(p.text, c);
    }
  }

  lemma BehindWords(s: Text, c: Char)
    requires c == OPEN || c == COMMA || c == LF
    ensures var s' := s + if c == LF then [LF, SPACE, SPACE] else [c, LF, SPACE, SPACE];
            ScanOf(s') == ScanOf(s + [c]) && ScanOf(s').open == []
  {
    BreakAfter(s, c);
    LineEnd(if c == LF then s else s + [c]);
    assert s + [c, LF, SPACE, SPACE] == s + [c] + [LF, SPACE, SPACE];
  }

  lemma NoWords()
    ensures SameWords(PageOf([]), [])
  {}

  lemma {:induction false} PageWords(t: Text)
    ensures SameWords(PageOf(t), t)
  {
    if t == [] {
      NoWords();
    } else {
      var s, c := t[..|t| - 1], t[|t| - 1];
      assert t == s + [c];
      PageWords(s);
      WordsOn(s, c);
    }
  }

  lemma WordsOn(s: Text, c: Char)
    requires SameWords(PageOf(s), s)
    ensures SameWords(PageOf(s + [c]), s + [c])
  {
    TurnedWords(PageOf(s), s, c);
    PageAnd(s, c);
  }

  /** Breaking lines keeps the words. */
  lemma LayoutWords(t: Text)
    ensures Words(Layout(t)) == Words(t)
  {
    PageWords(t);
  }

  // ----- Where lines end ----------------------------------------------------------------

  /** The parentheses open behind a text, quoted ones included. */
  function Depth(s: Text): int {
    if s == [] then 0 else Depth(s[..|s| - 1]) + Step(s[|s| - 1])
  }

  lemma DepthAnd(s: Text, c: Char)
    ensures Depth(s + [c]) == Depth(s) + Step(c)
  {
    assert (s + [c])[..|s|] == s;
  }

  /** Directly inside the outermost parentheses `(` and `,` end their line. */
  ghost predicate EndsLine(s: Text, k: nat)
    requires k < |s|
  {
    (s[k] == OPEN || s[k] == COMMA) && Depth(s[..k + 1]) == 1 ==> k + 1 < |s| && s[k + 1] == LF
  }

  /** And a line that starts there is indented, or is the closing parenthesis. */
  ghost predicate Indented(s: Text, k: nat)
    requires k < |s|
  {
    s[k] == LF && Depth(s[..k]) == 1 ==>
      (k + 2 < |s| && s[k + 1] == SPACE && s[k + 2] == SPACE) || (k + 1 < |s| && s[k + 1] == CLOSE)
  }

  ghost predicate LaidOut(s: Text) {
    forall k: nat | k < |s| :: EndsLine(s, k) && Indented(s, k)
  }

  lemma DepthOfBreak(s: Text)
    ensures Depth(s + [LF]) == Depth(s) == Depth(s + [LF, SPACE, SPACE])
  {
    DepthAnd(s, LF);
    DepthAnd(s + [LF], SPACE);
    DepthAnd(s + [LF, SPACE], SPACE);
    assert s + [LF] + [SPACE] == s + [LF, SPACE] && s + [LF, SPACE] + [SPACE] == s + [LF, SPACE, SPACE];
  }

  lemma DepthOfPiece(p: Page, c: Char)
    requires Depth(p.text) == p.depth
    ensures Depth(Turned(p, c).text) == Turned(p, c).depth
  {
    var s := p.text;
    DepthAnd(s, c);
    if Before(p, c) {
      DepthOfBreak(s);
      DepthAnd(s + [LF], c);
      assert s + [LF] + [c] == s + [LF, c];
    } else if Behind(p, c) && c != LF {
      DepthOfBreak(s + [c]);
      assert s + [c] + [LF, SPACE, SPACE] == s + [c, LF, SPACE, SPACE];
    } else {
      DepthOfBreak(s);
    }
  }

  /** A byte that is no blank, or the break behind it, does not undo what stands before. */
  lemma OldByte(s: Text, more: Text, k: nat)
    requires k < |s| && EndsLine(s, k) && Indented(s, k)
    ensures EndsLine(s + more, k) && Indented(s + more, k)
  {
    var s' := s + more;
    assert s'[..k + 1] == s[..k + 1];
    assert s'[..k] == s[..k];
  }

  lemma NewByte(s: Text, more: Text)
    requires more != []
    ensures (s + more)[..|s|] == s && (s + more)[..|s| + 1] == s + [more[0]] && (s + more)[|s|] == more[0]
    ensures |more| > 1 ==> (s + more)[|s| + 1] == more[1]
    ensures |more| > 2 ==> (s + more)[|s| + 2] == more[2]
    ensures |more| > 3 ==> (s + more)[|s| + 3] == more[3]
  {}

  lemma LaidOutBehind(s: Text, c: Char)
    requires LaidOut(s)
    ensures c == LF ==> LaidOut(s + [LF, SPACE, SPACE])
    ensures c != LF ==> LaidOut(s + [c, LF, SPACE, SPACE])
  {
    var more: Text := if c == LF then [LF, SPACE, SPACE] else [c, LF, SPACE, SPACE];
    NewByte(s, more);
    forall k: nat | k < |s + more| ensures EndsLine(s + more, k) && Indented(s + more, k) {
      if k < |s| { OldByte(s, more, k); }
    }
  }

  lemma LaidOutBefore(s: Text)
    requires LaidOut(s)
    ensures LaidOut(s + [LF, CLOSE])
  {
    NewByte(s, [LF, CLOSE]);
    forall k: nat | k < |s + [LF, CLOSE]| ensures EndsLine(s + [LF, CLOSE], k) && Indented(s + [LF, CLOSE], k) {
      if k < |s| { OldByte(s, [LF, CLOSE], k); }
    }
  }

  lemma {:induction false} LaidOutPlain(s: Text, c: Char)
    requires LaidOut(s) && !(Depth(s) + Step(c) == 1 && (c == OPEN || c == COMMA || c == LF))
    ensures LaidOut(s + [c])
  {
    NewByte(s, [c]);
    DepthAnd(s, c);
    forall k: nat | k < |s + [c]| ensures EndsLine(s + [c], k) && Indented(s + [c], k) {
      if k < |s| { OldByte(s, [c], k); }
    }
  }

  lemma LaidOutPiece(p: Page, c: Char)
    requires LaidOut(p.text) && Depth(p.text) == p.depth
    ensures LaidOut(Turned(p, c).text)
  {
    if Before(p, c) {
      LaidOutBefore(p.text);
    } else if Behind(p, c) {
      LaidOutBehind(p.text, c);
    } else {
      LaidOutPlain(p.text, c);
    }
  }

  lemma {:induction false} PageLaidOut(t: Text)
    ensures LaidOut(PageOf(t).text) && Depth(PageOf(t).text) == PageOf(t).depth
  {
    if t != [] {
      var s, c := t[..|t| - 1], t[|t| - 1];
      PageLaidOut(s);
      DepthOfPiece(PageOf(s), c);
      LaidOutPiece(PageOf(s), c);
    }
  }

  // ----- The layout without a state -------------------------------------------------------

  /** Parentheses are counted, wherever they stand. */
  lemma {:induction false} DepthCounts(t: Text)
    ensures Depth(t) + multiset(t)[41] == multiset(t)[40]
  {
    if t != [] {
      DepthCounts(t[..|t| - 1]);
      assert t == t[..|t| - 1] + [t[|t| - 1]];
    }
  }

  predicate EndsIn(s: Text, tail: Text) {
    |s| >= |tail| && s[|s| - |tail|..] == tail
  }

  /** What the page shows of its state. */
  ghost predicate Shows(p: Page, t: Text) {
    && p.depth == Depth(t) && (p.depth >= 1 ==> p.broken)
    && (p.empty && p.broken ==> p.depth == 1 && EndsIn(p.text, [10, 32, 32]))
    && (!p.empty && p.depth == 1 ==> !EndsIn(p.text, [10]) && !EndsIn(p.text, [10, 32]) && !EndsIn(p.text, [10, 32, 32]))
  }

  lemma LastByte(s: Text, c: Char)
    ensures EndsIn(s + [c], [10]) <==> c == 10
    ensures EndsIn(s + [c], [10, 32]) <==> c == 32 && EndsIn(s, [10])
    ensures EndsIn(s + [c], [10, 32, 32]) <==> c == 32 && EndsIn(s, [10, 32])
  {
    var s' := s + [c];
    if EndsIn(s', [10]) { assert s'[|s'| - 1..][0] == 10; }
    if EndsIn(s', [10, 32]) {
      assert s'[|s'| - 2..][1] == 32 && s'[|s'| - 2..][0] == 10;
      assert s[|s| - 1..] == [10];
    }
    if EndsIn(s', [10, 32, 32]) {
      var e := s'[|s'| - 3..];
      assert e[0] == 10 && e[1] == 32 && e[2] == 32;
      assert s[|s| - 2..] == [10, 32];
    }
    if EndsIn(s, [10]) { assert s[|s| - 1..][0] == 10; }
    if EndsIn(s, [10, 32]) { assert s[|s| - 2..][0] == 10 && s[|s| - 2..][1] == 32; }
  }

  lemma ShowsTurned(p: Page, t: Text, c: Char)
    requires Shows(p, t)
    ensures Shows(Turned(p, c), t + [c])
  {
    DepthAnd(t, c);
    var q := Turned(p, c);
    if Passed(p, c) {
    } else if Behind(p, c) {
      assert q.text[|q.text| - 3..] == [10, 32, 32];
    } else if Before(p, c) {
    } else {
      LastByte(p.text, c);
    }
  }

  lemma {:induction false} PageShows(t: Text)
    ensures Shows(PageOf(t), t)
  {
    if t != [] {
      var s, c := t[..|t| - 1], t[|t| - 1];
      PageShows(s);
      ShowsTurned(PageOf(s), s, c);
      assert s + [c] == t;
    }
  }

  /** What one more byte adds to the layout, given only how deep it stands and whether the layout ends in a break. */
  lemma LayoutNext(t: Text, c: Char)
    ensures var s, d, broken := Layout(t), Depth(t), EndsIn(Layout(t), [10, 32, 32]);
            Layout(t + [c]) ==
            if d == 1 && broken && (c == 32 || 9 <= c <= 13) then s
            else if d == 1 && !broken && c == 41 then s + [10, 41]
            else if (d == 0 && c == 40) || (d == 1 && c == 44) then s + [c, 10, 32, 32]
            else if d == 1 && c == 10 then s + [10, 32, 32]
            else s + [c]
  {
    PageShows(t);
    PageAnd(t, c);
  }

  // ----- Quoted text --------------------------------------------------------------------

  function TurnedAll(p: Page, q: Text): Page {
    if q == [] then p else Turned(TurnedAll(p, q[..|q| - 1]), q[|q| - 1])
  }

  lemma {:induction false} PageAndAll(t: Text, q: Text)
    ensures PageOf(t + q) == TurnedAll(PageOf(t), q)
  {
    if q == [] {
      assert t + q == t;
    } else {
      var n := |q| - 1;
      PageAndAll(t, q[..n]);
      PageAnd(t + q[..n], q[n]);
      assert t + q[..n] + [q[n]] == t + q;
    }
  }

  /** Text without blanks and parentheses, quoted or not. */
  predicate Solid(q: Text) {
    forall i | 0 <= i < |q| :: !IsSpace(q[i]) && q[i] != OPEN && q[i] != CLOSE
  }

  /** Text between quotes is laid out as it is unless it has a comma directly inside the outermost parentheses. */
  lemma {:induction false} QuotedIff(p: Page, q: Text)
    requires Solid(q)
    ensures var r := TurnedAll(p, q);
            && r.depth == p.depth && |r.text| >= |p.text| + |q|
            && (r.text == p.text + q <==> !(p.depth == 1 && COMMA in q))
  {
    if q != [] {
      var n := |q| - 1;
      var r := TurnedAll(p, q[..n]);
      QuotedIff(p, q[..n]);
      assert q == q[..n] + [q[n]];
      assert Turned(r, q[n]).text == r.text + Piece(r, q[n]);
      if r.text == p.text + q[..n] { assert p.text + q[..n] + [q[n]] == p.text + q; }
      else if !Behind(r, q[n]) { NotSame(r.text, p.text + q[..n], q[n]); assert p.text + q[..n] + [q[n]] == p.text + q; }
    }
  }

  lemma NotSame(a: Text, b: Text, c: Char)
    ensures a + [c] == b + [c] <==> a == b
  {
    assert a == (a + [c])[..|a|] && b == (b + [c])[..|b|];
  }

  /** The literal `','` behind a parenthesis is broken in two. */
  lemma QuotedInput()
    ensures var q: Text := [APOSTROPHE, COMMA, APOSTROPHE]; Layout([OPEN] + q) != Layout([OPEN]) + q
  {
    var q: Text := [APOSTROPHE, COMMA, APOSTROPHE];
    assert Solid(q) && q[1] == COMMA;
    PageAnd([], OPEN);
    assert [] + [OPEN] == [OPEN];
    QuotedIff(PageOf([OPEN]), q);
    PageAndAll([OPEN], q);
  }

  // ----- Tidying a page again -----------------------------------------------------------

  /**
   The page of `t`, squeezed again to `f`, gives the same page, and is no shorter than `t`. Where
   it ends in a blank, that is one of `t`, or stands for the break behind a comma.
   */
  ghost predicate Again(t: Text, p: Page, f: Text) {
    && PageOf(f) == p && |f| >= |t|
    && if t == [] then f == [] && p == START
       else
         var e := t[|t| - 1];
         && f != [] && (p.broken || !p.empty)
         && if !p.empty then f[|f| - 1] == e
            else (f[|f| - 1] == OPEN == e) || (f[|f| - 1] == LF && (IsSpace(e) || AfterComma(t, p, f)))
  }

  /** The line break at the end of `f` came behind a comma; what it was in `t` has not been read yet. */
  ghost predicate AfterComma(t: Text, p: Page, f: Text)
    requires t != [] && f != []
  {
    t[|t| - 1] == COMMA && |f| > |t| && PageOf(f[..|f| - 1]) == p
  }

  /** `f` is what `s` is squeezed to; the trigger keeps the function folded. */
  ghost predicate SqueezedIs(s: Text, f: Text) {
    forall x {:trigger Squeezed(x)} :: x == s ==> Squeezed(x) == f
  }

  lemma MoreSqueezed(s: Text, f: Text, c: Char, s': Text)
    requires SqueezedIs(s, f) && s' == s + [c]
    ensures SqueezedIs(s', Onto(f, c))
  {
    SqueezedAnd(s, c);
  }

  lemma BreakSqueezed(s: Text, f: Text)
    requires SqueezedIs(s, f)
    ensures SqueezedIs(s + [LF, SPACE, SPACE], Onto(Onto(Onto(f, LF), SPACE), SPACE))
  {
    MoreSqueezed(s, f, LF, s + [LF]);
    MoreSqueezed(s + [LF], Onto(f, LF), SPACE, s + [LF, SPACE]);
    MoreSqueezed(s + [LF, SPACE], Onto(Onto(f, LF), SPACE), SPACE, s + [LF, SPACE, SPACE]);
  }

  /** What a piece of the page is squeezed to. */
  lemma PieceSqueezed(s: Text, f: Text, c: Char)
    requires SqueezedIs(s, f)
    ensures SqueezedIs(s + [], f) && SqueezedIs(s + [c], Onto(f, c)) && SqueezedIs(s + [LF, c], Onto(Onto(f, LF), c))
    ensures SqueezedIs(s + [LF, SPACE, SPACE], Onto(Onto(Onto(f, LF), SPACE), SPACE))
    ensures SqueezedIs(s + [c, LF, SPACE, SPACE], Onto(Onto(Onto(Onto(f, c), LF), SPACE), SPACE))
  {
    assert s + [] == s;
    MoreSqueezed(s, f, c, s + [c]);
    MoreSqueezed(s, f, LF, s + [LF]);
    MoreSqueezed(s + [LF], Onto(f, LF), c, s + [LF, c]);
    BreakSqueezed(s, f);
    BreakSqueezed(s + [c], Onto(f, c));
    assert s + [c] + [LF, SPACE, SPACE] == s + [c, LF, SPACE, SPACE];
  }

  /** What `t` being tidy says of the byte behind it. */
  lemma NextIsTidy(t: Text, c: Char)
    requires TidySoFar(t + [c])
    ensures if t == [] then !IsSpace(c) else Fits(t[|t| - 1], c)
  {
    var t' := t + [c];
    if t != [] { assert FitsAt(t', |t|); } else { assert !IsSpace(t'[0]); }
  }

  /** A parenthesis or comma, or another byte, behind what has been squeezed again. */
  lemma AgainByte(t: Text, p: Page, f: Text, c: Char)
    requires Again(t, p, f) && TidySoFar(t + [c]) && !Passed(p, c)
    ensures Onto(f, c) != [] && Onto(f, c)[|Onto(f, c)| - 1] == c
    ensures PageOf(Onto(f, c)) == Turned(p, c) && |Onto(f, c)| > |t|
  {
    NextIsTidy(t, c);
    PageAnd(f, c);
    if (c == OPEN || c == CLOSE) && f != [] && IsSpace(f[|f| - 1]) { PageAnd(f[..|f| - 1], c); }
  }

  lemma AgainPassed(t: Text, p: Page, f: Text, c: Char)
    requires Again(t, p, f) && TidySoFar(t + [c]) && Passed(p, c)
    ensures Again(t + [c], Turned(p, c), f)
  {
    NextIsTidy(t, c);
  }

  lemma AgainBefore(t: Text, p: Page, f: Text, c: Char)
    requires Again(t, p, f) && TidySoFar(t + [c]) && Before(p, c)
    ensures Again(t + [c], Turned(p, c), Onto(Onto(f, LF), c))
  {
    NextIsTidy(t, c);
    AgainByte(t, p, f, c);
    assert t != [] && f[|f| - 1] == t[|t| - 1];
    assert f[|f| - 1] != OPEN ==> (f + [LF])[..|f|] == f;
  }

  lemma AgainLf(t: Text, p: Page, f: Text)
    requires Again(t, p, f) && TidySoFar(t + [LF]) && Behind(p, LF) && !Passed(p, LF)
    ensures Again(t + [LF], Turned(p, LF), Onto(Onto(Onto(f, LF), SPACE), SPACE))
  {
    NextIsTidy(t, LF);
    AgainByte(t, p, f, LF);
  }

  lemma AgainOpen(t: Text, p: Page, f: Text)
    requires Again(t, p, f) && TidySoFar(t + [OPEN]) && Behind(p, OPEN)
    ensures Again(t + [OPEN], Turned(p, OPEN), Onto(Onto(Onto(Onto(f, OPEN), LF), SPACE), SPACE))
  {
    AgainByte(t, p, f, OPEN);
  }

  lemma AgainComma(t: Text, p: Page, f: Text)
    requires Again(t, p, f) && TidySoFar(t + [COMMA]) && Behind(p, COMMA)
    ensures Again(t + [COMMA], Turned(p, COMMA), Onto(Onto(Onto(Onto(f, COMMA), LF), SPACE), SPACE))
  {
    AgainByte(t, p, f, COMMA);
    var g := f + [COMMA];
    PageAnd(g, LF);
    assert (g + [LF])[..|g|] == g;
  }

  lemma AgainPlain(t: Text, p: Page, f: Text, c: Char)
    requires Again(t, p, f) && TidySoFar(t + [c]) && !Passed(p, c) && !Before(p, c) && !Behind(p, c)
    ensures Again(t + [c], Turned(p, c), Onto(f, c))
  {
    AgainByte(t, p, f, c);
  }

  lemma AgainTurned(t: Text, p: Page, f: Text, c: Char) returns (f': Text)
    requires Again(t, p, f) && TidySoFar(t + [c]) && SqueezedIs(p.text, f)
    ensures Again(t + [c], Turned(p, c), f') && SqueezedIs(Turned(p, c).text, f')
  {
    PieceSqueezed(p.text, f, c);
    if Passed(p, c) {
      f' := f;
      AgainPassed(t, p, f, c);
    } else if Before(p, c) {
      f' := Onto(Onto(f, LF), c);
      AgainBefore(t, p, f, c);
    } else if !Behind(p, c) {
      f' := Onto(f, c);
      AgainPlain(t, p, f, c);
    } else if c == LF {
      f' := Onto(Onto(Onto(f, LF), SPACE), SPACE);
      AgainLf(t, p, f);
    } else {
      f' := Onto(Onto(Onto(Onto(f, c), LF), SPACE), SPACE);
      if c == OPEN { AgainOpen(t, p, f); } else { AgainComma(t, p, f); }
    }
  }

  lemma {:induction false} PageAgain(t: Text) returns (f: Text)
    requires TidySoFar(t)
    ensures Again(t, PageOf(t), f) && SqueezedIs(Layout(t), f)
  {
    f := [];
    if t != [] {
      var n := |t| - 1;
      var s, c := t[..n], t[n];
      TidyFront(t, n);
      var g := PageAgain(s);
      assert s + [c] == t;
      f := AgainTurned(s, PageOf(s), g, c);
    }
  }

  /** Laying out again what has been laid out changes nothing. */
  lemma LayoutTwice(t: Text)
    requires Tidy(t)
    ensures var u := Tidied(Layout(t)); Layout(u) == Layout(t) && |u| >= |t|
  {
    var f := PageAgain(t);
    assert f == Squeezed(Layout(t));
    SqueezedKeeps(Layout(t));
    if f != [] && IsSpace(f[|f| - 1]) {
      assert t != [] && AfterComma(t, PageOf(t), f);
      if |f| > 1 { assert FitsAt(f, |f| - 1); }
      var g := f[..|f| - 1];
      assert Trimmed(f) == Trimmed(g) == g;
    }
  }

  // ----- The pretty-printer -----------------------------------------------------------------

  const CREATE_VIEW: Text := [99, 114, 101, 97, 116, 101, SPACE, 118, 105, 101, 119]
  const CREATE_TRIG: Text := [99, 114, 101, 97, 116, 101, SPACE, 116, 114, 105, 103]

  /** sqlite3_strlike against the lower-case text and a percent sign. */
  predicate IsLike(head: Text, sql: Text) {
    |head| <= |sql| && SameLetters(sql[..|head|], head)
  }

  /** A view or a trigger is shown as it is. */
  predicate Verbatim(sql: Text) {
    IsLike(CREATE_VIEW, sql) || IsLike(CREATE_TRIG, sql)
  }

  function Pretty(sql: Text): Text {
    if Verbatim(sql) then sql
    else
      var t := Tidied(sql);
      if |t| < LINE_WIDTH then t else Layout(t)
  }

  /** The printer is idempotent, on every statement. */
  lemma PrettyTwice(sql: Text)
    ensures Pretty(Pretty(sql)) == Pretty(sql)
  {
    var t := Tidied(sql);
    TidiedKeeps(sql);
    TidiedFixed(t);
    LayoutTwice(t);
  }

  /** It keeps every word and mark. */
  lemma PrettyWords(sql: Text)
    ensures Words(Pretty(sql)) == Words(sql)
  {
    TidiedKeeps(sql);
    LayoutWords(Tidied(sql));
  }

  /** A long statement is laid out: which lines end where and how they are indented. */
  lemma PrettyLaidOut(sql: Text)
    requires !Verbatim(sql) && |Tidied(sql)| >= 79
    ensures LaidOut(Pretty(sql))
  {
    PageLaidOut(Tidied(sql));
  }

  /** A shorter one is only tidied: of a tidy statement nothing is changed. */
  lemma PrettyShort(sql: Text)
    requires !Verbatim(sql)
    ensures Tidy(sql) && |sql| < 79 ==> Pretty(sql) == sql
    ensures |Tidied(sql)| < 79 ==> Tidy(Pretty(sql)) && |Pretty(sql)| <= |sql| && multiset(Pretty(sql))[10] <= multiset(sql)[10]
  {
    TidiedKeeps(sql);
    if Tidy(sql) { TidiedFixed(sql); }
    SqueezedShrinks(sql, 10);
    TrimmedShrinks(Squeezed(sql), 10);
  }

  lemma {:induction false} SqueezedShrinks(t: Text, c: Char)
    ensures multiset(Squeezed(t))[c] <= multiset(t)[c]
  {
    if t != [] {
      var s, d := t[..|t| - 1], t[|t| - 1];
      SqueezedShrinks(s, c);
      assert t == s + [d];
      OntoShrinks(Squeezed(s), d, c);
    }
  }

  lemma OntoShrinks(f: Text, d: Char, c: Char)
    ensures multiset(Onto(f, d))[c] <= multiset(f)[c] + multiset([d])[c]
  {
    if f != [] { assert f == f[..|f| - 1] + [f[|f| - 1]]; }
  }

  lemma {:induction false} TrimmedShrinks(s: Text, c: Char)
    ensures multiset(Trimmed(s))[c] <= multiset(s)[c]
  {
    if s != [] && IsSpace(s[|s| - 1]) {
      TrimmedShrinks(s[..|s| - 1], c);
      assert s == s[..|s| - 1] + [s[|s| - 1]];
    }
  }

  /** Exactly what starts with CREATE VIEW or CREATE TRIG, in any case, is shown as it is. */
  lemma VerbatimIff(sql: Text)
    ensures Verbatim(sql) <==>
              |sql| >= 11 && (SameLetters(sql[..11], [67, 82, 69, 65, 84, 69, 32, 86, 73, 69, 87])
                              || SameLetters(sql[..11], [67, 82, 69, 65, 84, 69, 32, 84, 82, 73, 71]))
    ensures Verbatim(sql) ==> Pretty(sql) == sql
  {
    var view: Text, trig: Text := [67, 82, 69, 65, 84, 69, 32, 86, 73, 69, 87], [67, 82, 69, 65, 84, 69, 32, 84, 82, 73, 71];
    if |sql| >= 11 {
      CaseAgain(sql[..11], CREATE_VIEW, view);
      CaseAgain(sql[..11], CREATE_TRIG, trig);
    }
  }

  lemma CaseAgain(s: Text, a: Text, b: Text)
    requires |a| == |b| && forall i | 0 <= i < |a| :: a[i] == b[i] || (97 <= a[i] <= 122 && b[i] == a[i] - 32)
    ensures SameLetters(s, a) <==> SameLetters(s, b)
  {
    if SameLetters(s, a) {
      forall i | 0 <= i < |s| ensures SameLetter(s[i], b[i]) { assert SameLetter(s[i], a[i]); }
    }
    if SameLetters(s, b) {
      forall i | 0 <= i < |s| ensures SameLetter(s[i], a[i]) { assert SameLetter(s[i], b[i]); }
    }
  }

  // ----- The first pass ---------------------------------------------------------------------

  /** z[j++] = c, behind the read index. */
  method Store(z: array<byte>, ghost t: Text, ghost i: nat, j: nat, ghost s: Text, c: byte) returns (j': nat)
    requires BytesAt(z, 0, s) && RestAt(z, 0, t, i) && j == |s| <= i < |t| && c == t[i]
    modifies z
    ensures j' == j + 1 && BytesAt(z, 0, s + [t[i]]) && RestAt(z, 0, t, i + 1)
  {
    z[j] := c;
    j' := j + 1;
  }

  /** One byte: dropped, or stored, maybe over a blank. */
  method SqueezeByte(z: array<byte>, ghost t: Text, i: nat, j: nat, ghost s: Text) returns (j': nat, ghost s': Text)
    requires RestAt(z, 0, t, i) && BytesAt(z, 0, s) && j == |s| <= i < |t| && (s == [] ==> !IsSpace(t[i]))
    modifies z
    ensures RestAt(z, 0, t, i + 1) && BytesAt(z, 0, s') && j' == |s'| <= i + 1 && s' == Onto(s, t[i]) && s' != []
  {
    var c := z[i];
    assert c == t[i] && (j > 0 ==> z[j - 1] == s[j - 1]);
    j', s' := j, s;
    if IsSpace(c) {
      if IsSpace(z[j - 1]) || z[j - 1] == OPEN { return; }
    } else if (c == OPEN || c == CLOSE) && j > 0 && IsSpace(z[j - 1]) {
      j' := j - 1;
      s' := s[..j'];
    }
    j' := Store(z, t, i, j', s', c);
    s' := s' + [t[i]];
  }

  method SkipLeading(z: array<byte>, ghost t: Text) returns (i: nat)
    requires RestAt(z, 0, t, 0)
    ensures i <= |t| && RestAt(z, 0, t, i) && Squeezed(t[..i]) == [] && !IsSpace(Peek(t, i))
  {
    i := 0;
    while IsSpace(z[i])
      invariant i <= |t| && Squeezed(t[..i]) == []
      decreases |t| - i
    {
      assert z[i] == Peek(t, i);
      NextByte(t, i);
      i := i + 1;
    }
    assert z[i] == Peek(t, i);
  }

  /** The trailing blanks. */
  method TrimEnd(z: array<byte>, n: nat, ghost r: Text) returns (j: nat, ghost s: Text)
    requires n == |r| < z.Length && BytesAt(z, 0, r)
    modifies z
    ensures StrAt(z, 0, s) && j == |s| <= n && s == Trimmed(r)
  {
    j, s := n, r;
    while j > 0 && IsSpace(z[j - 1])
      invariant j == |s| <= n && BytesAt(z, 0, s) && Trimmed(s) == Trimmed(r)
      decreases j
    {
      j := j - 1;
      s := s[..j];
    }
    z[j] := 0;
  }

  /** The first pass: the write index stays behind the read index. */
  method Squeeze(z: array<byte>, ghost t: Text) returns (j: nat, ghost s: Text)
    requires StrAt(z, 0, t)
    modifies z
    ensures StrAt(z, 0, s) && j == |s| <= |t| && s == Tidied(t)
  {
    RestStarts(z, 0, t);
    var i := SkipLeading(z, t);
    j, s := 0, [];
    while z[i] != 0
      invariant |s| <= i <= |t| && RestAt(z, 0, t, i) && BytesAt(z, 0, s) && j == |s| && s == Squeezed(t[..i])
      invariant s == [] ==> !IsSpace(Peek(t, i))
      decreases |t| - i
    {
      NextByte(t, i);
      j, s := SqueezeByte(z, t, i, j, s);
      i := i + 1;
    }
    assert t[..i] == t;
    j, s := TrimEnd(z, j, s);
  }

  lemma NextByte(t: Text, i: nat)
    requires i < |t|
    ensures Squeezed(t[..i + 1]) == Onto(Squeezed(t[..i]), t[i]) && PageOf(t[..i + 1]) == Turned(PageOf(t[..i]), t[i])
  {
    assert t[..i + 1] == t[..i] + [t[i]];
    SqueezedAnd(t[..i], t[i]);
    PageAnd(t[..i], t[i]);
  }

  // ----- The second pass ------------------------------------------------------------------

  /** The first `j` bytes as text. */
  method Front(z: array<byte>, j: nat, ghost s: Text) returns (r: Text)
    requires BytesAt(z, 0, s) && j == |s|
    ensures r == s
  {
    r := [];
    var k := 0;
    while k < j
      invariant k <= j && r == s[..k]
    {
      r := r + [z[k] as Char];
      assert s[..k + 1] == s[..k] + [s[k]];
      k := k + 1;
    }
  }

  /** The state besides the two indices. */
  datatype State = State(nParen: int, cEnd: byte, nLine: nat)

  /** Quotes, brackets and parentheses, as the pass counts them. */
  function Track(st: State, c: byte): State {
    if c == st.cEnd then st.(cEnd := 0)
    else if c == QUOTE || c == APOSTROPHE || c == BACKTICK then st.(cEnd := c)
    else if c == LBRACKET then st.(cEnd := RBRACKET)
    else if c == OPEN then st.(nParen := st.nParen + 1)
    else if c == CLOSE then st.(nParen := st.nParen - 1)
    else st
  }

  /** What the state says of the page: the quote that is open plays no part in it. */
  ghost predicate Tracks(st: State, p: Page, s: Text) {
    st.nParen == p.depth && (st.nLine > 0 <==> p.broken) && (s == [] <==> p.empty) && !IsMark(st.cEnd)
  }

  /** The page of the bytes before index `i`; the trigger keeps the function folded. */
  ghost predicate PageIs(t: Text, i: nat, p: Page) {
    i <= |t| && forall x {:trigger PageOf(x)} :: x == t[..i] ==> PageOf(x) == p
  }

  lemma PageNext(t: Text, i: nat, p: Page)
    requires i < |t| && PageIs(t, i, p)
    ensures PageIs(t, i + 1, Turned(p, t[i]))
  {
    NextByte(t, i);
  }

  /** Printed and buffered text make up the page `p`; the next byte is not a blank to be passed over. */
  ghost predicate Broken(z: array<byte>, t: Text, i: nat, j: nat, out: Text, st: State, s: Text, p: Page)
    reads z
  {
    && j == |s| <= i && PageIs(t, i, p) && RestAt(z, 0, t, i) && BytesAt(z, 0, s)
    && out + s == p.text && Tracks(st, p, s) && (i < |t| ==> !Passed(p, t[i]))
  }

  /** The line break before a closing parenthesis, if there is one. */
  method BreakBefore(z: array<byte>, j: nat, out: Text, breaks: bool, ghost s: Text) returns (j': nat, out': Text, ghost s': Text)
    requires j == |s| && BytesAt(z, 0, s)
    ensures if breaks then j' == 0 && s' == [] && out' == out + s + [LF] else j' == j && s' == s && out' == out
  {
    j', out', s' := j, out, s;
    if breaks {
      var line := Front(z, j, s);
      out' := out + line + [LF];
      j', s' := 0, [];
    }
  }

  /** The line break behind a byte that has just been stored, and the blanks passed over. */
  method BreakBehind(z: array<byte>, ghost t: Text, i: nat, j: nat, out: Text, ghost s: Text, c: byte, ghost p: Page)
    returns (j': nat, out': Text, i': nat)
    requires j == |s| && 0 < j <= i <= |t| && RestAt(z, 0, t, i) && BytesAt(z, 0, s) && s[j - 1] == c
    requires PageIs(t, i, p) && p.broken && p.empty
    ensures j' == 0 && i <= i' && RestAt(z, 0, t, i') && PageIs(t, i', p) && (i' < |t| ==> !Passed(p, t[i']))
    ensures out' == out + (if c == LF then s[..j - 1] else s) + [LF, SPACE, SPACE]
  {
    j' := j;
    if c == LF { j' := j - 1; }
    var line := Front(z, j', s[..j']);
    assert s[..j] == s;
    out' := out + line + [LF, SPACE, SPACE];
    j' := 0;
    i' := i;
    while IsSpace(z[i'])
      invariant i <= i' && PageIs(t, i', p)
      decreases |t| - i'
    {
      PageNext(t, i', p);
      i' := i' + 1;
    }
  }

  /** What the tracked state and the tests make of a byte is what the page makes of it. */
  lemma TracksByte(st: State, p: Page, s: Text, c: Char)
    requires Tracks(st, p, s) && !Passed(p, c)
    ensures var st' := Track(st, c);
            && st'.nParen == p.depth + Step(c) && !IsMark(st'.cEnd) && st'.nLine == st.nLine
            && ((c == CLOSE && c != st.cEnd && st.nLine > 0 && st'.nParen == 0 && s != []) <==> Before(p, c))
            && ((st'.nParen == 1 && (c == OPEN || c == COMMA || c == LF)) <==> Behind(p, c))
  {}

  /** One byte, with the line breaks around it. */
  method BreakByte(z: array<byte>, ghost t: Text, i: nat, j: nat, out: Text, st: State, ghost s: Text, ghost p: Page)
    returns (i': nat, j': nat, out': Text, st': State, ghost s': Text, ghost p': Page)
    requires i < |t| && Broken(z, t, i, j, out, st, s, p)
    modifies z
    ensures i < i' && Broken(z, t, i', j', out', st', s', p')
  {
    p' := Turned(p, t[i]);
    PageNext(t, i, p);
    var c := z[i];
    assert c == t[i];
    TracksByte(st, p, s, t[i]);
    st' := Track(st, c);
    j', out', s' := BreakBefore(z, j, out, c == CLOSE && c != st.cEnd && st.nLine > 0 && st'.nParen == 0 && j > 0, s);
    ghost var front := s';
    j' := Store(z, t, i, j', s', c);
    s' := s' + [t[i]];
    i' := i + 1;
    if st'.nParen == 1 && (c == OPEN || c == COMMA || c == LF) {
      j', out', i' := BreakBehind(z, t, i', j', out', s', c, p');
      TurnsBehind(st, st', p, out, s, t[i], out');
      s' := [];
      assert out' + [] == out';
      st' := st'.(nLine := st'.nLine + 1);
    } else {
      TurnsPlain(st', p, out, s, t[i], out', front, s');
    }
  }

  /** The page behind a byte, where a line ends behind it. */
  lemma TurnsBehind(st: State, st': State, p: Page, out: Text, s: Text, c: Char, out': Text)
    requires Tracks(st, p, s) && !Passed(p, c) && Behind(p, c) && out + s == p.text
    requires st'.nParen == p.depth + Step(c) && !IsMark(st'.cEnd)
    requires out' == out + (if c == LF then (s + [c])[..|s|] else s + [c]) + [LF, SPACE, SPACE]
    ensures out' == Turned(p, c).text && Tracks(st'.(nLine := st'.nLine + 1), Turned(p, c), [])
  {
    PieceBehind(out, s, c, out', s + [c]);
  }

  /** And where none does. */
  lemma TurnsPlain(st': State, p: Page, out: Text, s: Text, c: Char, out': Text, front: Text, s': Text)
    requires !Passed(p, c) && !Behind(p, c) && out + s == p.text && s' == front + [c]
    requires if Before(p, c) then out' == out + s + [LF] && front == [] else out' == out && front == s
    requires st'.nParen == p.depth + Step(c) && !IsMark(st'.cEnd) && (st'.nLine > 0 <==> p.broken)
    ensures out' + s' == Turned(p, c).text && Tracks(st', Turned(p, c), s')
  {
    if Before(p, c) {
      assert out + s + [LF] + [c] == out + s + [LF, c];
    } else {
      assert out + (s + [c]) == out + s + [c];
    }
  }

  lemma PieceBehind(out: Text, s: Text, c: Char, out': Text, s': Text)
    requires s' == s + [c] && out' == out + (if c == LF then s'[..|s|] else s') + [LF, SPACE, SPACE]
    ensures out' == out + s + if c == LF then [LF, SPACE, SPACE] else [c, LF, SPACE, SPACE]
  {}

  /** The second pass; what is left in the buffer is the last line. */
  method BreakLines(z: array<byte>, n: nat, ghost t: Text) returns (out: Text, j: nat, ghost s: Text)
    requires StrAt(z, 0, t) && n == |t| && (t != [] ==> !IsSpace(t[0]))
    modifies z
    ensures j == |s| && BytesAt(z, 0, s) && out + s == Layout(t)
  {
    RestStarts(z, 0, t);
    var i, st := 0, State(0, 0, 0);
    ghost var p := START;
    out, j, s := [], 0, [];
    while z[i] != 0
      invariant Broken(z, t, i, j, out, st, s, p)
      decreases |t| - i
    {
      i, j, out, st, s, p := BreakByte(z, t, i, j, out, st, s, p);
    }
    PageDone(t, i, p);
    z[j] := 0;
  }

  lemma PageDone(t: Text, i: nat, p: Page)
    requires i == |t| && PageIs(t, i, p)
    ensures Layout(t) == p.text
  {
    assert t[..i] == t && PageOf(t) == p;
  }

  /** The branch of the row callback for .schema --indent. */
  method ShowPretty(azArg: Option<Text>) returns (out: Text)
    ensures out == if azArg == None then [] else Pretty(azArg.value) + [SEMICOLON, LF]
  {
    if azArg == None { return []; }
    var sql := azArg.value;
    if IsLike(CREATE_VIEW, sql) || IsLike(CREATE_TRIG, sql) { return sql + [SEMICOLON, LF]; }
    var z := new byte[|sql| + 1];
    var k := 0;
    while k < |sql|
      invariant k <= |sql| && BytesAt(z, 0, sql[..k])
    {
      z[k] := sql[k];
      k := k + 1;
    }
    z[k] := 0;
    assert sql[..k] == sql;
    var j;
    ghost var s;
    j, s := Squeeze(z, sql);
    TidiedKeeps(sql);
    out := [];
    if j >= LINE_WIDTH { out, j, s := BreakLines(z, j, s); }
    assert [] + s == s;
    var line := Front(z, j, s);
    out := out + line + [SEMICOLON, LF];
  }

  /** Shown again, without the semicolon and the line end, a statement looks the same. */
  method ShowTwice(sql: Text) returns (first: Text, second: Text)
    ensures first == second && |first| >= 2 && Words(first[..|first| - 2]) == Words(sql)
  {
    first := ShowPretty(Some(sql));
    PrettyTwice(sql);
    PrettyWords(sql);
    assert first[..|first| - 2] == Pretty(sql);
    second := ShowPretty(Some(first[..|first| - 2]));
  }
}
