/**
 Where parsing fails. Up to the position that is reported a text can still be continued to a
 document; and the parser looks at nothing behind the byte there, so that no text that starts
 with the same bytes is one, unless that byte can start or go on with a token.
 */
module Positions {
  import opened Bytes
  import opened Json
  import opened Grammar
  import opened Recognition

  // ----- Looking no further ---------------------------------------------------------------

  /** The same first `m` bytes. */
  predicate Same(s: Text, s': Text, m: nat) {
    m <= |s| && m <= |s'| && s[..m] == s'[..m]
  }

  lemma SameBehind(s: Text, s': Text, m: nat, k: nat)
    requires Same(s, s', m) && k <= m
    ensures Same(s[k..], s'[k..], m - k) && s[..k] == s'[..k] && (k < m ==> s[k] == s'[k])
  {
    assert s[k..][..m - k] == s[..m][k..] && s'[k..][..m - k] == s'[..m][k..];
    assert s[..k] == s[..m][..k] && s'[..k] == s'[..m][..k];
    if k < m { assert s[k] == s[..m][k] && s'[k] == s'[..m][k]; }
  }

  /** Where reading stopped. */
  function End<T>(r: Parsed<T>): Text {
    if r.Parsed? then r.rest else r.at
  }

  /** No keyword, string or fraction starts with the byte reading stopped at. */
  predicate Settled<T>(r: Parsed<T>) {
    if r.Parsed? then Head(r.rest) != 46 else Head(r.at) !in [34, 46, 102, 110, 116]
  }

  /** Reading `s` takes the `k` bytes in front of the end of `r`, and fewer than `m`. */
  predicate Within<T(==)>(s: Text, r: Parsed<T>, k: nat, m: nat) {
    k < m && k <= |s| && End(r) == s[k..] && Settled(r)
  }

  /** The same result, `k` bytes into another text. */
  function At<T>(r: Parsed<T>, s': Text, k: nat): Parsed<T>
    requires k <= |s'|
  {
    if r.Parsed? then Parsed(r.value, s'[k..]) else Malformed(s'[k..])
  }

  lemma {:induction false} SkipLocal(s: Text, s': Text, m: nat, k: nat)
    requires Same(s, s', m) && k < m && Skip(s) == s[k..]
    ensures Skip(s') == s'[k..]
  {
    SameBehind(s, s', m, 0);
    if s[0] <= SPACE {
      SameBehind(s, s', m, 1);
      assert k > 0 by { assert |Skip(s[1..])| < |s|; }
      assert s[k..] == s[1..][k - 1..] && s'[k..] == s'[1..][k - 1..];
      SkipLocal(s[1..], s'[1..], m - 1, k - 1);
    } else {
      assert k == 0 by { assert |s[k..]| == |s|; }
    }
  }

  lemma {:induction false} SkippedAt(s: Text) returns (k: nat)
    ensures k <= |s| && Skip(s) == s[k..]
  {
    k := 0;
    if s != [] && s[0] <= SPACE {
      k := SkippedAt(s[1..]);
      assert s[1..][k..] == s[k + 1..];
      k := k + 1;
    }
  }

  lemma DigitsLocal(acc: nat, s: Text, s': Text, m: nat)
    requires Same(s, s', m) && DigitCount(s) < m
    ensures ReadDigits(acc, s') == ReadDigits(acc, s) && DigitCount(s') == DigitCount(s)
  {
    CountLocal(s, s', m);
    SameBehind(s, s', m, DigitCount(s));
  }

  lemma {:induction false} CountLocal(s: Text, s': Text, m: nat)
    requires Same(s, s', m) && DigitCount(s) < m
    ensures DigitCount(s') == DigitCount(s)
  {
    SameBehind(s, s', m, 0);
    if IsDigit(Head(s)) {
      SameBehind(s, s', m, 1);
      CountLocal(s[1..], s'[1..], m - 1);
    }
  }

  lemma ExponentLocal(s: Text, s': Text, m: nat)
    requires Same(s, s', m) && Exponent(s).1 < m
    ensures Exponent(s') == Exponent(s)
  {
    SameBehind(s, s', m, 0);
    if IsExponentMark(Head(s)) {
      SameBehind(s, s', m, 1);
      SameBehind(s[1..], s'[1..], m - 1, 0);
      if IsSign(Head(s[1..])) {
        SameBehind(s[1..], s'[1..], m - 1, 1);
        DigitsLocal(0, s[1..][1..], s'[1..][1..], m - 2);
      } else {
        DigitsLocal(0, s[1..], s'[1..], m - 1);
      }
    }
  }

  /** A number, given by its digits; the triggers keep the arithmetic folded. */
  ghost predicate FractionRead(neg: bool, whole: nat, s: Text, r: Parsed<Value>) {
    forall x {:trigger ParseFraction(neg, whole, x)} :: x == s ==> ParseFraction(neg, whole, x) == r
  }

  ghost predicate NumberRead(s: Text, r: Parsed<Value>) {
    forall x {:trigger ParseNumber(x)} :: x == s && (Head(x) == MINUS || IsDigit(Head(x))) ==> ParseNumber(x) == r
  }

  /** The parts of a fraction: how many digits, and where the exponent starts and ends. */
  lemma FractionPoints(neg: bool, whole: nat, s: Text, r: Parsed<Value>) returns (n: nat, x: Text, used: nat)
    requires FractionRead(neg, whole, s, r)
    ensures r.Parsed? && n == FractionLength(s) && (n > 0 ==> n + 1 <= |s|) && x == (if n > 0 then s[1..][n..] else s)
    ensures used == Exponent(x).1 && used <= |x| && r.rest == x[used..]
  {
    n := FractionLength(s);
    x := if n > 0 then s[1..][n..] else s;
    used := Exponent(x).1;
    assert ParseFraction(neg, whole, s) == r;
  }

  /** They are all that matters. */
  lemma FractionSame(neg: bool, whole: nat, s: Text, r: Parsed<Value>, s': Text, n: nat, x: Text, x': Text)
    requires FractionRead(neg, whole, s, r) && r.Parsed? && n == FractionLength(s) == FractionLength(s')
    requires x == (if n > 0 then s[1..][n..] else s) && x' == if n > 0 then s'[1..][n..] else s'
    requires (n > 0 ==> ReadDigits(whole, s[1..]) == ReadDigits(whole, s'[1..])) && Exponent(x) == Exponent(x')
    ensures FractionRead(neg, whole, s', Parsed(r.value, x'[Exponent(x).1..]))
  {
    assert ParseFraction(neg, whole, s) == r;
  }

  lemma FractionLocal(neg: bool, whole: nat, s: Text, s': Text, m: nat, r: Parsed<Value>, k: nat)
    requires Same(s, s', m) && FractionRead(neg, whole, s, r) && Within(s, r, k, m)
    ensures FractionRead(neg, whole, s', At(r, s', k))
  {
    var n, x, used := FractionPoints(neg, whole, s, r);
    assert |s[k..]| == |s| - k;
    SameBehind(s, s', m, 0);
    var x' := if n > 0 then s'[1..][n..] else s';
    if n > 0 {
      PlacesLocal(whole, s, s', m, n);
      ExponentLocal(x, x', m - 1 - n);
      assert x'[used..] == s'[k..];
    } else {
      PointLocal(s, s', m, k);
      ExponentLocal(s, s', m);
    }
    FractionSame(neg, whole, s, r, s', n, x, x');
  }

  lemma PlacesLocal(whole: nat, s: Text, s': Text, m: nat, n: nat)
    requires Same(s, s', m) && n == FractionLength(s) && 0 < n && n + 1 < m
    ensures n == FractionLength(s') && ReadDigits(whole, s[1..]) == ReadDigits(whole, s'[1..])
    ensures Same(s[1..][n..], s'[1..][n..], m - 1 - n)
  {
    SameBehind(s, s', m, 0);
    SameBehind(s, s', m, 1);
    DigitsLocal(whole, s[1..], s'[1..], m - 1);
    SameBehind(s[1..], s'[1..], m - 1, n);
  }

  /** A point without digits is where reading stops. */
  lemma PointLocal(s: Text, s': Text, m: nat, k: nat)
    requires Same(s, s', m) && k < m && FractionLength(s) == 0 && Exponent(s).1 == k && s[k] != POINT
    ensures FractionLength(s') == 0
  {
    SameBehind(s, s', m, 0);
  }

  lemma FractionFrom(neg: bool, whole: nat, s: Text, s': Text, m: nat, p: nat, r: Parsed<Value>, k: nat)
    requires Same(s, s', m) && p <= k && p <= |s| && FractionRead(neg, whole, s[p..], r) && Within(s, r, k, m)
    ensures FractionRead(neg, whole, s'[p..], At(r, s', k))
  {
    SameBehind(s, s', m, p);
    assert s[p..][k - p..] == s[k..] && s'[p..][k - p..] == s'[k..];
    FractionLocal(neg, whole, s[p..], s'[p..], m - p, r, k - p);
  }

  lemma NumberLocal(s: Text, s': Text, m: nat, r: Parsed<Value>, k: nat)
    requires (Head(s) == MINUS || IsDigit(Head(s))) && Same(s, s', m) && NumberRead(s, r) && Within(s, r, k, m)
    ensures Head(s') == Head(s) && NumberRead(s', At(r, s', k))
  {
    var a, q, whole, p := NumberPoints(s, r);
    assert |s[k..]| == |s| - k;
    SameBehind(s, s', m, 0);
    SameBehind(s, s', m, a);
    SameBehind(s, s', m, q);
    WholeLocal(s[q..], s'[q..], m - q, whole, p - q);
    FractionFrom(Head(s) == MINUS, whole, s, s', m, p, r, k);
    NumberSame(s', a, q, whole, p, At(r, s', k));
  }

  lemma WholeLocal(t: Text, t': Text, m: nat, whole: nat, n: nat)
    requires Same(t, t', m) && (whole, n) == WholeDigits(t) && n < m
    ensures WholeDigits(t') == (whole, n)
  {
    SameBehind(t, t', m, 0);
    if Head(t) != ZERO { DigitsLocal(0, t, t', m); }
  }

  /** A sign up to `a`, a leading zero up to `q`, and the digits behind it up to `p`. */
  predicate Points(s: Text, a: nat, q: nat, whole: nat, p: nat) {
    && a == (if Head(s) == MINUS then 1 else 0) && a <= |s|
    && q == a + (if Head(s[a..]) == ZERO then 1 else 0) && q <= p <= |s|
    && (whole, p - q) == WholeDigits(s[q..])
  }

  lemma NumberSame(s: Text, a: nat, q: nat, whole: nat, p: nat, r: Parsed<Value>)
    requires (Head(s) == MINUS || IsDigit(Head(s))) && Points(s, a, q, whole, p)
    requires FractionRead(Head(s) == MINUS, whole, s[p..], r)
    ensures NumberRead(s, r)
  {
    var r' := ReadNumber(s);
    var a', q', whole', p' := NumberPoints(s, r');
    FractionOnce(Head(s) == MINUS, whole, s[p..], r, r');
  }

  lemma ReadNumber(s: Text) returns (r: Parsed<Value>)
    requires Head(s) == MINUS || IsDigit(Head(s))
    ensures NumberRead(s, r)
  {
    r := ParseNumber(s);
  }

  lemma FractionOnce(neg: bool, whole: nat, s: Text, r: Parsed<Value>, r': Parsed<Value>)
    requires FractionRead(neg, whole, s, r) && FractionRead(neg, whole, s, r')
    ensures r == r'
  {
    assert ParseFraction(neg, whole, s) == r;
  }

  lemma NumberPoints(s: Text, r: Parsed<Value>) returns (a: nat, q: nat, whole: nat, p: nat)
    requires (Head(s) == MINUS || IsDigit(Head(s))) && NumberRead(s, r)
    ensures Points(s, a, q, whole, p)
    ensures r.Parsed? && |r.rest| <= |s| - p && FractionRead(Head(s) == MINUS, whole, s[p..], r)
  {
    a := if Head(s) == MINUS then 1 else 0;
    q := a + if Head(s[a..]) == ZERO then 1 else 0;
    whole := WholeDigits(s[q..]).0;
    p := q + WholeDigits(s[q..]).1;
    assert s[0..] == s && s[a..][0..] == s[a..] && s[a..][q - a..] == s[q..] && s[q..][p - q..] == s[p..];
    assert ParseNumber(s) == r;
  }

  // ----- Strings ------------------------------------------------------------------------

  lemma {:induction false} BodyLocal(s: Text, s': Text, m: nat)
    requires Same(s, s', m) && BodyLength(s) < m
    ensures BodyLength(s') == BodyLength(s)
    decreases |s|
  {
    SameBehind(s, s', m, 0);
    if s[0] == QUOTE {
    } else if s[0] == BACKSLASH && |s| > 1 {
      SameBehind(s, s', m, 2);
      BodyLocal(s[2..], s'[2..], m - 2);
    } else {
      SameBehind(s, s', m, 1);
      BodyLocal(s[1..], s'[1..], m - 1);
    }
  }

  lemma StringLocal(s: Text, s': Text, m: nat, k: nat)
    requires Same(s, s', m) && ParseString(s).Parsed? && k < m && ParseString(s).rest == s[k..]
    ensures ParseString(s') == At(ParseString(s), s', k)
  {
    var n := BodyLength(s[1..]);
    assert |s[k..]| == |s| - k;
    SameBehind(s, s', m, 0);
    SameBehind(s, s', m, 1);
    BodyLocal(s[1..], s'[1..], m - 1);
    SameBehind(s[1..], s'[1..], m - 1, n);
    assert k == n + 2;
  }

  // ----- Values -------------------------------------------------------------------------

  lemma Next(text: Text, i: nat, k: nat)
    requires i + k <= |text|
    ensures text[i..][k..] == text[i + k..] && Head(text[i..]) == Peek(text, i)
  {}

  lemma SameTail(text: Text, i: nat, j: nat)
    requires i <= |text| && j <= |text| && text[i..] == text[j..]
    ensures i == j
  {
    assert |text[i..]| == |text| - i && |text[j..]| == |text| - j;
  }

  // Results by name: the parser stays folded where it is applied through these.

  lemma ReadValue(s: Text) returns (r: Parsed<Value>)
    ensures ValueRead(s, r)
  {
    r := ParseValue(s);
  }

  lemma ReadItems(s: Text) returns (r: Parsed<seq<Value>>)
    ensures ItemsRead(s, r)
  {
    r := ParseItems(s);
  }

  lemma ReadMember(s: Text) returns (r: Parsed<Member>)
    ensures MemberRead(s, r)
  {
    r := ParseMember(s);
  }

  lemma ReadMembers(s: Text) returns (r: Parsed<seq<Member>>)
    ensures MembersRead(s, r)
  {
    r := ParseMembers(s);
  }

  lemma ItemsOnce(s: Text, r: Parsed<seq<Value>>, r': Parsed<seq<Value>>)
    requires ItemsRead(s, r) && ItemsRead(s, r')
    ensures r == r'
  {
    assert ParseItems(s) == r;
  }

  lemma MembersOnce(s: Text, r: Parsed<seq<Member>>, r': Parsed<seq<Member>>)
    requires MembersRead(s, r) && MembersRead(s, r')
    ensures r == r'
  {
    assert ParseMembers(s) == r;
  }

  ghost predicate NameRead(s: Text, r: Parsed<Text>) {
    forall x {:trigger ParseString(x)} :: x == s ==> ParseString(x) == r
  }

  lemma NameStops(text: Text, a: nat) returns (name: Parsed<Text>, b: nat)
    requires a <= |text|
    ensures NameRead(text[a..], name) && a <= b <= |text| && End(name) == text[b..]
    ensures if name.Parsed? then a < b else a == b
  {
    name := ParseString(text[a..]);
    b := a;
    if name.Parsed? {
      var k := StringStops(text[a..]);
      Next(text, a, k);
      b := a + k;
    }
  }

  lemma StringStops(s: Text) returns (k: nat)
    requires ParseString(s).Parsed?
    ensures 0 < k <= |s| && ParseString(s).rest == s[k..]
  {
    var n := BodyLength(s[1..]);
    k := if n + 1 < |s| then n + 2 else |s|;
  }

  /** What the branches of the parser make of their parts, failures included. */
  lemma ArrayCases(s: Text, r: Parsed<Value>) returns (q: Parsed<seq<Value>>)
    requires ValueRead(s, r) && Head(s) == LBRACKET
    ensures ItemsRead(s[1..], q)
    ensures r == if Head(Skip(s[1..])) == RBRACKET then Parsed(Array([]), Skip(s[1..])[1..])
                 else if q.Parsed? then Parsed(Array(q.value), q.rest) else Malformed(q.at)
  {
    q := ParseItems(s[1..]);
    SkipTwice(s[1..]);
    assert ParseValue(s) == r && ParseItems(Skip(s[1..])) == q;
  }

  lemma ObjectCases(s: Text, r: Parsed<Value>) returns (q: Parsed<seq<Member>>)
    requires ValueRead(s, r) && Head(s) == LBRACE
    ensures MembersRead(s[1..], q)
    ensures r == if Head(Skip(s[1..])) == RBRACE then Parsed(Object([]), Skip(s[1..])[1..])
                 else if q.Parsed? then Parsed(Object(q.value), q.rest) else Malformed(q.at)
  {
    q := ParseMembers(s[1..]);
    SameMembers(s[1..]);
    ObjectUnfolded(s, r, ParseMembers(Skip(s[1..])));
  }

  lemma ObjectUnfolded(s: Text, r: Parsed<Value>, q: Parsed<seq<Member>>)
    requires ValueRead(s, r) && Head(s) == LBRACE && MembersRead(Skip(s[1..]), q)
    ensures r == if Head(Skip(s[1..])) == RBRACE then Parsed(Object([]), Skip(s[1..])[1..])
                 else if q.Parsed? then Parsed(Object(q.value), q.rest) else Malformed(q.at)
  {
    assert ParseValue(s) == r && ParseMembers(Skip(s[1..])) == q;
  }

  lemma StringCases(s: Text, r: Parsed<Value>, q: Parsed<Text>)
    requires ValueRead(s, r) && Head(s) == QUOTE && NameRead(s, q)
    ensures r == if q.Parsed? then Parsed(String(q.value), q.rest) else Malformed(q.at)
  {
    assert ParseValue(s) == r && ParseString(s) == q;
  }

  lemma StringIsRead(s: Text, q: Parsed<Text>, r: Parsed<Value>)
    requires Head(s) == QUOTE && NameRead(s, q)
    requires r == if q.Parsed? then Parsed(String(q.value), q.rest) else Malformed(q.at)
    ensures ValueRead(s, r)
  {
    StringCases(s, ParseValue(s), q);
  }

  predicate IsKeyword(s: Text) {
    NULL_TEXT <= s || FALSE_TEXT <= s || TRUE_TEXT <= s
  }

  /** A keyword, or no value at all. */
  lemma OtherCases(s: Text, r: Parsed<Value>)
    requires ValueRead(s, r) && Head(s) !in [LBRACKET, LBRACE, QUOTE, MINUS] && !IsDigit(Head(s))
    ensures if IsKeyword(s) then r.Parsed? && r.rest == s[if FALSE_TEXT <= s then 5 else 4..] else r == Malformed(s)
  {
    assert ParseValue(s) == r;
  }

  // ----- Reading stops somewhere in the text -----------------------------------------------

  /** The blanks behind index `i` end at `j`. */
  lemma SkippedTo(text: Text, i: nat) returns (j: nat)
    requires i <= |text|
    ensures i <= j <= |text| && Skip(text[i..]) == text[j..]
  {
    var k := SkippedAt(text[i..]);
    Next(text, i, k);
    j := i + k;
  }

  lemma {:induction false} ValueStops(text: Text, i: nat, r: Parsed<Value>) returns (k: nat)
    requires i <= |text| && ValueRead(text[i..], r)
    ensures i <= k <= |text| && End(r) == text[k..] && (r.Parsed? ==> k > i)
    decreases |text| - i, 1
  {
    var s := text[i..];
    Next(text, i, 0);
    k := i;
    if Head(s) == LBRACKET {
      var q := ArrayCases(s, r);
      Next(text, i, 1);
      if Head(Skip(s[1..])) == RBRACKET {
        k := SkippedTo(text, i + 1);
        Next(text, k, 1);
        k := k + 1;
      } else {
        k := ItemsStop(text, i + 1, q);
      }
    } else if Head(s) == LBRACE {
      var q := ObjectCases(s, r);
      Next(text, i, 1);
      if Head(Skip(s[1..])) == RBRACE {
        k := SkippedTo(text, i + 1);
        Next(text, k, 1);
        k := k + 1;
      } else {
        k := MembersStop(text, i + 1, q);
      }
    } else {
      k := TokenStops(text, i, r);
    }
  }

  lemma TokenStops(text: Text, i: nat, r: Parsed<Value>) returns (k: nat)
    requires i <= |text| && ValueRead(text[i..], r) && Head(text[i..]) != LBRACKET && Head(text[i..]) != LBRACE
    ensures i <= k <= |text| && End(r) == text[k..] && (r.Parsed? ==> k > i)
  {
    var s := text[i..];
    if Head(s) == QUOTE {
      var q;
      q, k := NameStops(text, i);
      StringCases(s, r, q);
    } else if Head(s) == MINUS || IsDigit(Head(s)) {
      k := NumberStops(s, r);
      Next(text, i, k);
      k := i + k;
    } else {
      k := OtherStops(s, r);
      Next(text, i, k);
      k := i + k;
    }
  }

  lemma NumberStops(s: Text, r: Parsed<Value>) returns (k: nat)
    requires ValueRead(s, r) && (Head(s) == MINUS || IsDigit(Head(s)))
    ensures r.Parsed? && 0 < k <= |s| && r.rest == s[k..]
  {
    var n, rest := NumberIs(s);
    NumberBranch(s, r, Parsed(Number(NumValue(n)), rest));
    k := |NumText(n)|;
    Split(NumText(n), rest);
    NumberNotEmpty(n);
  }

  lemma OtherStops(s: Text, r: Parsed<Value>) returns (k: nat)
    requires ValueRead(s, r) && Head(s) !in [LBRACKET, LBRACE, QUOTE, MINUS] && !IsDigit(Head(s))
    ensures k <= |s| && End(r) == s[k..] && (r.Parsed? ==> k > 0)
  {
    OtherCases(s, r);
    k := if !IsKeyword(s) then 0 else if FALSE_TEXT <= s then 5 else 4;
    assert s[0..] == s;
  }

  lemma NumberNotEmpty(n: NumToken)
    ensures NumText(n) != []
  {}

  lemma ItemsCases(s: Text, r: Parsed<seq<Value>>, first: Parsed<Value>, s2: Text, more: Parsed<seq<Value>>)
    requires ItemsRead(s, r) && ValueRead(Skip(s), first)
    requires first.Parsed? ==> s2 == Skip(first.rest) && (Head(s2) == COMMA ==> ItemsRead(s2[1..], more))
    ensures r == if first.Malformed? then Malformed(first.at)
                 else if Head(s2) == COMMA then (if more.Parsed? then Parsed([first.value] + more.value, more.rest) else more)
                 else if Head(s2) == RBRACKET then Parsed([first.value], s2[1..])
                 else Malformed(s2)
  {
    assert ParseItems(s) == r && ParseValue(Skip(s)) == first;
    if first.Parsed? && Head(s2) == COMMA { assert ParseItems(s2[1..]) == more; }
  }

  /** The items from index `i` on: the first starts at `a` and ends before `b`, a comma or the end of the list is due at `j`. */
  lemma {:induction false} ItemsPoints(text: Text, i: nat, r: Parsed<seq<Value>>)
    returns (a: nat, first: Parsed<Value>, b: nat, j: nat, more: Parsed<seq<Value>>)
    requires i <= |text| && ItemsRead(text[i..], r)
    ensures i <= a <= b <= |text| && Skip(text[i..]) == text[a..] && ValueRead(text[a..], first) && End(first) == text[b..]
    ensures first.Malformed? ==> r == Malformed(first.at)
    ensures first.Parsed? ==>
              && a < b <= j <= |text| && Skip(text[b..]) == text[j..] && (j < |text| ==> ItemsRead(text[j + 1..], more))
              && r == if Peek(text, j) == COMMA then (if more.Parsed? then Parsed([first.value] + more.value, more.rest) else more)
                      else if Peek(text, j) == RBRACKET then Parsed([first.value], text[j + 1..])
                      else Malformed(text[j..])
    decreases |text| - i, 2
  {
    a := SkippedTo(text, i);
    first := ReadValue(text[a..]);
    b := ValueStops(text, a, first);
    j := SkippedTo(text, b);
    more := Malformed([]);
    if j < |text| {
      more := ReadItems(text[j + 1..]);
      Next(text, j, 1);
    } else {
      Next(text, j, 0);
    }
    ItemsCases(text[i..], r, first, text[j..], more);
  }

  lemma {:induction false} ItemsStop(text: Text, i: nat, r: Parsed<seq<Value>>) returns (k: nat)
    requires i <= |text| && ItemsRead(text[i..], r)
    ensures i <= k <= |text| && End(r) == text[k..]
    decreases |text| - i, 3
  {
    var a, first, b, j, more := ItemsPoints(text, i, r);
    k := if first.Malformed? then b else if Peek(text, j) == RBRACKET then j + 1 else j;
    if first.Parsed? && Peek(text, j) == COMMA { k := ItemsStop(text, j + 1, more); }
  }

  /** The cases of a member, from its parts. */
  lemma MemberCases(s: Text, r: Parsed<Member>, name: Parsed<Text>, s1: Text, v: Parsed<Value>)
    requires MemberRead(s, r) && NameRead(Skip(s), name)
    requires name.Parsed? ==> s1 == Skip(name.rest) && (Head(s1) == COLON ==> ValueRead(Skip(s1[1..]), v))
    ensures r == if name.Malformed? then Malformed(name.at)
                 else if Head(s1) != COLON then Malformed(s1)
                 else if v.Malformed? then Malformed(v.at)
                 else Parsed(Member(name.value, v.value), v.rest)
  {
    assert ParseMember(s) == r && ParseString(Skip(s)) == name;
  }

  /** The value behind a colon. */
  lemma {:induction false} PartStops(text: Text, j: nat) returns (c: nat, v: Parsed<Value>, d: nat)
    requires j < |text|
    ensures j < c <= d <= |text| && Skip(text[j..][1..]) == Skip(text[j + 1..]) == text[c..] && ValueRead(text[c..], v) && End(v) == text[d..]
    decreases |text| - j - 1, 2
  {
    Next(text, j, 1);
    c := SkippedTo(text, j + 1);
    v := ReadValue(text[c..]);
    d := ValueStops(text, c, v);
  }

  /** One member: its name starts at `a`, a colon is due at `j`, its value starts at `c` and ends before `d`. */
  lemma {:induction false} MemberPoints(text: Text, i: nat, r: Parsed<Member>)
    returns (a: nat, name: Parsed<Text>, b: nat, j: nat, c: nat, v: Parsed<Value>, d: nat)
    requires i <= |text| && MemberRead(text[i..], r)
    ensures i <= a <= b <= j <= |text| && Skip(text[i..]) == text[a..] && NameRead(text[a..], name) && End(name) == text[b..]
    ensures name.Malformed? ==> a == b && r == Malformed(text[a..])
    ensures name.Parsed? ==>
              && a < b && name.rest == text[b..] && Skip(text[b..]) == text[j..]
              && (Peek(text, j) != COLON ==> r == Malformed(text[j..]))
              && (Peek(text, j) == COLON ==>
                    && j < c <= d <= |text| && Skip(text[j + 1..]) == text[c..] && ValueRead(text[c..], v) && End(v) == text[d..]
                    && r == if v.Malformed? then Malformed(v.at) else Parsed(Member(name.value, v.value), v.rest))
    decreases |text| - i, 2
  {
    a := SkippedTo(text, i);
    name, b := NameStops(text, a);
    j, c, d := b, b, b;
    v := Malformed([]);
    if name.Parsed? {
      j := SkippedTo(text, b);
      Next(text, j, 0);
      if Peek(text, j) == COLON { c, v, d := PartStops(text, j); }
    }
    MemberCases(text[i..], r, name, text[j..], v);
  }

  lemma {:induction false} MemberStops(text: Text, i: nat, r: Parsed<Member>) returns (b: nat)
    requires i <= |text| && MemberRead(text[i..], r)
    ensures i <= b <= |text| && End(r) == text[b..] && (r.Parsed? ==> b > i)
    decreases |text| - i, 3
  {
    var a, name, n, j, c, v, d := MemberPoints(text, i, r);
    b := if name.Malformed? then a else if Peek(text, j) == COLON then d else j;
  }

  lemma MembersCases(s: Text, r: Parsed<seq<Member>>, first: Parsed<Member>, s2: Text, more: Parsed<seq<Member>>)
    requires MembersRead(s, r) && MemberRead(s, first)
    requires first.Parsed? ==> s2 == Skip(first.rest) && (Head(s2) == COMMA ==> MembersRead(s2[1..], more))
    ensures r == if first.Malformed? then Malformed(first.at)
                 else if Head(s2) == COMMA then (if more.Parsed? then Parsed([first.value] + more.value, more.rest) else more)
                 else if Head(s2) == RBRACE then Parsed([first.value], s2[1..])
                 else Malformed(s2)
  {
    assert ParseMembers(s) == r && ParseMember(s) == first;
    if first.Parsed? && Head(s2) == COMMA { assert ParseMembers(s2[1..]) == more; }
  }

  lemma {:induction false} MembersPoints(text: Text, i: nat, r: Parsed<seq<Member>>)
    returns (first: Parsed<Member>, b: nat, j: nat, more: Parsed<seq<Member>>)
    requires i <= |text| && MembersRead(text[i..], r)
    ensures i <= b <= |text| && MemberRead(text[i..], first) && End(first) == text[b..]
    ensures first.Malformed? ==> r == Malformed(first.at)
    ensures first.Parsed? ==>
              && i < b <= j <= |text| && Skip(text[b..]) == text[j..] && (j < |text| ==> MembersRead(text[j + 1..], more))
              && r == if Peek(text, j) == COMMA then (if more.Parsed? then Parsed([first.value] + more.value, more.rest) else more)
                      else if Peek(text, j) == RBRACE then Parsed([first.value], text[j + 1..])
                      else Malformed(text[j..])
    decreases |text| - i, 4
  {
    first := ReadMember(text[i..]);
    b := MemberStops(text, i, first);
    j := SkippedTo(text, b);
    more := Malformed([]);
    if j < |text| {
      more := ReadMembers(text[j + 1..]);
      Next(text, j, 1);
    } else {
      Next(text, j, 0);
    }
    MembersCases(text[i..], r, first, text[j..], more);
  }

  lemma {:induction false} MembersStop(text: Text, i: nat, r: Parsed<seq<Member>>) returns (k: nat)
    requires i <= |text| && MembersRead(text[i..], r)
    ensures i <= k <= |text| && End(r) == text[k..]
    decreases |text| - i, 5
  {
    var first, b, j, more := MembersPoints(text, i, r);
    k := if first.Malformed? then b else if Peek(text, j) == RBRACE then j + 1 else j;
    if first.Parsed? && Peek(text, j) == COMMA { k := MembersStop(text, j + 1, more); }
  }

  // ----- And looks at no more than the byte there ----------------------------------------------

  /** Reading from `i` stops at `k`, before `m`. */
  predicate Stops<T(==)>(text: Text, i: nat, r: Parsed<T>, k: nat, m: nat) {
    i <= k < m && k <= |text| && End(r) == text[k..] && Settled(r)
  }

  lemma Alike(text: Text, text': Text, m: nat, i: nat)
    requires Same(text, text', m) && i < m
    ensures Peek(text', i) == Peek(text, i) && Head(text'[i..]) == Head(text[i..]) && Same(text[i..], text'[i..], m - i)
  {
    SameBehind(text, text', m, i);
  }

  lemma BlanksAlike(text: Text, text': Text, m: nat, i: nat, j: nat)
    requires Same(text, text', m) && i <= j < m && Skip(text[i..]) == text[j..]
    ensures Skip(text'[i..]) == text'[j..] && Peek(text', j) == Peek(text, j)
  {
    Alike(text, text', m, i);
    Alike(text, text', m, j);
    Next(text, i, j - i);
    Next(text', i, j - i);
    SkipLocal(text[i..], text'[i..], m - i, j - i);
  }

  lemma {:induction false} ValueLocal(text: Text, text': Text, m: nat, i: nat, r: Parsed<Value>, k: nat)
    requires Same(text, text', m) && i <= |text| && ValueRead(text[i..], r) && Stops(text, i, r, k, m)
    ensures ValueRead(text'[i..], At(r, text', k))
    decreases |text| - i, 1
  {
    Alike(text, text', m, i);
    var s := text[i..];
    if Head(s) == LBRACKET {
      ArrayLocal(text, text', m, i, r, k);
    } else if Head(s) == LBRACE {
      ObjectLocal(text, text', m, i, r, k);
    } else if Head(s) == QUOTE {
      QuotedLocal(text, text', m, i, r, k);
    } else if Head(s) == MINUS || IsDigit(Head(s)) {
      DigitLocal(text, text', m, i, r, k);
    } else {
      OtherLocal(text, text', m, i, r, k);
    }
  }

  lemma QuotedLocal(text: Text, text': Text, m: nat, i: nat, r: Parsed<Value>, k: nat)
    requires Same(text, text', m) && i <= |text| && ValueRead(text[i..], r) && Stops(text, i, r, k, m) && Head(text[i..]) == QUOTE
    ensures ValueRead(text'[i..], At(r, text', k))
  {
    Alike(text, text', m, i);
    var q, b := NameStops(text, i);
    StringCases(text[i..], r, q);
    SameTail(text, b, k);
    NameLocal(text, text', m, i, q, b);
    StringIsRead(text'[i..], At(q, text', b), At(r, text', k));
  }

  lemma DigitLocal(text: Text, text': Text, m: nat, i: nat, r: Parsed<Value>, k: nat)
    requires Same(text, text', m) && i <= |text| && ValueRead(text[i..], r) && Stops(text, i, r, k, m)
    requires Head(text[i..]) == MINUS || IsDigit(Head(text[i..]))
    ensures ValueRead(text'[i..], At(r, text', k))
  {
    Alike(text, text', m, i);
    Next(text, i, k - i);
    Next(text', i, k - i);
    DigitAgain(text[i..], text'[i..], m - i, r, k - i);
    assert At(r, text'[i..], k - i) == At(r, text', k);
  }

  lemma DigitAgain(s: Text, s': Text, m: nat, r: Parsed<Value>, k: nat)
    requires Same(s, s', m) && ValueRead(s, r) && Within(s, r, k, m) && (Head(s) == MINUS || IsDigit(Head(s)))
    ensures ValueRead(s', At(r, s', k))
  {
    AsNumber(s, r);
    NumberLocal(s, s', m, r, k);
    var r' := ReadValue(s');
    AsNumber(s', r');
    NumberOnce(s', At(r, s', k), r');
  }

  lemma AsNumber(s: Text, r: Parsed<Value>)
    requires ValueRead(s, r) && (Head(s) == MINUS || IsDigit(Head(s)))
    ensures NumberRead(s, r)
  {
    NumberBranch(s, r, ParseNumber(s));
  }

  lemma NumberOnce(s: Text, r: Parsed<Value>, r': Parsed<Value>)
    requires NumberRead(s, r) && NumberRead(s, r') && (Head(s) == MINUS || IsDigit(Head(s)))
    ensures r == r'
  {
    assert ParseNumber(s) == r;
  }

  lemma OtherLocal(text: Text, text': Text, m: nat, i: nat, r: Parsed<Value>, k: nat)
    requires Same(text, text', m) && i <= |text| && ValueRead(text[i..], r) && Stops(text, i, r, k, m)
    requires Head(text[i..]) !in [LBRACKET, LBRACE, QUOTE, MINUS] && !IsDigit(Head(text[i..]))
    ensures ValueRead(text'[i..], At(r, text', k))
  {
    var s, s' := text[i..], text'[i..];
    Alike(text, text', m, i);
    OtherCases(s, r);
    var r' := ParseValue(s');
    OtherCases(s', r');
    if IsKeyword(s) {
      var n := if FALSE_TEXT <= s then 5 else 4;
      Next(text, i, n);
      SameTail(text, i + n, k);
      SameBehind(s, s', m - i, n);
      KeywordAgain(s, s', n);
      Next(text', i, n);
    } else {
      SameTail(text, i, k);
      KeywordStarts(s');
    }
  }

  lemma KeywordAgain(s: Text, s': Text, n: nat)
    requires IsKeyword(s) && n == (if FALSE_TEXT <= s then 5 else 4) && n <= |s'| && s'[..n] == s[..n]
    ensures IsKeyword(s') && (FALSE_TEXT <= s' <==> FALSE_TEXT <= s)
    ensures ParseValue(s').Parsed? && ParseValue(s).Parsed? && ParseValue(s').value == ParseValue(s).value
  {
    assert s'[0] == s'[..n][0] && s[0] == s[..n][0];
    if NULL_TEXT <= s { assert NULL_TEXT == s[..n]; }
    else if FALSE_TEXT <= s { assert FALSE_TEXT == s[..n]; }
    else { assert TRUE_TEXT == s[..n]; }
  }

  lemma KeywordStarts(s: Text)
    ensures IsKeyword(s) ==> Head(s) in [102, 110, 116]
  {}

  lemma {:induction false} ArrayLocal(text: Text, text': Text, m: nat, i: nat, r: Parsed<Value>, k: nat)
    requires Same(text, text', m) && i <= |text| && ValueRead(text[i..], r) && Stops(text, i, r, k, m) && Head(text[i..]) == LBRACKET
    ensures ValueRead(text'[i..], At(r, text', k))
    decreases |text| - i, 0
  {
    Alike(text, text', m, i);
    var q := ArrayCases(text[i..], r);
    var r' := ReadValue(text'[i..]);
    var q' := ArrayCases(text'[i..], r');
    Next(text, i, 1);
    Next(text', i, 1);
    var a := SkippedTo(text, i + 1);
    Next(text, a, 0);
    if Peek(text, a) == RBRACKET {
      Next(text, a, 1);
      SameTail(text, a + 1, k);
      BlanksAlike(text, text', m, i + 1, a);
      Alike(text, text', m, a);
      Next(text', a, 1);
    } else {
      var k' := ItemsStop(text, i + 1, q);
      SameTail(text, k', k);
      ItemsAfter(text, i + 1, q, a, k);
      BlanksAlike(text, text', m, i + 1, a);
      Alike(text, text', m, a);
      ItemsLocal(text, text', m, i + 1, q, k);
      ItemsOnce(text'[i + 1..], At(q, text', k), q');
    }
  }

  lemma ItemsAfter(text: Text, i: nat, r: Parsed<seq<Value>>, a: nat, k: nat)
    requires i <= a <= |text| && ItemsRead(text[i..], r) && Skip(text[i..]) == text[a..] && k <= |text| && End(r) == text[k..]
    ensures a <= k
  {
    var a', first, b, j, more := ItemsPoints(text, i, r);
    SameTail(text, a, a');
    if first.Parsed? && Peek(text, j) == COMMA {
      var k' := ItemsStop(text, j + 1, more);
      SameTail(text, k, k');
    } else {
      SameTail(text, k, if first.Malformed? then b else if Peek(text, j) == RBRACKET then j + 1 else j);
    }
  }

  lemma {:induction false} ItemsLocal(text: Text, text': Text, m: nat, i: nat, r: Parsed<seq<Value>>, k: nat)
    requires Same(text, text', m) && i <= |text| && ItemsRead(text[i..], r) && Stops(text, i, r, k, m)
    ensures ItemsRead(text'[i..], At(r, text', k))
    decreases |text| - i, 2
  {
    var a, first, b, j, more := ItemsPoints(text, i, r);
    FirstItem(text, i, r, a, first, b, j, more, k);
    BlanksAlike(text, text', m, i, a);
    ValueLocal(text, text', m, a, first, b);
    var more' := Malformed([]);
    if first.Parsed? { more' := MoreItemsLocal(text, text', m, b, j, more, k); }
    ItemsAre(text', i, a, At(first, text', b), j, more', At(r, text', k));
  }

  lemma {:induction false} MoreItemsLocal(text: Text, text': Text, m: nat, b: nat, j: nat, more: Parsed<seq<Value>>, k: nat)
    returns (more': Parsed<seq<Value>>)
    requires Same(text, text', m) && b <= j <= |text| && j < m && Skip(text[b..]) == text[j..]
    requires Peek(text, j) == COMMA ==> j < |text| && ItemsRead(text[j + 1..], more) && Stops(text, j + 1, more, k, m)
    ensures Skip(text'[b..]) == text'[j..] && Peek(text', j) == Peek(text, j)
    ensures Peek(text, j) == COMMA ==> k <= |text'| && more' == At(more, text', k) && ItemsRead(text'[j + 1..], more')
    decreases |text| - j - 1, 3
  {
    BlanksAlike(text, text', m, b, j);
    more' := Malformed([]);
    if Peek(text, j) == COMMA {
      ItemsLocal(text, text', m, j + 1, more, k);
      more' := At(more, text', k);
    }
  }

  /** The items from their parts. */
  lemma ItemsAre(text: Text, i: nat, a: nat, first: Parsed<Value>, j: nat, more: Parsed<seq<Value>>, r: Parsed<seq<Value>>)
    requires i <= a <= |text| && Skip(text[i..]) == text[a..] && ValueRead(text[a..], first)
    requires first.Malformed? ==> r == Malformed(first.at)
    requires first.Parsed? ==>
               && j <= |text| && Skip(first.rest) == text[j..] && (Peek(text, j) == COMMA ==> ItemsRead(text[j + 1..], more))
               && r == if Peek(text, j) == COMMA then (if more.Parsed? then Parsed([first.value] + more.value, more.rest) else more)
                       else if Peek(text, j) == RBRACKET then Parsed([first.value], text[j + 1..])
                       else Malformed(text[j..])
    ensures ItemsRead(text[i..], r)
  {
    var r' := ReadItems(text[i..]);
    if first.Malformed? {
      ItemsCases(text[i..], r', first, [], more);
    } else {
      if j < |text| { Next(text, j, 1); } else { Next(text, j, 0); }
      ItemsCases(text[i..], r', first, text[j..], more);
    }
  }

  /** The first item, and what stands behind it, end in front of the whole. */
  lemma FirstItem(text: Text, i: nat, r: Parsed<seq<Value>>, a: nat, first: Parsed<Value>, b: nat, j: nat, more: Parsed<seq<Value>>, k: nat)
    requires i <= a <= b <= |text| && k <= |text| && End(r) == text[k..] && Settled(r) && End(first) == text[b..]
    requires first.Malformed? ==> r == Malformed(first.at)
    requires first.Parsed? ==>
               && b <= j <= |text| && Skip(text[b..]) == text[j..] && (j < |text| ==> ItemsRead(text[j + 1..], more))
               && r == if Peek(text, j) == COMMA then (if more.Parsed? then Parsed([first.value] + more.value, more.rest) else more)
                       else if Peek(text, j) == RBRACKET then Parsed([first.value], text[j + 1..])
                       else Malformed(text[j..])
    ensures b <= k && Settled(first)
    ensures first.Parsed? ==> j <= k && (Peek(text, j) == COMMA ==> j < k && Settled(more) && End(more) == text[k..])
  {
    if first.Malformed? {
      SameTail(text, b, k);
    } else {
      var c := if Peek(text, j) == RBRACKET then j + 1 else j;
      if Peek(text, j) == COMMA { c := ItemsStop(text, j + 1, more); }
      SameTail(text, c, k);
      SettledFirst(text, first, b, j, r);
    }
  }

  /** What is followed by a comma or a bracket did not stop at a point. */
  lemma SettledFirst<T, U>(text: Text, first: Parsed<T>, b: nat, j: nat, r: Parsed<U>)
    requires first.Parsed? && b <= j <= |text| && first.rest == text[b..] && Skip(text[b..]) == text[j..]
    requires Settled(r) && (Peek(text, j) !in [COMMA, RBRACKET, RBRACE, COLON] ==> r == Malformed(text[j..]))
    ensures Settled(first)
  {
    Next(text, b, 0);
    Next(text, j, 0);
    if Peek(text, b) == 46 { SameTail(text, b, j); }
  }

  lemma {:induction false} ObjectLocal(text: Text, text': Text, m: nat, i: nat, r: Parsed<Value>, k: nat)
    requires Same(text, text', m) && i <= |text| && ValueRead(text[i..], r) && Stops(text, i, r, k, m) && Head(text[i..]) == LBRACE
    ensures ValueRead(text'[i..], At(r, text', k))
    decreases |text| - i, 0
  {
    Alike(text, text', m, i);
    var q := ObjectCases(text[i..], r);
    var r' := ReadValue(text'[i..]);
    var q' := ObjectCases(text'[i..], r');
    Next(text, i, 1);
    Next(text', i, 1);
    var a := SkippedTo(text, i + 1);
    Next(text, a, 0);
    if Peek(text, a) == RBRACE {
      Next(text, a, 1);
      SameTail(text, a + 1, k);
      BlanksAlike(text, text', m, i + 1, a);
      Alike(text, text', m, a);
      Next(text', a, 1);
    } else {
      var k' := MembersStop(text, i + 1, q);
      SameTail(text, k', k);
      MembersAfter(text, i + 1, q, a, k);
      BlanksAlike(text, text', m, i + 1, a);
      Alike(text, text', m, a);
      MembersLocal(text, text', m, i + 1, q, k);
      MembersOnce(text'[i + 1..], At(q, text', k), q');
    }
  }

  lemma MemberAfter(text: Text, i: nat, r: Parsed<Member>, a: nat, k: nat)
    requires i <= a <= |text| && MemberRead(text[i..], r) && Skip(text[i..]) == text[a..] && k <= |text| && End(r) == text[k..]
    ensures a <= k
  {
    var a', name, b, j, c, v, d := MemberPoints(text, i, r);
    SameTail(text, a, a');
    SameTail(text, k, if name.Malformed? then a' else if Peek(text, j) == COLON then d else j);
  }

  lemma MembersAfter(text: Text, i: nat, r: Parsed<seq<Member>>, a: nat, k: nat)
    requires i <= a <= |text| && MembersRead(text[i..], r) && Skip(text[i..]) == text[a..] && k <= |text| && End(r) == text[k..]
    ensures a <= k
  {
    var first, b, j, more := MembersPoints(text, i, r);
    MemberAfter(text, i, first, a, b);
    if first.Parsed? && Peek(text, j) == COMMA {
      var k' := MembersStop(text, j + 1, more);
      SameTail(text, k, k');
    } else {
      SameTail(text, k, if first.Malformed? then b else if Peek(text, j) == RBRACE then j + 1 else j);
    }
  }

  lemma {:induction false} MemberLocal(text: Text, text': Text, m: nat, i: nat, r: Parsed<Member>, k: nat)
    requires Same(text, text', m) && i <= |text| && MemberRead(text[i..], r) && Stops(text, i, r, k, m)
    ensures MemberRead(text'[i..], At(r, text', k))
    decreases |text| - i, 2
  {
    var a, name, b, j, c, v, d := MemberPoints(text, i, r);
    SameTail(text, k, if name.Malformed? then a else if Peek(text, j) == COLON then d else j);
    BlanksAlike(text, text', m, i, a);
    NameLocal(text, text', m, a, name, b);
    var v' := Malformed([]);
    if name.Parsed? { v' := MemberValueLocal(text, text', m, b, j, c, v, d); }
    MemberIsRead(text', i, a, At(name, text', b), j, c, v', At(r, text', k));
  }

  lemma {:induction false} MemberValueLocal(text: Text, text': Text, m: nat, b: nat, j: nat, c: nat, v: Parsed<Value>, d: nat)
    returns (v': Parsed<Value>)
    requires Same(text, text', m) && b <= j <= |text| && j < m && Skip(text[b..]) == text[j..]
    requires Peek(text, j) == COLON ==>
               && j < c <= d < m && d <= |text| && Skip(text[j + 1..]) == text[c..] && ValueRead(text[c..], v) && End(v) == text[d..]
               && Settled(v)
    ensures Skip(text'[b..]) == text'[j..] && Peek(text', j) == Peek(text, j)
    ensures Peek(text, j) == COLON ==>
              && Skip(text'[j + 1..]) == text'[c..] && d <= |text'| && v' == At(v, text', d) && ValueRead(text'[c..], v')
    decreases |text| - j - 1, 2
  {
    BlanksAlike(text, text', m, b, j);
    v' := Malformed([]);
    if Peek(text, j) == COLON {
      BlanksAlike(text, text', m, j + 1, c);
      ValueLocal(text, text', m, c, v, d);
      v' := At(v, text', d);
    }
  }

  /** A member from its parts. */
  lemma MemberIsRead(text: Text, i: nat, a: nat, name: Parsed<Text>, j: nat, c: nat, v: Parsed<Value>, r: Parsed<Member>)
    requires i <= a <= |text| && Skip(text[i..]) == text[a..] && NameRead(text[a..], name)
    requires name.Malformed? ==> r == Malformed(name.at)
    requires name.Parsed? ==>
               && j <= |text| && Skip(name.rest) == text[j..] && (Peek(text, j) != COLON ==> r == Malformed(text[j..]))
               && (Peek(text, j) == COLON ==>
                     && c <= |text| && Skip(text[j + 1..]) == text[c..] && ValueRead(text[c..], v)
                     && r == if v.Malformed? then Malformed(v.at) else Parsed(Member(name.value, v.value), v.rest))
    ensures MemberRead(text[i..], r)
  {
    assert ParseString(text[a..]) == name;
    if name.Parsed? {
      if j < |text| { Next(text, j, 1); } else { Next(text, j, 0); }
      if Peek(text, j) == COLON { assert ParseValue(text[c..]) == v; }
    }
    assert ParseMember(text[i..]) == r;
  }

  lemma NameLocal(text: Text, text': Text, m: nat, a: nat, name: Parsed<Text>, b: nat)
    requires Same(text, text', m) && a <= b < m && b <= |text| && NameRead(text[a..], name) && End(name) == text[b..]
    requires if name.Parsed? then a < b else a == b && Head(text[a..]) != QUOTE
    ensures NameRead(text'[a..], At(name, text', b))
  {
    assert ParseString(text[a..]) == name;
    Alike(text, text', m, a);
    if name.Parsed? {
      Next(text, a, b - a);
      Next(text', a, b - a);
      StringLocal(text[a..], text'[a..], m - a, b - a);
    } else {
      NoName(text[a..], text'[a..]);
    }
    assert ParseString(text'[a..]) == At(name, text', b);
  }

  lemma NoName(s: Text, s': Text)
    requires ParseString(s).Malformed? && Head(s) != QUOTE && Head(s') == Head(s)
    ensures ParseString(s') == Malformed(s')
  {}

  lemma {:induction false} MembersLocal(text: Text, text': Text, m: nat, i: nat, r: Parsed<seq<Member>>, k: nat)
    requires Same(text, text', m) && i <= |text| && MembersRead(text[i..], r) && Stops(text, i, r, k, m)
    ensures MembersRead(text'[i..], At(r, text', k))
    decreases |text| - i, 3
  {
    var first, b, j, more := MembersPoints(text, i, r);
    FirstMember(text, i, r, first, b, j, more, k);
    MemberLocal(text, text', m, i, first, b);
    var more' := Malformed([]);
    if first.Parsed? { more' := MoreMembersLocal(text, text', m, b, j, more, k); }
    MembersAre(text', i, At(first, text', b), j, more', At(r, text', k));
  }

  lemma {:induction false} MoreMembersLocal(text: Text, text': Text, m: nat, b: nat, j: nat, more: Parsed<seq<Member>>, k: nat)
    returns (more': Parsed<seq<Member>>)
    requires Same(text, text', m) && b <= j <= |text| && j < m && Skip(text[b..]) == text[j..]
    requires Peek(text, j) == COMMA ==> j < |text| && MembersRead(text[j + 1..], more) && Stops(text, j + 1, more, k, m)
    ensures Skip(text'[b..]) == text'[j..] && Peek(text', j) == Peek(text, j)
    ensures Peek(text, j) == COMMA ==> k <= |text'| && more' == At(more, text', k) && MembersRead(text'[j + 1..], more')
    decreases |text| - j - 1, 4
  {
    BlanksAlike(text, text', m, b, j);
    more' := Malformed([]);
    if Peek(text, j) == COMMA {
      MembersLocal(text, text', m, j + 1, more, k);
      more' := At(more, text', k);
    }
  }

  lemma MembersAre(text: Text, i: nat, first: Parsed<Member>, j: nat, more: Parsed<seq<Member>>, r: Parsed<seq<Member>>)
    requires i <= |text| && MemberRead(text[i..], first)
    requires first.Malformed? ==> r == Malformed(first.at)
    requires first.Parsed? ==>
               && j <= |text| && Skip(first.rest) == text[j..] && (Peek(text, j) == COMMA ==> MembersRead(text[j + 1..], more))
               && r == if Peek(text, j) == COMMA then (if more.Parsed? then Parsed([first.value] + more.value, more.rest) else more)
                       else if Peek(text, j) == RBRACE then Parsed([first.value], text[j + 1..])
                       else Malformed(text[j..])
    ensures MembersRead(text[i..], r)
  {
    var r' := ReadMembers(text[i..]);
    if first.Malformed? {
      MembersCases(text[i..], r', first, [], more);
    } else {
      if j < |text| { Next(text, j, 1); } else { Next(text, j, 0); }
      MembersCases(text[i..], r', first, text[j..], more);
    }
  }

  lemma FirstMember(text: Text, i: nat, r: Parsed<seq<Member>>, first: Parsed<Member>, b: nat, j: nat, more: Parsed<seq<Member>>, k: nat)
    requires i <= b <= |text| && k <= |text| && End(r) == text[k..] && Settled(r) && End(first) == text[b..]
    requires first.Malformed? ==> r == Malformed(first.at)
    requires first.Parsed? ==>
               && b <= j <= |text| && Skip(text[b..]) == text[j..] && (j < |text| ==> MembersRead(text[j + 1..], more))
               && r == if Peek(text, j) == COMMA then (if more.Parsed? then Parsed([first.value] + more.value, more.rest) else more)
                       else if Peek(text, j) == RBRACE then Parsed([first.value], text[j + 1..])
                       else Malformed(text[j..])
    ensures b <= k && Settled(first)
    ensures first.Parsed? ==> j <= k && (Peek(text, j) == COMMA ==> j < k && Settled(more) && End(more) == text[k..])
  {
    if first.Malformed? {
      SameTail(text, b, k);
    } else {
      var c := if Peek(text, j) == RBRACE then j + 1 else j;
      if Peek(text, j) == COMMA { c := MembersStop(text, j + 1, more); }
      SameTail(text, c, k);
      SettledFirst(text, first, b, j, r);
    }
  }

  // ----- Up to there the text can go on -----------------------------------------------------

  lemma {:induction false} ValueGoesOn(s: Text, r: Parsed<Value>) returns (p: Text, t: Syntax, x: Text)
    requires ValueRead(s, r) && r.Malformed?
    ensures s == p + r.at && p + x == Render(t) && AllBlank(Gaps(t))
    decreases |s|, 1
  {
    if Head(s) == LBRACKET {
      var q := ArrayCases(s, r);
      var e, es;
      p, e, es, x := ItemsGoOn(s[1..], q);
      t := TArray(e, es);
      BlankElems(e, es);
      Before(LBRACKET, s, p, q.at, x);
      p := [LBRACKET] + p;
    } else if Head(s) == LBRACE {
      var q := ObjectCases(s, r);
      var f, fs;
      p, f, fs, x := MembersGoOn(s[1..], q);
      t := TObject(f, fs);
      BlankFields(f, fs);
      Before(LBRACE, s, p, q.at, x);
      p := [LBRACE] + p;
    } else {
      TokenFails(s, r);
      p, t, x := [], TNull, NULL_TEXT;
    }
  }

  lemma Before(open: Char, s: Text, p: Text, at: Text, x: Text)
    requires Head(s) == open && s[1..] == p + at
    ensures s == [open] + p + at && [open] + p + x == [open] + (p + x)
  {
    assert s == [open] + s[1..];
  }

  /** A token that is none is reported where it starts. */
  lemma TokenFails(s: Text, r: Parsed<Value>)
    requires ValueRead(s, r) && r.Malformed? && Head(s) != LBRACKET && Head(s) != LBRACE
    ensures r.at == s
  {
    if Head(s) == QUOTE {
      var q, b := NameStops(s, 0);
      assert s[0..] == s;
      StringCases(s, r, q);
    } else if Head(s) == MINUS || IsDigit(Head(s)) {
      var k := NumberStops(s, r);
    } else {
      OtherCases(s, r);
    }
  }

  lemma {:induction false} ItemsGoOn(s: Text, r: Parsed<seq<Value>>) returns (p: Text, e: Elem, es: seq<Elem>, x: Text)
    requires ItemsRead(s, r) && r.Malformed?
    ensures s == p + r.at && p + x == RenderElem(e) + RenderMore(es) && AllBlank(ElemGaps(e)) && ElemsBlank(es)
    decreases |s|, 3
  {
    var first := ReadValue(Skip(s));
    es := [];
    if first.Malformed? {
      ItemsCases(s, r, first, [], r);
      p, e, x := ElemGoesOn(s, first);
      Chain(p, x, [RBRACKET], RenderElem(e));
      x := x + [RBRACKET];
    } else {
      var s2 := Skip(first.rest);
      var more := ReadItems(s2[if s2 == [] then 0 else 1..]);
      ItemsCases(s, r, first, s2, more);
      if Head(s2) == COMMA {
        Shorter(s, first);
        e := ElemIs(s, first);
        var p', e', es', x' := ItemsGoOn(s2[1..], more);
        es := [e'] + es';
        RenderMoreCons(e', es');
        Joint(RenderElem(e), COMMA, s2, p', r.at, x');
        p, x := RenderElem(e) + ([COMMA] + p'), x';
      } else {
        p, e, x := ElemEnds(s, first);
        Chain(p, x, [RBRACKET], RenderElem(e));
        x := x + [RBRACKET];
      }
    }
  }

  lemma Shorter(s: Text, first: Parsed<Value>)
    requires ValueRead(Skip(s), first) && first.Parsed?
    ensures |Skip(first.rest)| < |s|
  {
    assert ParseValue(Skip(s)) == first;
  }

  lemma Chain(p: Text, x: Text, y: Text, z: Text)
    requires p + x == z
    ensures p + (x + y) == z + y
  {
    Assoc(p, x, y);
  }

  lemma Joint(z: Text, mark: Char, s2: Text, p: Text, at: Text, x: Text)
    requires Head(s2) == mark && s2[1..] == p + at
    ensures z + s2 == z + ([mark] + p) + at && z + ([mark] + p) + x == z + ([mark] + (p + x))
  {
    assert s2 == [mark] + s2[1..];
  }

  lemma {:induction false} ElemGoesOn(s: Text, v: Parsed<Value>) returns (p: Text, e: Elem, x: Text)
    requires ValueRead(Skip(s), v) && v.Malformed?
    ensures s == p + v.at && p + x == RenderElem(e) && AllBlank(ElemGaps(e))
    decreases |s|, 2
  {
    var before := SkippedIs(s);
    var p', t, x' := ValueGoesOn(Skip(s), v);
    e := Elem(before, t, []);
    p, x := GapsText(before) + p', x';
    Assoc(GapsText(before), p', v.at);
    Assoc(GapsText(before), p', x');
    assert Render(t) + [] == Render(t);
  }

  /** A value ends here, or its closing quote is missing. */
  lemma {:induction false} ElemEnds(s: Text, v: Parsed<Value>) returns (p: Text, e: Elem, x: Text)
    requires ValueRead(Skip(s), v) && v.Parsed?
    ensures s == p + Skip(v.rest) && p + x == RenderElem(e) && AllBlank(ElemGaps(e))
  {
    var before := SkippedIs(s);
    if Unterminated(Skip(s)) {
      OpenEnds(Skip(s), v);
      StringBranch(Skip(s), v);
      var ps := StringIs(Skip(s));
      e := Elem(before, TString(ps), []);
      p, x := s, [QUOTE];
      Assoc(GapsText(before), Skip(s), [QUOTE]);
      assert Quoted(ps) + [] == Quoted(ps);
    } else {
      var after := SkippedIs(v.rest);
      var t := ValueIs(Skip(s), v);
      e := Elem(before, t, after);
      Between(GapsText(before), Render(t), GapsText(after), Skip(v.rest));
      p, x := RenderElem(e), [];
    }
  }

  /** What stands behind a member's name. */
  function Behind(elem: Elem): Text {
    [COLON] + RenderElem(elem)
  }

  const NULL_ELEM := Elem([], TNull, [])

  /** A name ends here, or its closing quote is missing. */
  lemma {:induction false} NameEnds(s: Text, k: Parsed<Text>) returns (p: Text, key: seq<Piece>, gap: seq<Gap>, x: Text)
    requires NameRead(s, k) && k.Parsed?
    ensures s == p + Skip(k.rest) && p + x == Quoted(key) + GapsText(gap) && AllBlank(GapSet(gap)) && (Skip(k.rest) != [] ==> x == [])
  {
    assert ParseString(s) == k;
    key := StringIs(s);
    gap := SkippedIs(k.rest);
    if Unterminated(s) {
      p, gap, x := s, [], [QUOTE];
      assert Quoted(key) + [] == Quoted(key);
    } else {
      p, x := Quoted(key) + GapsText(gap), [];
      Assoc(Quoted(key), GapsText(gap), Skip(k.rest));
    }
  }

  lemma ReadName(s: Text) returns (k: Parsed<Text>)
    ensures NameRead(s, k) && (k.Malformed? ==> k.at == s)
  {
    k := ParseString(s);
  }

  /** A member up to the end of its name. */
  lemma NameOn(before: Text, p: Text, x: Text, key: Text, gap: Text, elem: Text)
    requires p + x == key + gap
    ensures before + p + (x + elem) == before + (key + (gap + elem))
  {
    Assoc(key, gap, elem);
    Assoc(p, x, elem);
    Assoc(before, p, x + elem);
  }

  /** And one up to somewhere in its value. */
  lemma ValueOn(before: Text, s: Text, name: Text, s1: Text, p: Text, at: Text, x: Text)
    requires s == name + s1 && Head(s1) == COLON && s1[1..] == p + at
    ensures before + s == before + (name + ([COLON] + p)) + at
    ensures before + (name + ([COLON] + p)) + x == before + (name + ([COLON] + (p + x)))
  {
    Joint(name, COLON, s1, p, at, x);
    Assoc(before, name + ([COLON] + p), at);
    Assoc(before, name + ([COLON] + p), x);
  }

  lemma {:induction false} MemberGoesOn(s: Text, r: Parsed<Member>) returns (p: Text, f: Field, x: Text)
    requires MemberRead(s, r) && r.Malformed?
    ensures s == p + r.at && p + x == RenderField(f) && AllBlank(FieldGaps(f))
    decreases |s|, 3
  {
    var before := SkippedIs(s);
    var k := ReadName(Skip(s));
    if k.Malformed? {
      MemberCases(s, r, k, [], Malformed([]));
      f := Field(before, [], [], NULL_ELEM);
      p, x := GapsText(before), Quoted([]) + (GapsText([]) + Behind(NULL_ELEM));
    } else {
      var s1 := Skip(k.rest);
      var v := ReadValue(Skip(s1[if s1 == [] then 0 else 1..]));
      MemberCases(s, r, k, s1, v);
      var p', key, gap, x' := NameEnds(Skip(s), k);
      if Head(s1) != COLON {
        f := Field(before, key, gap, NULL_ELEM);
        p, x := GapsText(before) + p', x' + Behind(NULL_ELEM);
        NameOn(GapsText(before), p', x', Quoted(key), GapsText(gap), Behind(NULL_ELEM));
        Assoc(GapsText(before), p', s1);
      } else {
        ColonShorter(s, r, s1);
        var q, e, y := ElemGoesOn(s1[1..], v);
        f, p, x := FieldFrom(s, before, key, gap, p', s1, q, e, y, r.at);
      }
    }
  }

  lemma ColonShorter(s: Text, r: Parsed<Member>, s1: Text)
    requires MemberRead(s, r) && ParseString(Skip(s)).Parsed? && s1 == Skip(ParseString(Skip(s)).rest)
    ensures |s1| < |s|
  {}

  lemma FieldFrom(s: Text, before: seq<Gap>, key: seq<Piece>, gap: seq<Gap>, name: Text, s1: Text, q: Text, e: Elem, y: Text, at: Text)
    returns (f: Field, p: Text, x: Text)
    requires s == GapsText(before) + (name + s1) && name == Quoted(key) + GapsText(gap) && Head(s1) == COLON
    requires s1[1..] == q + at && q + y == RenderElem(e)
    requires AllBlank(GapSet(before)) && AllBlank(GapSet(gap)) && AllBlank(ElemGaps(e))
    ensures s == p + at && p + x == RenderField(f) && AllBlank(FieldGaps(f)) && f == Field(before, key, gap, e)
  {
    f := Field(before, key, gap, e);
    p, x := GapsText(before) + (name + ([COLON] + q)), y;
    ValueOn(GapsText(before), name + s1, name, s1, q, at, y);
    Assoc(Quoted(key), GapsText(gap), Behind(e));
  }

  /** A member ends here, or the closing quote of its value is missing. */
  lemma {:induction false} MemberEnds(s: Text, r: Parsed<Member>) returns (p: Text, f: Field, x: Text)
    requires MemberRead(s, r) && r.Parsed?
    ensures s == p + Skip(r.rest) && p + x == RenderField(f) && AllBlank(FieldGaps(f))
  {
    var before := SkippedIs(s);
    var k, s1, v := MemberParts(s, r);
    NamedAs(Skip(s), k);
    var name, key, gap, x' := NameEnds(Skip(s), k);
    var q, e, y := ElemEnds(s1[1..], v);
    f, p, x := FieldFrom(s, before, key, gap, name, s1, q, e, y, Skip(r.rest));
  }

  lemma NamedAs(s: Text, k: Parsed<Text>)
    requires k == ParseString(s)
    ensures NameRead(s, k)
  {}

  lemma {:induction false} MembersGoOn(s: Text, r: Parsed<seq<Member>>) returns (p: Text, f: Field, fs: seq<Field>, x: Text)
    requires MembersRead(s, r) && r.Malformed?
    ensures s == p + r.at && p + x == RenderField(f) + RenderOthers(fs) && AllBlank(FieldGaps(f)) && FieldsBlank(fs)
    decreases |s|, 4
  {
    var first := ReadMember(s);
    fs := [];
    if first.Malformed? {
      MembersCases(s, r, first, [], r);
      p, f, x := MemberGoesOn(s, first);
      Chain(p, x, [RBRACE], RenderField(f));
      x := x + [RBRACE];
    } else {
      var s2 := Skip(first.rest);
      var more := ReadMembers(s2[if s2 == [] then 0 else 1..]);
      MembersCases(s, r, first, s2, more);
      if Head(s2) == COMMA {
        MemberShorter(s, first);
        f := MemberIs(s, first);
        var p', f', fs', x' := MembersGoOn(s2[1..], more);
        fs := [f'] + fs';
        RenderOthersCons(f', fs');
        Joint(RenderField(f), COMMA, s2, p', r.at, x');
        p, x := RenderField(f) + ([COMMA] + p'), x';
      } else {
        p, f, x := MemberEnds(s, first);
        Chain(p, x, [RBRACE], RenderField(f));
        x := x + [RBRACE];
      }
    }
  }

  lemma MemberShorter(s: Text, first: Parsed<Member>)
    requires MemberRead(s, first) && first.Parsed?
    ensures |Skip(first.rest)| < |s|
  {
    assert ParseMember(s) == first;
  }

  // ----- Where parsing fails --------------------------------------------------------------

  /** Some document starts with `p`. */
  ghost predicate StartsDocument(p: Text) {
    exists x, v :: IsDocument(p + x, v)
  }

  /** In front of the error a document could still come. */
  lemma FailsNoSooner(s: Text, toEnd: bool, at: Text) returns (p: Text)
    requires Parse(s, toEnd) == Malformed(at)
    ensures s == p + at && StartsDocument(p)
  {
    var lead := SkippedIs(s);
    var r := ReadValue(Skip(s));
    assert ParseValue(Skip(s)) == r;
    var e, x;
    if r.Malformed? {
      p, e, x := ElemGoesOn(s, r);
    } else {
      p, e, x := ElemEnds(s, r);
    }
    assert p + x == DocumentText(e.before, e.value, GapsText(e.after));
    assert StartsWithValue(p + x, Meaning(e.value), GapsText(e.after));
    assert IsDocument(p + x, Meaning(e.value));
  }

  /** The bytes that may start, or go on with, the token that is reported. */
  predicate TokenByte(c: byte) {
    c in [34, 46, 102, 110, 116]
  }

  /** With any other byte there, what follows makes no difference: parsing fails at the same place. */
  lemma FailsAlike(s: Text, toEnd: bool, p: Text, at: Text, s': Text)
    requires Parse(s, toEnd) == Malformed(at) && s == p + at && at != [] && !TokenByte(at[0])
    requires p + [at[0]] <= s'
    ensures Parse(s', toEnd) == Malformed(s'[|p|..])
  {
    var k := |p|;
    var m := k + 1;
    assert s[k..] == at && s[..m] == p + [at[0]] == s'[..m];
    assert s[0..] == s && s'[0..] == s';
    var a := SkippedTo(s, 0);
    var r := ReadValue(s[a..]);
    assert ParseValue(s[a..]) == r;
    var b := ValueStops(s, a, r);
    if r.Malformed? {
      SameTail(s, b, k);
      BlanksAlike(s, s', m, 0, a);
      ValueLocal(s, s', m, a, r, k);
      assert ParseValue(s'[a..]) == At(r, s', k);
    } else {
      var j := SkippedTo(s, b);
      SameTail(s, j, k);
      var failed: Parsed<Value> := Malformed(at);
      SettledFirst(s, r, b, j, failed);
      BlanksAlike(s, s', m, 0, a);
      ValueLocal(s, s', m, a, r, b);
      assert ParseValue(s'[a..]) == At(r, s', b);
      BlanksAlike(s, s', m, b, j);
    }
  }

  /**
   The text in front of the failure is the start of a document, and with the byte there it is
   not, unless that byte can start or go on with a token.
   */
  lemma FailurePosition(s: Text, toEnd: bool, at: Text) returns (p: Text)
    requires Parse(s, toEnd) == Malformed(at)
    ensures s == p + at && StartsDocument(p)
    ensures at != [] && !TokenByte(at[0]) ==> !StartsDocument(p + [at[0]])
  {
    p := FailsNoSooner(s, toEnd, at);
    if at != [] && !TokenByte(at[0]) { FailsForGood(s, toEnd, at, p); }
  }

  lemma FailsForGood(s: Text, toEnd: bool, at: Text, p: Text)
    requires Parse(s, toEnd) == Malformed(at) && s == p + at && at != [] && !TokenByte(at[0])
    ensures !StartsDocument(p + [at[0]])
  {
    if StartsDocument(p + [at[0]]) {
      var x, v :| IsDocument(p + [at[0]] + x, v);
      AcceptedIff(p + [at[0]] + x, v);
      ToEnd(s, toEnd, at);
      FailsAlike(s, true, p, at, p + [at[0]] + x);
    }
  }

  lemma ToEnd(s: Text, toEnd: bool, at: Text)
    requires Parse(s, toEnd) == Malformed(at)
    ensures Parse(s, true) == Malformed(at)
  {}

  /** Parsing fails at `at`, yet a document goes on with the byte there. */
  ghost predicate GoesOn(s: Text, at: Text) {
    Parse(s, true) == Malformed(at) && 0 < |at| <= |s| && StartsDocument(s[..|s| - |at| + 1])
  }

  /** Those bytes are excepted with reason. */
  lemma TokenByteInput(c: byte) returns (s: Text, at: Text)
    requires TokenByte(c)
    ensures at != [] && at[0] == c && GoesOn(s, at)
  {
    if c == 46 {
      PointReported();
      s, at := [49, 46], [46];
    } else if c == 34 {
      QuoteReported();
      s, at := [34, 92, 117], [34, 92, 117];
    } else {
      KeywordReported(c);
      s, at := [c], [c];
    }
  }

  lemma KeywordReported(c: byte)
    requires c in [102, 110, 116]
    ensures GoesOn([c], [c])
  {
    var s := [c];
    SkipTwice(s);
    var r := ReadValue(s);
    OtherCases(s, r);
    assert ParseValue(s) == r;
    if c == 102 { Starts(TFalse, s, FALSE_TEXT[1..]); }
    else if c == 110 { Starts(TNull, s, NULL_TEXT[1..]); }
    else { Starts(TTrue, s, TRUE_TEXT[1..]); }
    assert s[..1] == s;
  }

  /** A tree without blanks. */
  lemma Starts(t: Syntax, p: Text, x: Text)
    requires p + x == Render(t) && AllBlank(Gaps(t))
    ensures StartsDocument(p)
  {
    var lead: seq<Gap> := [];
    var s := p + x;
    Bare(t, s);
    assert StartsWithValue(s, Meaning(t), GapsText(lead));
    assert IsDocument(s, Meaning(t));
  }

  lemma Bare(t: Syntax, s: Text)
    requires s == Render(t)
    ensures s == DocumentText([], t, GapsText([]))
  {
    assert Render(t) + [] == Render(t);
  }

  /** The text `1.`. */
  lemma PointReported()
    ensures GoesOn([49, 46], [46])
  {
    var s := [49, 46];
    var r := ReadNumber(s);
    var a, q, whole, p := NumberPoints(s, r);
    assert s[0..] == s && s[1..] == [46];
    assert DigitCount(s) == 1 by { assert DigitCount(s[1..]) == 0; }
    assert p == 1;
    var n, x, used := FractionPoints(false, whole, s[1..], r);
    assert FractionLength([46]) == 0;
    assert x[0..] == x;
    assert r.rest == [46];
    SkipTwice(s);
    NumberBranch(s, ParseValue(s), r);
    var num := NumParts(false, [49], [53], NoExp);
    assert NumText(num) == s + [53];
    Starts(TNumber(num), s, [53]);
    assert s[..2] == s;
  }

  /** A string that is no string. */
  lemma QuoteReported()
    ensures GoesOn([34, 92, 117], [34, 92, 117])
  {
    Starts(TString([]), [34], [34]);
    var s := [34, 92, 117];
    assert s[1..] == [92, 117] && [92, 117][2..] == [];
    assert BodyLength(s[1..]) == 2;
    assert s[1..][..2] == s[1..];
    assert Decode(s[1..]) == None;
    var q := ReadName(s);
    assert q == ParseString(s);
    var r := ReadValue(s);
    StringCases(s, r, q);
    SkipTwice(s);
    assert ParseValue(s) == r;
    assert s[..1] == [34];
  }
}
