/**
 The CSV writer, the character-at-a-time CSV reader and the row loop of .import in the
 SQLite shell.
 */
module Csv {
  import opened Bytes

  type Stream = seq<byte>

  const EOF := -1

  /** A `char` as an int: bytes from 0x80 on are negative. */
  function Signed(b: byte): int {
    if b < 0x80 then b else b - 0x100
  }

  // ----- Fields as written ------------------------------------------------------------

  /** The table needCsvQuote. */
  predicate NeedCsvQuote(c: Char) {
    c <= SPACE || c == QUOTE || c == APOSTROPHE || c >= 127
  }

  /** Byte `i` makes output_csv quote the field; a longer separator is looked for at the front only. */
  predicate Special(z: Text, sep: Text, i: nat)
    requires i < |z|
  {
    NeedCsvQuote(z[i]) || (z[i] == Head(sep) && (|sep| == 1 || sep <= z))
  }

  predicate Plain(z: Text, sep: Text) {
    z != [] && forall i: nat | i < |z| :: !Special(z, sep, i)
  }

  function Doubled(z: Text): Text {
    if z == [] then [] else (if z[0] == QUOTE then [QUOTE, QUOTE] else [z[0]]) + Doubled(z[1..])
  }

  function FieldText(z: Text, sep: Text): Text {
    if Plain(z, sep) then z else [QUOTE] + Doubled(z) + [QUOTE]
  }

  /** The separator occurs in the field. */
  predicate Within(sep: Text, z: Text) {
    sep <= z || (z != [] && Within(sep, z[1..]))
  }

  predicate Listed(z: Text) {
    exists i | 0 <= i < |z| :: NeedCsvQuote(z[i])
  }

  lemma {:induction false} WithinHead(sep: Text, z: Text) returns (k: nat)
    requires sep != [] && Within(sep, z)
    ensures k < |z| && z[k] == sep[0]
  {
    if sep <= z {
      k := 0;
    } else {
      k := WithinHead(sep, z[1..]);
      k := k + 1;
    }
  }

  lemma {:induction false} DoubledLonger(z: Text)
    ensures |Doubled(z)| >= |z|
  {
    if z != [] { DoubledLonger(z[1..]); }
  }

  /** A field that holds the separator is written bare exactly where a long one is not at its front. */
  lemma {:induction false} BareIff(z: Text, sep: Text)
    requires sep != [] && Within(sep, z)
    ensures FieldText(z, sep) == z <==> |sep| > 1 && !(sep <= z) && !Listed(z)
  {
    DoubledLonger(z);
    var k := WithinHead(sep, z);
    if Plain(z, sep) {
      assert !Special(z, sep, k);
      forall i | 0 <= i < |z| ensures !NeedCsvQuote(z[i]) { assert !Special(z, sep, i); }
    }
  }

  /** With the separator `||`, `a||b` is written as it is: the reader of such a row sees two fields. */
  lemma BareInput()
    ensures var bar: Char, a: Char, b: Char := '|' as int, 'a' as int, 'b' as int;
            Within([bar, bar], [a, bar, bar, b]) && FieldText([a, bar, bar, b], [bar, bar]) == [a, bar, bar, b]
  {
    var bar: Char, a: Char, b: Char := '|' as int, 'a' as int, 'b' as int;
    var z: Text, sep: Text := [a, bar, bar, b], [bar, bar];
    assert z[0] != sep[0] && z[1..] == sep + [b];
    assert sep <= z[1..] && Within(sep, z[1..]);
    BareIff(z, sep);
  }

  // ----- Fields as read ---------------------------------------------------------------

  /** A field, the character that ended it, and the input behind that. */
  datatype Field = Field(text: Stream, term: int, rest: Stream)

  function Onto(acc: Stream, f: Field): Field {
    f.(text := acc + f.text)
  }

  /** Behind an opening quote: a quote is closing, doubled, or an unescaped part of the field. */
  function Quoted(s: Stream, sep: int, row: int): (f: Field)
    ensures |f.rest| <= |s| && (f.term == EOF ==> f.rest == []) && f.term >= EOF
    decreases |s|
  {
    if s == [] then Field([], EOF, [])
    else if s[0] != QUOTE then Onto([s[0]], Quoted(s[1..], sep, row))
    else if |s| == 1 then Field([], EOF, [])
    else if s[1] == QUOTE then Onto([QUOTE], Quoted(s[2..], sep, row))
    else if s[1] == sep || s[1] == row then Field([], s[1], s[2..])
    else if s[1] == CR && |s| > 2 && s[2] == row then Field([], s[2], s[3..])
    else Onto([QUOTE], Quoted(s[1..], sep, row))
  }

  predicate Ends(c: int, sep: int, row: int) {
    c == sep || c == row
  }

  /** The bytes before the first terminator. */
  function Run(s: Stream, sep: int, row: int): (n: nat)
    ensures n <= |s|
    ensures n < |s| ==> Ends(s[n], sep, row)
    ensures forall i | 0 <= i < n :: !Ends(s[i], sep, row)
  {
    if s == [] || Ends(s[0], sep, row) then 0 else 1 + Run(s[1..], sep, row)
  }

  function StripCr(z: Stream): Stream {
    if z != [] && z[|z| - 1] == CR then z[..|z| - 1] else z
  }

  function Unquoted(s: Stream, sep: int, row: int): (f: Field)
    ensures s != [] ==> |f.rest| < |s|
    ensures (f.term == EOF ==> f.rest == []) && f.term >= EOF
  {
    var n := Run(s, sep, row);
    if n == |s| then Field(s, EOF, [])
    else if s[n] == row then Field(StripCr(s[..n]), row, s[n + 1..])
    else Field(s[..n], s[n], s[n + 1..])
  }

  /** One field; none at the end of the input. */
  function ReadField(s: Stream, sep: int, row: int): (f: Option<Field>)
    ensures f.Some? <==> s != []
    ensures f.Some? ==> |f.value.rest| < |s| && (f.value.term == EOF ==> f.value.rest == []) && f.value.term >= EOF
  {
    if s == [] then None
    else if s[0] == QUOTE then Some(Quoted(s[1..], sep, row))
    else Some(Unquoted(s, sep, row))
  }

  // ----- The reader's state machine -----------------------------------------------------

  /** The last byte kept is a quote whose meaning is still open. */
  predicate QuoteOpen(pc: int) {
    pc == QUOTE
  }

  /** The last two bytes kept are such a quote and a carriage return. */
  predicate CrOpen(pc: int, ppc: int) {
    pc == CR && ppc == QUOTE
  }

  ghost predicate Consistent(pc: int, ppc: int, acc: Stream, sep: int, row: int) {
    && (QuoteOpen(pc) ==> acc != [] && acc[|acc| - 1] == QUOTE)
    && (CrOpen(pc, ppc) ==> |acc| > 1 && acc[|acc| - 2..] == [QUOTE, CR] && !Ends(CR, sep, row))
  }

  /** The field, given what has been kept of it, `pc` and `ppc`, and the rest of the input. */
  ghost function Pending(pc: int, ppc: int, acc: Stream, rest: Stream, sep: int, row: int): Field
    requires Consistent(pc, ppc, acc, sep, row)
  {
    if QuoteOpen(pc) then Onto(acc[..|acc| - 1], Quoted([QUOTE] + rest, sep, row))
    else if CrOpen(pc, ppc) then Onto(acc[..|acc| - 2], Quoted([QUOTE, CR] + rest, sep, row))
    else Onto(acc, Quoted(rest, sep, row))
  }

  /** The test that ends a quoted field. */
  predicate Closes(c: int, pc: int, ppc: int, sep: int, row: int) {
    (c == sep && pc == QUOTE) || (c == row && pc == QUOTE) || (c == row && pc == CR && ppc == QUOTE) || (c == EOF && pc == QUOTE)
  }

  /** `do{ p->n--; }while( p->z[p->n]!=cQuote )` cuts this much. */
  function Kept(pc: int, acc: Stream): Stream
    requires |acc| >= if pc == QUOTE then 1 else 2
  {
    if pc == QUOTE then acc[..|acc| - 1] else acc[..|acc| - 2]
  }

  lemma LastTwo(acc: Stream)
    requires |acc| > 1 && acc[|acc| - 2..] == [QUOTE, CR]
    ensures acc[|acc| - 2] == QUOTE && acc[|acc| - 1] == CR
  {
    assert acc[|acc| - 2..][0] == acc[|acc| - 2] && acc[|acc| - 2..][1] == acc[|acc| - 1];
  }

  lemma DoubledQuote(ppc: int, acc: Stream, rest: Stream, sep: int, row: int)
    requires Consistent(QUOTE, ppc, acc, sep, row) && rest != [] && rest[0] == QUOTE
    ensures Pending(QUOTE, ppc, acc, rest, sep, row) == Pending(0, ppc, acc, rest[1..], sep, row)
  {
    var s := [QUOTE] + rest;
    assert s[2..] == rest[1..] && acc == acc[..|acc| - 1] + [QUOTE];
  }

  lemma Closing(pc: int, ppc: int, acc: Stream, rest: Stream, sep: int, row: int)
    requires Consistent(pc, ppc, acc, sep, row) && rest != [] && !(rest[0] == QUOTE && pc == QUOTE)
    requires Closes(rest[0], pc, ppc, sep, row)
    ensures |acc| >= (if pc == QUOTE then 1 else 2)
    ensures Pending(pc, ppc, acc, rest, sep, row) == Field(Kept(pc, acc), rest[0], rest[1..])
  {
    if pc == QUOTE {
      var s := [QUOTE] + rest;
      assert s[1] == rest[0] && s[2..] == rest[1..];
      assert acc[..|acc| - 1] + [] == acc[..|acc| - 1];
    } else {
      var s := [QUOTE, CR] + rest;
      assert s[2] == rest[0] && s[3..] == rest[1..];
      assert acc[..|acc| - 2] + [] == acc[..|acc| - 2];
    }
  }

  lemma AtEnd(pc: int, ppc: int, acc: Stream, sep: int, row: int)
    requires Consistent(pc, ppc, acc, sep, row)
    ensures pc == QUOTE ==> Pending(pc, ppc, acc, [], sep, row) == Field(Kept(pc, acc), EOF, [])
    ensures pc != QUOTE ==> Pending(pc, ppc, acc, [], sep, row) == Field(acc, EOF, [])
  {
    if pc == QUOTE {
      assert [QUOTE] + [] == [QUOTE];
      assert acc[..|acc| - 1] + [] == acc[..|acc| - 1];
    } else if CrOpen(pc, ppc) {
      var s := [QUOTE, CR];
      assert s + [] == s && s[1..] == [CR] && [CR][1..] == [];
      assert Quoted([CR], sep, row) == Field([CR] + [], EOF, []);
      assert Quoted(s, sep, row) == Field([QUOTE] + ([CR] + []), EOF, []);
      assert acc == acc[..|acc| - 2] + [QUOTE, CR];
    } else {
      assert acc + [] == acc;
    }
  }

  /** A byte that neither doubles a quote nor ends the field is kept. */
  lemma Keeping(pc: int, ppc: int, acc: Stream, rest: Stream, sep: int, row: int)
    requires Consistent(pc, ppc, acc, sep, row) && rest != [] && !(rest[0] == QUOTE && pc == QUOTE)
    requires !Closes(rest[0], pc, ppc, sep, row)
    ensures Consistent(rest[0], pc, acc + [rest[0]], sep, row)
    ensures Pending(pc, ppc, acc, rest, sep, row) == Pending(rest[0], pc, acc + [rest[0]], rest[1..], sep, row)
  {
    var c, more := rest[0], acc + [rest[0]];
    assert rest == [c] + rest[1..];
    assert more[..|more| - 1] == acc;
    if QuoteOpen(pc) {
      var s, head := [QUOTE] + rest, acc[..|acc| - 1];
      assert acc == head + [QUOTE];
      if c == CR {
        assert more[|more| - 2..] == [QUOTE, CR] && more[..|more| - 2] == head && [QUOTE, CR] + rest[1..] == s;
      } else {
        StaysOpen(rest, sep, row);
        KeepOne(head, [QUOTE], rest, sep, row);
      }
    } else if CrOpen(pc, ppc) {
      var s, head := [QUOTE, CR] + rest, acc[..|acc| - 2];
      assert acc == head + [QUOTE, CR];
      assert s[1..] == [CR] + rest && s[1] == CR && s[2] == c && ([CR] + rest)[1..] == rest;
      assert Quoted(s, sep, row) == Onto([QUOTE], Quoted([CR] + rest, sep, row));
      assert Quoted([CR] + rest, sep, row) == Onto([CR], Quoted(rest, sep, row));
      assert [QUOTE] + [CR] == [QUOTE, CR];
      OntoOnto([QUOTE], [CR], Quoted(rest, sep, row));
      if c == QUOTE { OntoOnto(head, [QUOTE, CR], Quoted(rest, sep, row)); }
      else { KeepOne(head, [QUOTE, CR], rest, sep, row); }
    } else if c != QUOTE {
      OntoOnto(acc, [c], Quoted(rest[1..], sep, row));
    }
  }

  lemma StaysOpen(rest: Stream, sep: int, row: int)
    requires rest != [] && rest[0] != QUOTE && !Ends(rest[0], sep, row) && rest[0] != CR
    ensures Quoted([QUOTE] + rest, sep, row) == Onto([QUOTE], Quoted(rest, sep, row))
  {
    var s := [QUOTE] + rest;
    assert s[1..] == rest && s[1] == rest[0];
  }

  lemma OntoOnto(a: Stream, b: Stream, f: Field)
    ensures Onto(a, Onto(b, f)) == Onto(a + b, f)
  {
    assert a + (b + f.text) == a + b + f.text;
  }

  lemma KeepOne(head: Stream, open: Stream, rest: Stream, sep: int, row: int)
    requires rest != [] && rest[0] != QUOTE
    ensures Onto(head, Onto(open, Quoted(rest, sep, row))) == Onto(head + open + [rest[0]], Quoted(rest[1..], sep, row))
  {
    OntoOnto(head, open, Quoted(rest, sep, row));
    OntoOnto(head + open, [rest[0]], Quoted(rest[1..], sep, row));
  }

  // ----- The reader -----------------------------------------------------------------------

  /** How often the row separator has been read: the line counter. */
  function Count(s: Stream, c: int): nat {
    if s == [] then 0 else Count(s[..|s| - 1], c) + if s[|s| - 1] == c then 1 else 0
  }

  class ImportCtx {
    const input: Stream
    var pos: nat
    var z: array<byte>
    var n: nat
    var nAlloc: nat
    var nLine: nat
    var cTerm: int
    const cColSep: int
    const cRowSep: int

    ghost predicate Valid()
      reads this, z
    {
      pos <= |input| && z.Length == nAlloc && n < nAlloc && cColSep != EOF && cRowSep != EOF
    }

    ghost function Contents(): Stream
      reads this, z
      requires n <= z.Length
    {
      z[..n]
    }

    ghost function Left(): Stream
      reads this
      requires pos <= |input|
    {
      input[pos..]
    }

    /** A context at the start of the input; the first append makes sure that z is allocated. */
    constructor (input: Stream, colSep: byte, rowSep: byte)
      requires colSep != 0xFF && rowSep != 0xFF
      ensures Valid() && Left() == input && this.input == input && fresh(z)
      ensures cColSep == Signed(colSep) && cRowSep == Signed(rowSep)
    {
      this.input := input;
      cColSep, cRowSep := Signed(colSep), Signed(rowSep);
      pos, n, nAlloc, nLine, cTerm := 0, 0, 0, 1, 0;
      z := new byte[0];
      new;
      AppendChar(0);
    }

    /** import_append_char */
    method AppendChar(c: byte)
      requires pos <= |input| && z.Length == nAlloc && (n < nAlloc || n == nAlloc == 0) && cColSep != EOF && cRowSep != EOF
      modifies this`n, this`nAlloc, this`z, z
      ensures Valid() && Contents() == old(z[..n]) + [c] && (z == old(z) || fresh(z))
    {
      if n + 1 >= nAlloc {
        nAlloc := nAlloc + nAlloc + 100;
        var bigger := new byte[nAlloc];
        var i := 0;
        while i < n
          invariant i <= n && bigger[..i] == z[..i]
          modifies bigger
        {
          bigger[i] := z[i];
          i := i + 1;
        }
        z := bigger;
      }
      z[n] := c;
      n := n + 1;
      assert z[..n] == z[..n - 1] + [z[n - 1]];
    }

    /** fgetc */
    method GetC() returns (c: int)
      requires pos <= |input|
      modifies this`pos
      ensures old(pos) == |input| ==> c == EOF && pos == old(pos)
      ensures old(pos) < |input| ==> c == input[old(pos)] && pos == old(pos) + 1
    {
      c := EOF;
      if pos < |input| {
        c := input[pos];
        pos := pos + 1;
      }
    }

    /** The quoted branch: `pc` and `ppc` are the last two bytes kept, but 0 after a doubled quote. */
    method ReadQuoted(ghost at: nat)
      requires Valid() && n == 0 && at <= pos
      modifies this`pos, this`z, this`n, this`nAlloc, this`nLine, this`cTerm, z
      ensures Valid() && (z == old(z) || fresh(z)) && old(pos) <= pos
      ensures Field(Contents(), cTerm, Left()) == Quoted(old(Left()), cColSep, cRowSep)
      ensures nLine == old(nLine) + Count(input[at..pos], cRowSep) - Count(input[at..old(pos)], cRowSep)
    {
      var pc, ppc := 0, 0;
      ghost var f := Quoted(Left(), cColSep, cRowSep);
      assert z[..n] == [] && Onto([], f) == f by { assert [] + f.text == f.text; }
      var more := true;
      while more
        invariant Valid() && (z == old(z) || fresh(z)) && old(pos) <= pos && at <= pos
        invariant more ==> Open(pc, ppc, f)
        invariant !more ==> Field(Contents(), cTerm, Left()) == f
        invariant nLine == old(nLine) + Count(input[at..pos], cRowSep) - Count(input[at..old(pos)], cRowSep)
        decreases more, |input| - pos
      {
        more, pc, ppc := Turn(pc, ppc, at, f);
      }
    }

    ghost predicate Open(pc: int, ppc: int, f: Field)
      reads this, z
      requires Valid()
    {
      Opened(pc, ppc, Left(), f)
    }

    /** One turn of the loop. */
    method Turn(pc: int, ppc: int, ghost at: nat, ghost f: Field) returns (more: bool, pc': int, ppc': int)
      requires Valid() && Open(pc, ppc, f) && at <= pos
      modifies this`pos, this`z, this`n, this`nAlloc, this`nLine, this`cTerm, z
      ensures Valid() && (z == old(z) || fresh(z)) && old(pos) <= pos
      ensures more ==> Open(pc', ppc', f) && old(pos) < pos
      ensures !more ==> Field(Contents(), cTerm, Left()) == f
      ensures nLine == old(nLine) + Count(input[at..pos], cRowSep) - Count(input[at..old(pos)], cRowSep)
    {
      ghost var rest := Left();
      more, pc', ppc' := true, pc, ppc;
      var c := Fetch(at);
      if c == QUOTE && pc == QUOTE {
        DoubledQuote(ppc, Contents(), rest, cColSep, cRowSep);
        pc' := 0;
      } else if Closes(c, pc, ppc, cColSep, cRowSep) {
        Close(c, pc, ppc, rest, f);
        more := false;
      } else if c == EOF {
        AtEnd(pc, ppc, Contents(), cColSep, cRowSep);
        cTerm := c;
        more := false;
      } else {
        Keep(c, pc, ppc, rest, f);
        pc', ppc' := c, pc;
      }
    }

    /** The next character, counted if it ends a line. */
    method Fetch(ghost at: nat) returns (c: int)
      requires Valid() && at <= pos
      modifies this`pos, this`nLine
      ensures Valid() && old(pos) <= pos && After(c, old(Left())) && (c != EOF ==> old(pos) < pos)
      ensures nLine == old(nLine) + Count(input[at..pos], cRowSep) - Count(input[at..old(pos)], cRowSep)
    {
      ghost var rest := Left();
      c := GetC();
      if rest != [] {
        assert rest[1..] == input[pos..];
        CountNext(input, at, pos - 1, cRowSep);
      } else {
        assert input[pos..] == [];
      }
      if c == cRowSep { nLine := nLine + 1; }
    }

    /** `c` has been read from `rest`. */
    ghost predicate After(c: int, rest: Stream)
      reads this
      requires pos <= |input|
    {
      if rest == [] then c == EOF && Left() == [] else c == rest[0] && Left() == rest[1..]
    }

    ghost predicate Opened(pc: int, ppc: int, rest: Stream, f: Field)
      reads this, z
      requires Valid()
    {
      Consistent(pc, ppc, z[..n], cColSep, cRowSep) && Pending(pc, ppc, z[..n], rest, cColSep, cRowSep) == f
    }

    method Close(c: int, pc: int, ghost ppc: int, ghost rest: Stream, ghost f: Field)
      requires Valid() && After(c, rest) && Opened(pc, ppc, rest, f)
      requires Closes(c, pc, ppc, cColSep, cRowSep) && !(c == QUOTE && pc == QUOTE)
      modifies this`n, this`cTerm
      ensures Valid() && Field(Contents(), cTerm, Left()) == f
    {
      if rest == [] { AtEnd(pc, ppc, z[..n], cColSep, cRowSep); } else { Closing(pc, ppc, z[..n], rest, cColSep, cRowSep); }
      Trim(pc, ppc);
      cTerm := c;
    }

    method Keep(c: int, pc: int, ghost ppc: int, ghost rest: Stream, ghost f: Field)
      requires Valid() && After(c, rest) && Opened(pc, ppc, rest, f) && c != EOF
      requires !Closes(c, pc, ppc, cColSep, cRowSep) && !(c == QUOTE && pc == QUOTE)
      modifies this`z, this`n, this`nAlloc, z
      ensures Valid() && (z == old(z) || fresh(z)) && Open(c, pc, f)
    {
      Keeping(pc, ppc, z[..n], rest, cColSep, cRowSep);
      AppendChar(c);
    }

    /** Back to the closing quote. */
    method Trim(pc: int, ghost ppc: int)
      requires Valid() && Consistent(pc, ppc, z[..n], cColSep, cRowSep) && (QuoteOpen(pc) || CrOpen(pc, ppc))
      modifies this`n
      ensures Valid() && z[..n] == Kept(pc, old(z[..n]))
    {
      ghost var acc, m := z[..n], n;
      if pc != QUOTE { LastTwo(acc); }
      assert z[m - 1] == acc[m - 1] && (pc != QUOTE ==> z[m - 2] == acc[m - 2]);
      n := n - 1;
      while z[n] != QUOTE
        invariant Valid() && (n == m - 1 || (pc != QUOTE && n == m - 2))
        decreases n
      {
        n := n - 1;
      }
      assert z[..n] == acc[..n];
    }

    method ReadUnquoted(first: int, ghost at: nat)
      requires Valid() && n == 0 && at + 1 == pos && first == input[at] != QUOTE
      modifies this`pos, this`z, this`n, this`nAlloc, this`nLine, this`cTerm, z
      ensures Valid() && (z == old(z) || fresh(z))
      ensures Field(Contents(), cTerm, Left()) == Unquoted(input[at..], cColSep, cRowSep)
      ensures at <= pos && nLine == old(nLine) + Count(input[at..pos], cRowSep)
    {
      ghost var s := input[at..];
      var c := ReadRun(first, at, s);
      EndRun(c);
      UnquotedIs(s, cColSep, cRowSep);
    }

    /** What is done with the terminator. */
    method EndRun(c: int)
      requires Valid()
      modifies this`n, this`nLine, this`cTerm
      ensures Valid() && Contents() == (if c == cRowSep then StripCr(old(Contents())) else old(Contents()))
      ensures cTerm == c && nLine == old(nLine) + if c == cRowSep then 1 else 0
    {
      if c == cRowSep {
        nLine := nLine + 1;
        DropCr();
      }
      cTerm := c;
    }

    method DropCr()
      requires Valid()
      modifies this`n
      ensures Valid() && Contents() == StripCr(old(Contents()))
    {
      assert n > 0 ==> z[..n][n - 1] == z[n - 1];
      if n > 0 && z[n - 1] == CR {
        n := n - 1;
        assert z[..n] == z[..n + 1][..n];
      }
    }

    /** The bytes before the terminator; it is returned. */
    method ReadRun(first: int, ghost at: nat, ghost s: Stream) returns (c: int)
      requires Valid() && n == 0 && at + 1 == pos && first == input[at] && s == input[at..]
      modifies this`pos, this`z, this`n, this`nAlloc, z
      ensures Valid() && (z == old(z) || fresh(z))
      ensures var k := Run(s, cColSep, cRowSep);
              && Contents() == s[..k] && c == (if k < |s| then s[k] else EOF)
              && Left() == if k < |s| then s[k + 1..] else []
      ensures at <= pos && Count(input[at..pos], cRowSep) == if c == cRowSep then 1 else 0
    {
      ghost var i;
      c, i := RunLoop(first, at, s);
      RunIs(s, cColSep, cRowSep, i);
      RunEnd(input, at, i, cRowSep);
    }

    method RunLoop(first: int, ghost at: nat, ghost s: Stream) returns (c: int, ghost i: nat)
      requires Valid() && n == 0 && at + 1 == pos && first == input[at] && s == input[at..]
      modifies this`pos, this`z, this`n, this`nAlloc, z
      ensures Valid() && (z == old(z) || fresh(z)) && i <= |s| && Contents() == s[..i]
      ensures c == (if i < |s| then s[i] else EOF) && pos == at + i + if i < |s| then 1 else 0
      ensures (i < |s| ==> Ends(s[i], cColSep, cRowSep)) && forall j | 0 <= j < i :: !Ends(s[j], cColSep, cRowSep)
    {
      c, i := first, 0;
      assert s[..0] == [];
      while c != EOF && c != cColSep && c != cRowSep
        invariant Valid() && (z == old(z) || fresh(z)) && i <= |s| && z[..n] == s[..i]
        invariant c == (if i < |s| then s[i] else EOF) && pos == at + i + if i < |s| then 1 else 0
        invariant forall j | 0 <= j < i :: !Ends(s[j], cColSep, cRowSep)
        decreases |s| - i
      {
        AppendChar(c);
        assert s[..i + 1] == s[..i] + [s[i]];
        c := GetC();
        i := i + 1;
      }
    }

    /** csv_read_one_field; false at the end of the input. */
    method ReadOneField() returns (some: bool)
      requires Valid()
      modifies this`pos, this`z, this`n, this`nAlloc, this`nLine, this`cTerm, z
      ensures Valid() && (z == old(z) || fresh(z))
      ensures some == ReadField(old(Left()), cColSep, cRowSep).Some?
      ensures !some ==> cTerm == EOF && pos == old(pos)
      ensures some ==>
                var f := ReadField(old(Left()), cColSep, cRowSep).value;
                Contents() == f.text && z[n] == 0 && cTerm == f.term && Left() == f.rest
      ensures cRowSep != QUOTE ==> nLine == old(nLine) + Count(input[old(pos)..pos], cRowSep)
    {
      n := 0;
      ghost var at := pos;
      var c := GetC();
      if c == EOF {
        cTerm := EOF;
        return false;
      }
      assert input[at..pos] == [c];
      if c == QUOTE {
        assert input[at..][1..] == input[pos..];
        OneByte(c, cRowSep);
        ReadQuoted(at);
      } else {
        ReadUnquoted(c, at);
      }
      z[n] := 0;
      some := true;
    }

    /** One round of the import loop; the count of columns is less than all only at the end of the input. */
    method ReadRow(bound: array<Cell>) returns (i: nat)
      requires Valid() && bound.Length > 0
      modifies this`pos, this`z, this`n, this`nAlloc, this`nLine, this`cTerm, z, bound
      ensures Valid() && (z == old(z) || fresh(z))
      ensures old(Left()) == [] ==> i == 0 && cTerm == EOF && Left() == []
      ensures old(Left()) != [] ==>
                var r := ReadCells(old(Left()), bound.Length, cColSep, cRowSep);
                && i >= bound.Length && bound[..] == Padded(r.cells, bound.Length)
                && cTerm == SkipExtras(r.term, r.rest, cColSep, cRowSep).0
                && Left() == SkipExtras(r.term, r.rest, cColSep, cRowSep).1
    {
      ghost var whole := ReadCells(Left(), bound.Length, cColSep, cRowSep);
      CellsBegin(Left(), bound.Length, cColSep, cRowSep, whole);
      i := BindFields(bound, whole);
      if cTerm == cColSep { i := ReadExtras(i); }
    }

    method ReadExtras(first: nat) returns (i: nat)
      requires Valid() && cTerm == cColSep
      modifies this`pos, this`z, this`n, this`nAlloc, this`nLine, this`cTerm, z
      ensures Valid() && (z == old(z) || fresh(z)) && i >= first
      ensures cTerm == SkipExtras(cColSep, old(Left()), cColSep, cRowSep).0
      ensures Left() == SkipExtras(cColSep, old(Left()), cColSep, cRowSep).1
    {
      i := first;
      ghost var s := Left();
      while cTerm == cColSep
        invariant Valid() && (z == old(z) || fresh(z)) && i >= first
        invariant SkipExtras(cTerm, Left(), cColSep, cRowSep) == SkipExtras(cColSep, s, cColSep, cRowSep)
        invariant cTerm == EOF ==> Left() == []
        decreases |input| - pos, if cTerm == EOF then 0 else 1
      {
        ghost var left := Left();
        var some := ReadOneField();
        i := i + 1;
      }
    }

    /** The column loop: text for each field found, NULL for the columns that are missing. */
    method BindFields(bound: array<Cell>, ghost whole: Cells) returns (i: nat)
      requires Valid() && bound.Length > 0 && CellsAre([], Left(), bound.Length, cColSep, cRowSep, whole)
      modifies this`pos, this`z, this`n, this`nAlloc, this`nLine, this`cTerm, z, bound
      ensures Valid() && (z == old(z) || fresh(z))
      ensures old(Left()) == [] ==> i == 0 && cTerm == EOF && Left() == []
      ensures old(Left()) != [] ==>
                && i >= bound.Length && |whole.cells| <= bound.Length && bound[..] == Padded(whole.cells, bound.Length)
                && cTerm == whole.term && Left() == whole.rest
    {
      i := 0;
      var nCol, stop := bound.Length, false;
      ghost var s := Left();
      ghost var done: seq<Cell> := [];
      while i < nCol && !stop
        invariant Valid() && (z == old(z) || fresh(z))
        invariant stop ==> s == [] && i == 0 && cTerm == EOF && Left() == []
        invariant !stop && i < nCol ==>
                    |done| == i && bound[..i] == done && CellsAre(done, Left(), nCol - i, cColSep, cRowSep, whole)
        invariant !stop && i >= nCol ==>
                    |whole.cells| <= nCol && bound[..] == Padded(whole.cells, nCol) && cTerm == whole.term && Left() == whole.rest
        invariant !stop && i == 0 ==> Left() == s
        invariant !stop && i > 0 ==> s != []
        decreases nCol - i, if stop then 0 else 1
      {
        stop, i, done := BindField(bound, i, done, whole);
      }
    }

    /** The next field as it will be bound; NULL if there is none. */
    method NextCell(ghost k: nat, ghost done: seq<Cell>, ghost whole: Cells) returns (cell: Cell, ghost done': seq<Cell>)
      requires Valid() && k > 0 && CellsAre(done, Left(), k, cColSep, cRowSep, whole)
      modifies this`pos, this`z, this`n, this`nAlloc, this`nLine, this`cTerm, z
      ensures Valid() && (z == old(z) || fresh(z))
      ensures (cell == None) == (old(Left()) == []) && done' == done + [cell]
      ensures cell == None ==> cTerm == EOF && Left() == []
      ensures if k > 1 && cTerm == cColSep then CellsAre(done', Left(), k - 1, cColSep, cRowSep, whole)
              else whole == Cells(done', cTerm, Left())
    {
      CellsStep(done, Left(), k, cColSep, cRowSep, whole);
      var some := ReadOneField();
      cell := if some then Some(UpToNul(z[..n])) else None;
      done' := done + [cell];
    }

    /** One turn of it. */
    method BindField(bound: array<Cell>, i: nat, ghost done: seq<Cell>, ghost whole: Cells)
      returns (stop: bool, i': nat, ghost done': seq<Cell>)
      requires Valid() && i < bound.Length && |done| == i && bound[..i] == done
      requires CellsAre(done, Left(), bound.Length - i, cColSep, cRowSep, whole)
      modifies this`pos, this`z, this`n, this`nAlloc, this`nLine, this`cTerm, z, bound
      ensures Valid() && (z == old(z) || fresh(z))
      ensures stop == (old(Left()) == [] && i == 0)
      ensures stop ==> i' == 0 && cTerm == EOF && Left() == []
      ensures !stop ==> i < i'
      ensures !stop && i' < bound.Length ==>
                && |done'| == i' && bound[..i'] == done'
                && CellsAre(done', Left(), bound.Length - i', cColSep, cRowSep, whole)
      ensures !stop && i' >= bound.Length ==>
                |whole.cells| <= bound.Length && bound[..] == Padded(whole.cells, bound.Length) && cTerm == whole.term && Left() == whole.rest
    {
      var cell;
      cell, done' := NextCell(bound.Length - i, done, whole);
      if cell == None && i == 0 { return true, 0, done; }
      stop := false;
      bound[i] := cell;
      assert bound[..i + 1] == bound[..i] + [cell];
      i' := i + 1;
      if i' == bound.Length {
        PaddedFull(bound[..], done');
      } else if cTerm != cColSep {
        FillNull(bound, i', done');
        i' := bound.Length + 2;
      }
    }
  }

  /** The remaining columns are bound to NULL. */
  method FillNull(bound: array<Cell>, at: nat, ghost done: seq<Cell>)
    requires at <= bound.Length && bound[..at] == done
    modifies bound
    ensures bound[..] == Padded(done, bound.Length)
  {
    var i := at;
    while i < bound.Length
      invariant at <= i <= bound.Length && bound[..at] == done
      invariant forall j | at <= j < i :: bound[j] == None
    {
      bound[i] := None;
      i := i + 1;
    }
    assert bound[..] == bound[..at] + bound[at..];
  }

  lemma PaddedFull(all: seq<Cell>, done: seq<Cell>)
    requires all[..|all|] == done
    ensures all == Padded(done, |done|)
  {}

  function AddCells(done: seq<Cell>, r: Cells): Cells {
    r.(cells := done + r.cells)
  }

  /** With `done` read so far, what is left to read makes it `whole`; the trigger keeps the function folded. */
  ghost predicate CellsAre(done: seq<Cell>, left: Stream, k: nat, sep: int, row: int, whole: Cells) {
    k > 0 ==> forall s {:trigger ReadCells(s, k, sep, row)} :: s == left ==> AddCells(done, ReadCells(s, k, sep, row)) == whole
  }

  lemma CellsBegin(s: Stream, k: nat, sep: int, row: int, whole: Cells)
    requires k > 0 && whole == ReadCells(s, k, sep, row)
    ensures CellsAre([], s, k, sep, row, whole)
  {
    assert [] + whole.cells == whole.cells;
  }

  /** The cell a field gives, and what is left to read. */
  lemma CellsStep(done: seq<Cell>, s: Stream, k: nat, sep: int, row: int, whole: Cells)
    requires k > 0 && CellsAre(done, s, k, sep, row, whole)
    ensures var f := ReadField(s, sep, row);
            if f.None? then whole == Cells(done + [None], EOF, [])
            else
              var more := done + [Some(UpToNul(f.value.text))];
              if k > 1 && f.value.term == sep then CellsAre(more, f.value.rest, k - 1, sep, row, whole)
              else whole == Cells(more, f.value.term, f.value.rest)
  {
    assert AddCells(done, ReadCells(s, k, sep, row)) == whole;
    var f := ReadField(s, sep, row);
    if f.Some? && k > 1 && f.value.term == sep {
      var cell := Some(UpToNul(f.value.text));
      var r := ReadCells(f.value.rest, k - 1, sep, row);
      assert done + ([cell] + r.cells) == done + [cell] + r.cells;
    }
  }

  /** With `table` inserted so far, what is left to read makes it `whole`. */
  ghost predicate RowsAre(table: seq<seq<Cell>>, left: Stream, nCol: nat, sep: int, row: int, whole: seq<seq<Cell>>) {
    nCol > 0 ==> forall s {:trigger Rows(s, nCol, sep, row)} :: s == left ==> table + Rows(s, nCol, sep, row) == whole
  }

  lemma RowsTurn(table: seq<seq<Cell>>, s: Stream, nCol: nat, sep: int, row: int, whole: seq<seq<Cell>>)
    requires nCol > 0 && sep != EOF && RowsAre(table, s, nCol, sep, row, whole)
    ensures s != [] ==>
              var r := ReadCells(s, nCol, sep, row);
              var x := SkipExtras(r.term, r.rest, sep, row);
              && RowsAre(table + [Padded(r.cells, nCol)], x.1, nCol, sep, row, whole)
              && |x.1| < |s| && (x.0 == EOF ==> x.1 == [])
  {
    if s != [] {
      assert table + Rows(s, nCol, sep, row) == whole;
      var r := ReadCells(s, nCol, sep, row);
      var more := Rows(SkipExtras(r.term, r.rest, sep, row).1, nCol, sep, row);
      assert table + ([Padded(r.cells, nCol)] + more) == table + [Padded(r.cells, nCol)] + more;
    }
  }

  lemma RowsEnd(table: seq<seq<Cell>>, nCol: nat, sep: int, row: int, whole: seq<seq<Cell>>)
    requires nCol > 0 && RowsAre(table, [], nCol, sep, row, whole)
    ensures table == whole
  {
    assert table + Rows([], nCol, sep, row) == whole;
  }

  /** The loop of .import: every round with a row inserts what has been bound. */
  method Import(ctx: ImportCtx, nCol: nat) returns (table: seq<seq<Cell>>)
    requires ctx.Valid() && nCol > 0
    modifies ctx`pos, ctx`z, ctx`n, ctx`nAlloc, ctx`nLine, ctx`cTerm, ctx.z
    ensures table == Rows(old(ctx.Left()), nCol, ctx.cColSep, ctx.cRowSep)
  {
    var bound := new Cell[nCol](_ => None);
    ghost var whole := Rows(ctx.Left(), nCol, ctx.cColSep, ctx.cRowSep);
    table := [];
    var more := true;
    assert [] + whole == whole;
    while more
      invariant ctx.Valid() && (ctx.z == old(ctx.z) || fresh(ctx.z)) && fresh(bound)
      invariant RowsAre(table, if more then ctx.Left() else [], nCol, ctx.cColSep, ctx.cRowSep, whole)
      decreases more, |ctx.input| - ctx.pos
    {
      RowsTurn(table, ctx.Left(), nCol, ctx.cColSep, ctx.cRowSep, whole);
      var i := ctx.ReadRow(bound);
      if i >= nCol { table := table + [bound[..]]; }
      more := ctx.cTerm != EOF;
    }
    RowsEnd(table, nCol, ctx.cColSep, ctx.cRowSep, whole);
  }

  lemma {:induction false} RunIs(s: Stream, sep: int, row: int, n: nat)
    requires n <= |s| && (n < |s| ==> Ends(s[n], sep, row)) && forall i | 0 <= i < n :: !Ends(s[i], sep, row)
    ensures Run(s, sep, row) == n
  {
    if n > 0 { RunIs(s[1..], sep, row, n - 1); }
  }

  lemma UnquotedIs(s: Stream, sep: int, row: int)
    requires row != EOF
    ensures var k, f := Run(s, sep, row), Unquoted(s, sep, row);
            var c := if k < |s| then s[k] else EOF;
            && f.text == (if c == row then StripCr(s[..k]) else s[..k])
            && f.term == c && f.rest == if k < |s| then s[k + 1..] else []
  {
    assert s[..|s|] == s;
  }

  /** What is left behind the terminator, and the line count. */
  lemma RunEnd(input: Stream, at: nat, i: nat, row: int)
    requires at + i <= |input| && forall j | 0 <= j < i :: input[at..][j] != row
    ensures Count(input[at..at + i], row) == 0
    ensures at + i < |input| ==>
              && input[at + i + 1..] == input[at..][i + 1..]
              && Count(input[at..at + i + 1], row) == if input[at + i] == row then 1 else 0
    ensures at + i == |input| ==> input[at + i..] == []
  {
    var s := input[at..at + i];
    forall j | 0 <= j < i ensures s[j] != row { assert input[at..][j] == s[j]; }
    CountNone(s, row);
    if at + i < |input| { CountNext(input, at, at + i, row); }
  }

  lemma {:induction false} CountNone(s: Stream, c: int)
    requires forall j | 0 <= j < |s| :: s[j] != c
    ensures Count(s, c) == 0
  {
    if s != [] { CountNone(s[..|s| - 1], c); }
  }

  lemma OneByte(c: byte, row: int)
    ensures Count([c], row) == if c == row then 1 else 0
  {
    assert [c][..0] == [];
    assert Count([], row) == 0;
  }

  lemma CountNext(s: Stream, i: nat, j: nat, c: int)
    requires i <= j < |s|
    ensures Count(s[i..j + 1], c) == Count(s[i..j], c) + if s[j] == c then 1 else 0
  {
    assert s[i..j + 1][..j - i] == s[i..j];
  }

  // ----- Rows as imported -----------------------------------------------------------------

  /** A column value: text, or NULL. */
  type Cell = Option<Text>

  datatype Cells = Cells(cells: seq<Cell>, term: int, rest: Stream)

  /** Up to `k` fields of a row. Only where the input ends behind a separator is one NULL. */
  function ReadCells(s: Stream, k: nat, sep: int, row: int): (r: Cells)
    requires k > 0
    ensures 0 < |r.cells| <= k && |r.rest| <= |s| && (s != [] ==> |r.rest| < |s|) && (r.term == EOF ==> r.rest == [])
    decreases k
  {
    var f := ReadField(s, sep, row);
    if f.None? then Cells([None], EOF, [])
    else
      var cell := Some(UpToNul(f.value.text));
      if k > 1 && f.value.term == sep then
        var r := ReadCells(f.value.rest, k - 1, sep, row);
        r.(cells := [cell] + r.cells)
      else Cells([cell], f.value.term, f.value.rest)
  }

  /** Among the first `k` fields, one that is not the last ends in a separator behind which nothing stands. */
  predicate EndsBehindSeparator(s: Stream, k: nat, sep: int, row: int)
    decreases k
  {
    s != [] && k > 1
    && var f := ReadField(s, sep, row).value;
       f.term == sep && (f.rest == [] || EndsBehindSeparator(f.rest, k - 1, sep, row))
  }

  /** A field that is empty at the end of the input is read as NULL: exactly there, and only in the last place. */
  lemma {:induction false} NullIff(s: Stream, k: nat, sep: int, row: int)
    requires k > 0 && s != []
    ensures var cells := ReadCells(s, k, sep, row).cells;
            && (None in cells <==> EndsBehindSeparator(s, k, sep, row))
            && None !in cells[..|cells| - 1]
    decreases k
  {
    var f := ReadField(s, sep, row).value;
    if k > 1 && f.term == sep && f.rest != [] {
      var more := ReadCells(f.rest, k - 1, sep, row).cells;
      NullIff(f.rest, k - 1, sep, row);
      assert ReadCells(s, k, sep, row).cells == [Some(UpToNul(f.text))] + more;
      assert ([Some(UpToNul(f.text))] + more)[..|more|] == [Some(UpToNul(f.text))] + more[..|more| - 1];
    }
  }

  /** `a,` where two columns are wanted: the second is NULL, while the writer's empty field is `""`. */
  lemma {:induction false} NullInput(a: Char, sep: Char)
    requires a != QUOTE && a != sep && a != LF && sep < 0x80 && sep != LF
    ensures Rows([a, sep], 2, sep, LF) == [[Some([a]), None]]
    ensures EndsBehindSeparator([a, sep], 2, sep, LF)
  {
    var s: Stream := [a, sep];
    RunIs(s, sep, LF, 1);
    assert s[..1] == [a] && s[2..] == [];
    var f := ReadField(s, sep, LF).value;
    assert f == Field([a], sep, []);
    TextUpToNul([a]);
    assert ReadCells([], 1, sep, LF) == Cells([None], EOF, []);
    var r := ReadCells(s, 2, sep, LF);
    assert r.cells == [Some([a]), None] && Padded(r.cells, 2) == r.cells;
    assert SkipExtras(r.term, r.rest, sep, LF).1 == [];
  }

  /** Fields beyond the last column are read and ignored. */
  function SkipExtras(term: int, s: Stream, sep: int, row: int): (r: (int, Stream))
    ensures |r.1| <= |s| && (sep != EOF && r.0 == EOF ==> r.1 == [])
    decreases |s|
  {
    if term != sep then (term, if term == EOF then [] else s)
    else
      var f := ReadField(s, sep, row);
      if f.None? then (EOF, []) else SkipExtras(f.value.term, f.value.rest, sep, row)
  }

  function Padded(cells: seq<Cell>, k: nat): seq<Cell>
    requires |cells| <= k
  {
    cells + seq(k - |cells|, i => None)
  }

  /** The rows inserted. */
  function Rows(s: Stream, nCol: nat, sep: int, row: int): seq<seq<Cell>>
    requires nCol > 0
    decreases |s|
  {
    if s == [] then []
    else
      var r := ReadCells(s, nCol, sep, row);
      [Padded(r.cells, nCol)] + Rows(SkipExtras(r.term, r.rest, sep, row).1, nCol, sep, row)
  }

  // ----- The writer -------------------------------------------------------------------------

  class ShellState {
    var out: Text
    var cnt: nat
    const showHeader: bool
    const colSeparator: Text
    const rowSeparator: Text
    const nullValue: Text

    constructor (colSeparator: Text, rowSeparator: Text, nullValue: Text, showHeader: bool)
      ensures out == [] && cnt == 0 && this.colSeparator == colSeparator && this.rowSeparator == rowSeparator
      ensures this.nullValue == nullValue && this.showHeader == showHeader
    {
      out, cnt := [], 0;
      this.colSeparator, this.rowSeparator, this.nullValue, this.showHeader := colSeparator, rowSeparator, nullValue, showHeader;
    }

    /** output_csv */
    method OutputCsv(z: Cell, bSep: bool)
      modifies this`out
      ensures out == old(out) + CellText(z, colSeparator, nullValue) + if bSep then colSeparator else []
    {
      if z == None {
        out := out + nullValue;
      } else {
        var text := z.value;
        var i := 0;
        var special := false;
        while i < |text| && !special
          invariant i <= |text| && (special ==> i == 0 && !Plain(text, colSeparator))
          invariant !special ==> forall j: nat | j < i :: !Special(text, colSeparator, j)
          decreases if special then 0 else |text| - i + 1
        {
          if NeedCsvQuote(text[i]) || (text[i] == Head(colSeparator) && (|colSeparator| == 1 || colSeparator <= text)) {
            assert Special(text, colSeparator, i);
            i := 0;
            special := true;
          } else {
            i := i + 1;
          }
        }
        if i == 0 {
          OutputQuoted(text);
        } else {
          out := out + text;
        }
      }
      if bSep { out := out + colSeparator; }
    }

    method OutputQuoted(text: Text)
      modifies this`out
      ensures out == old(out) + ([QUOTE] + Doubled(text) + [QUOTE])
    {
      ghost var start := out;
      out := out + [QUOTE];
      var i := 0;
      assert text[0..] == text;
      while i < |text|
        invariant i <= |text| && out + Doubled(text[i..]) == start + [QUOTE] + Doubled(text)
      {
        assert text[i..][1..] == text[i + 1..];
        if text[i] == QUOTE { out := out + [QUOTE]; }
        out := out + [text[i]];
        i := i + 1;
      }
      assert Doubled(text[i..]) == [] && out + [] == out;
      out := out + [QUOTE];
    }

    /** A row, or the header row. */
    method OutputRow(cells: seq<Cell>)
      modifies this`out
      ensures out == old(out) + RowText(cells, colSeparator, nullValue) + rowSeparator
    {
      ghost var whole := out + RowText(cells, colSeparator, nullValue);
      var i := 0;
      assert cells[0..] == cells;
      while i < |cells|
        invariant i <= |cells| && out + RowText(cells[i..], colSeparator, nullValue) == whole
      {
        RowTail(out, cells, i, colSeparator, nullValue);
        OutputCsv(cells[i], i + 1 < |cells|);
        i := i + 1;
      }
      assert RowText(cells[i..], colSeparator, nullValue) == [] && out + [] == out;
      out := out + rowSeparator;
    }

    /** The MODE_Csv branch of the row callback; a column without a name has an empty one. */
    method ShowRow(azCol: seq<Cell>, azArg: seq<Cell>)
      requires |azCol| == |azArg|
      modifies this`out, this`cnt
      ensures cnt == old(cnt) + 1
      ensures var header := if old(cnt) == 0 && showHeader then RowText(Names(azCol), colSeparator, nullValue) + rowSeparator else [];
              var row := if azArg != [] then RowText(azArg, colSeparator, nullValue) + rowSeparator else [];
              out == old(out) + header + row
    {
      var first := cnt == 0;
      cnt := cnt + 1;
      assert out + [] == out;
      if first && showHeader {
        OutputRow(Names(azCol));
        assert out == old(out) + (RowText(Names(azCol), colSeparator, nullValue) + rowSeparator);
      }
      ghost var before := out;
      assert out + [] == out;
      if |azArg| > 0 {
        OutputRow(azArg);
        assert out == before + (RowText(azArg, colSeparator, nullValue) + rowSeparator);
      }
    }
  }

  /** The column names, those that are missing empty. */
  function Names(azCol: seq<Cell>): (names: seq<Cell>)
    ensures |names| == |azCol| && forall i | 0 <= i < |azCol| :: names[i] == if azCol[i] == None then Some([]) else azCol[i]
  {
    seq(|azCol|, i requires 0 <= i < |azCol| => if azCol[i] == None then Some([]) else azCol[i])
  }

  function CellText(z: Cell, sep: Text, nullValue: Text): Text {
    if z == None then nullValue else FieldText(z.value, sep)
  }

  /** The cells of a row with separators between them. */
  function RowText(cells: seq<Cell>, sep: Text, nullValue: Text): Text {
    if cells == [] then []
    else
      CellText(cells[0], sep, nullValue) + (if |cells| > 1 then sep else []) + RowText(cells[1..], sep, nullValue)
  }

  lemma RowTail(out: Text, cells: seq<Cell>, i: nat, sep: Text, nullValue: Text)
    requires i < |cells|
    ensures out + RowText(cells[i..], sep, nullValue)
         == out + CellText(cells[i], sep, nullValue) + (if i + 1 < |cells| then sep else []) + RowText(cells[i + 1..], sep, nullValue)
  {
    assert cells[i..][1..] == cells[i + 1..];
    Regroup(out, CellText(cells[i], sep, nullValue), if i + 1 < |cells| then sep else [], RowText(cells[i + 1..], sep, nullValue));
  }

  lemma Regroup(a: Text, b: Text, c: Text, d: Text)
    ensures a + (b + c + d) == a + b + c + d
  {}

  // ----- Round trip ---------------------------------------------------------------------------

  const CRLF: Text := [CR, LF]

  /** What the writer produces for a table. */
  function TableText(rows: seq<seq<Cell>>, sep: Char, nullValue: Text): Text {
    if rows == [] then [] else RowText(rows[0], [sep], nullValue) + CRLF + TableText(rows[1..], sep, nullValue)
  }

  /** A text for NULL that is written as it is read. */
  predicate Readable(nullValue: Text, sep: Char) {
    nullValue == [] || Plain(nullValue, [sep])
  }

  /** The text that comes back for a cell. */
  function Back(z: Cell, nullValue: Text): Text {
    if z == None then nullValue else z.value
  }

  function BackAll(row: seq<Cell>, nullValue: Text): (cells: seq<Cell>)
    ensures |cells| == |row|
  {
    seq(|row|, i requires 0 <= i < |row| => Some(Back(row[i], nullValue)))
  }

  /** A row in `nCol` columns: cut off behind the last, NULL where there is nothing. */
  function Fit(row: seq<Cell>, nCol: nat, nullValue: Text): seq<Cell> {
    seq(nCol, i requires 0 <= i < nCol => if i < |row| then Some(Back(row[i], nullValue)) else None)
  }

  function FitAll(rows: seq<seq<Cell>>, nCol: nat, nullValue: Text): seq<seq<Cell>> {
    seq(|rows|, i requires 0 <= i < |rows| => Fit(rows[i], nCol, nullValue))
  }

  predicate Rectangular(rows: seq<seq<Cell>>, nCol: nat) {
    forall i | 0 <= i < |rows| :: |rows[i]| == nCol
  }

  /** A byte that can separate fields. */
  predicate Separator(sep: Char) {
    sep != QUOTE && sep != CR && sep != LF
  }

  /** A field is followed by a separator the reader finds or by the end of its row. */
  predicate Follows(tail: Text, sep: int) {
    tail != [] && (tail[0] == sep || CRLF <= tail)
  }

  function EndOf(z: Text, tail: Text, sep: int): Field
    requires Follows(tail, sep)
  {
    if tail[0] == sep then Field(z, sep, tail[1..]) else Field(z, LF, tail[2..])
  }

  /** The reader's separator ends no field where the writer has not written one. */
  predicate Reads(sep: Char, rs: int) {
    Separator(sep) && rs == Signed(sep)
  }

  lemma {:induction false} QuotedReads(z: Text, tail: Text, sep: int)
    requires sep != QUOTE && sep != CR && sep != LF && Follows(tail, sep)
    ensures Quoted(Doubled(z) + [QUOTE] + tail, sep, LF) == EndOf(z, tail, sep)
  {
    var s := Doubled(z) + [QUOTE] + tail;
    if z == [] {
      QuoteCloses(tail, sep);
      assert s == [QUOTE] + tail;
    } else {
      QuotedReads(z[1..], tail, sep);
      DoubledReads(z[0], Doubled(z[1..]) + [QUOTE] + tail, EndOf(z[1..], tail, sep), sep);
      Regroup3(if z[0] == QUOTE then [QUOTE, QUOTE] else [z[0]], Doubled(z[1..]), [QUOTE], tail);
      assert z == [z[0]] + z[1..];
    }
  }

  lemma Regroup3(a: Text, b: Text, c: Text, d: Text)
    ensures a + b + c + d == a + (b + c + d)
  {}

  /** One byte of a quoted field. */
  lemma DoubledReads(c: Char, more: Text, f: Field, sep: int)
    requires Quoted(more, sep, LF) == f
    ensures Quoted((if c == QUOTE then [QUOTE, QUOTE] else [c]) + more, sep, LF) == Onto([c], f)
  {
    var s := (if c == QUOTE then [QUOTE, QUOTE] else [c]) + more;
    if c == QUOTE { assert s[2..] == more; } else { assert s[1..] == more; }
  }

  lemma QuoteCloses(tail: Text, sep: int)
    requires sep != QUOTE && sep != CR && sep != LF && Follows(tail, sep)
    ensures Quoted([QUOTE] + tail, sep, LF) == EndOf([], tail, sep)
  {
    var s := [QUOTE] + tail;
    assert s[1] == tail[0] && s[2..] == tail[1..];
    if tail[0] != sep { assert s[2] == tail[1] && s[3..] == tail[2..]; }
  }

  lemma PlainReads(z: Text, tail: Text, sep: Char, rs: int)
    requires Reads(sep, rs) && Follows(tail, rs) && Readable(z, sep)
    ensures Unquoted(z + tail, rs, LF) == EndOf(z, tail, rs) && (z + tail)[0] != QUOTE
  {
    var s: Stream := z + tail;
    assert forall i: nat | i < |z| :: !Special(z, [sep], i) && s[i] == z[i];
    if tail[0] == rs {
      RunIs(s, rs, LF, |z|);
      assert s[..|z|] == z && s[|z| + 1..] == tail[1..];
    } else {
      RunIs(s, rs, LF, |z| + 1);
      assert s[..|z| + 1] == z + [CR] && s[|z| + 2..] == tail[2..];
      assert StripCr(z + [CR]) == z;
    }
  }

  /** Every field comes back, with what ended it. */
  lemma FieldReads(z: Text, tail: Text, sep: Char, rs: int)
    requires Reads(sep, rs) && Follows(tail, rs)
    ensures ReadField(FieldText(z, [sep]) + tail, rs, LF) == Some(EndOf(z, tail, rs))
  {
    var s := FieldText(z, [sep]) + tail;
    if Plain(z, [sep]) {
      PlainReads(z, tail, sep, rs);
    } else {
      QuotedReads(z, tail, rs);
      Regrouped(Doubled(z), tail);
    }
  }

  lemma Regrouped(d: Text, tail: Text)
    ensures var s := [QUOTE] + d + [QUOTE] + tail; s[0] == QUOTE && s[1..] == d + [QUOTE] + tail
  {}

  /** And every NULL as the text that is shown for it. */
  lemma CellBack(z: Cell, tail: Text, sep: Char, rs: int, nullValue: Text)
    requires Reads(sep, rs) && Follows(tail, rs) && Readable(nullValue, sep)
    ensures ReadField(CellText(z, [sep], nullValue) + tail, rs, LF) == Some(EndOf(Back(z, nullValue), tail, rs))
  {
    if z == None { PlainReads(nullValue, tail, sep, rs); } else { FieldReads(z.value, tail, sep, rs); }
  }

  /** A row, its end and what follows. */
  function Line(row: seq<Cell>, rest: Text, sep: Char, nullValue: Text): Text {
    RowText(row, [sep], nullValue) + CRLF + rest
  }

  /** What stands behind the first field of a row. */
  function Behind(row: seq<Cell>, rest: Text, sep: Char, nullValue: Text): Text
    requires row != []
  {
    if |row| > 1 then [sep] + Line(row[1..], rest, sep, nullValue) else CRLF + rest
  }

  lemma RowSplits(row: seq<Cell>, rest: Text, sep: Char, nullValue: Text)
    requires row != []
    ensures Line(row, rest, sep, nullValue) == CellText(row[0], [sep], nullValue) + Behind(row, rest, sep, nullValue)
  {
    RegroupRow(CellText(row[0], [sep], nullValue), [sep], RowText(row[1..], [sep], nullValue), CRLF, rest);
  }

  lemma BackSplits(row: seq<Cell>, nullValue: Text)
    requires row != []
    ensures BackAll(row, nullValue) == [Some(Back(row[0], nullValue))] + BackAll(row[1..], nullValue)
  {}

  /** What is read from `s`; the trigger keeps the function folded. */
  ghost predicate ReadAs(s: Stream, k: nat, sep: int, r: Cells) {
    k > 0 ==> forall x {:trigger ReadCells(x, k, sep, LF)} :: x == s ==> ReadCells(x, k, sep, LF) == r
  }

  /** Up to `k` fields of a written row are read; the others stand behind the separator that was read last. */
  lemma {:induction false} RowReads(row: seq<Cell>, k: nat, rest: Text, sep: Char, rs: int, nullValue: Text)
    requires Reads(sep, rs) && Readable(nullValue, sep) && row != [] && k > 0 && (sep < 0x80 || |row| == 1)
    ensures ReadAs(Line(row, rest, sep, nullValue), k, rs,
                   if |row| <= k then Cells(BackAll(row, nullValue), LF, rest)
                   else Cells(BackAll(row[..k], nullValue), rs, Line(row[k..], rest, sep, nullValue)))
    decreases |row|
  {
    var tail, z := Behind(row, rest, sep, nullValue), Back(row[0], nullValue);
    var s := CellText(row[0], [sep], nullValue) + tail;
    RowSplits(row, rest, sep, nullValue);
    BackSplits(row, nullValue);
    CellBack(row[0], tail, sep, rs, nullValue);
    TextUpToNul(z);
    if |row| == 1 || k == 1 {
      LastReads(s, k, rs, EndOf(z, tail, rs));
      assert |row| > 1 ==> BackAll(row[..1], nullValue) == [Some(z)];
    } else {
      var more := if |row| <= k then Cells(BackAll(row[1..], nullValue), LF, rest)
                  else Cells(BackAll(row[1..][..k - 1], nullValue), rs, Line(row[1..][k - 1..], rest, sep, nullValue));
      RowReads(row[1..], k - 1, rest, sep, rs, nullValue);
      CellReads(s, k, rs, EndOf(z, tail, rs), more);
      CutAgain(row, k, nullValue);
    }
  }

  lemma LastReads(s: Stream, k: nat, sep: int, f: Field)
    requires k > 0 && ReadField(s, sep, LF) == Some(f) && (k == 1 || f.term != sep)
    ensures ReadAs(s, k, sep, Cells([Some(UpToNul(f.text))], f.term, f.rest))
  {}

  lemma CutAgain(row: seq<Cell>, k: nat, nullValue: Text)
    requires 1 < k && row != []
    ensures k < |row| ==> row[1..][k - 1..] == row[k..]
    ensures k < |row| ==> BackAll(row[..k], nullValue) == [Some(Back(row[0], nullValue))] + BackAll(row[1..][..k - 1], nullValue)
  {}

  /** The fields of a written row that are too many are passed over, up to its end. */
  lemma {:induction false} ExtrasRead(row: seq<Cell>, rest: Text, sep: Char, rs: int, nullValue: Text)
    requires Reads(sep, rs) && Readable(nullValue, sep) && row != [] && sep < 0x80
    ensures SkipExtras(rs, Line(row, rest, sep, nullValue), rs, LF) == (LF as int, rest)
  {
    var tail := Behind(row, rest, sep, nullValue);
    RowSplits(row, rest, sep, nullValue);
    CellBack(row[0], tail, sep, rs, nullValue);
    if |row| > 1 { ExtrasRead(row[1..], rest, sep, rs, nullValue); }
  }

  /** The first of the fields, and those behind it. */
  lemma CellReads(s: Stream, k: nat, sep: int, f: Field, more: Cells)
    requires k > 1 && ReadField(s, sep, LF) == Some(f) && f.term == sep && ReadAs(f.rest, k - 1, sep, more)
    ensures ReadAs(s, k, sep, AddCells([Some(UpToNul(f.text))], more))
  {
    assert ReadCells(f.rest, k - 1, sep, LF) == more;
  }

  lemma RegroupRow(f: Text, s: Text, r: Text, e: Text, rest: Text)
    ensures f + s + r + e + rest == f + (s + (r + e + rest)) && f + [] + r + e + rest == f + (r + e + rest)
  {}

  /** The rows come back, in order, field for field, each cut or filled up to the number of columns. */
  lemma {:induction false} TableReads(rows: seq<seq<Cell>>, nCol: nat, sep: Char, nullValue: Text)
    requires Separator(sep) && sep != 0xFF && nCol > 0 && Readable(nullValue, sep)
    requires forall i | 0 <= i < |rows| :: rows[i] != [] && (sep < 0x80 || |rows[i]| == 1)
    ensures Rows(TableText(rows, sep, nullValue), nCol, Signed(sep), LF) == FitAll(rows, nCol, nullValue)
  {
    if rows != [] {
      var rest := TableText(rows[1..], sep, nullValue);
      RowFits(rows[0], nCol, rest, sep, nullValue);
      TableReads(rows[1..], nCol, sep, nullValue);
      FirstFits(rows, nCol, nullValue);
    }
  }

  lemma FirstFits(rows: seq<seq<Cell>>, nCol: nat, nullValue: Text)
    requires rows != []
    ensures FitAll(rows, nCol, nullValue) == [Fit(rows[0], nCol, nullValue)] + FitAll(rows[1..], nCol, nullValue)
  {}

  lemma RowFits(row: seq<Cell>, nCol: nat, rest: Text, sep: Char, nullValue: Text)
    requires Separator(sep) && sep != 0xFF && nCol > 0 && Readable(nullValue, sep) && row != [] && (sep < 0x80 || |row| == 1)
    ensures Rows(Line(row, rest, sep, nullValue), nCol, Signed(sep), LF)
         == [Fit(row, nCol, nullValue)] + Rows(rest, nCol, Signed(sep), LF)
  {
    var s, rs := Line(row, rest, sep, nullValue), Signed(sep);
    RowReads(row, nCol, rest, sep, rs, nullValue);
    var r := ReadCells(s, nCol, rs, LF);
    if |row| > nCol { ExtrasRead(row[nCol..], rest, sep, rs, nullValue); }
    assert SkipExtras(LF, rest, rs, LF) == (LF as int, rest);
    FitIs(row, nCol, nullValue);
    assert |s| >= |CRLF|;
  }

  lemma FitIs(row: seq<Cell>, nCol: nat, nullValue: Text)
    ensures |row| <= nCol ==> Padded(BackAll(row, nullValue), nCol) == Fit(row, nCol, nullValue)
    ensures |row| > nCol ==> Padded(BackAll(row[..nCol], nullValue), nCol) == Fit(row, nCol, nullValue)
  {}

  predicate RoundTrips(rows: seq<seq<Cell>>, nCol: nat, sep: Char, nullValue: Text)
    requires nCol > 0
  {
    Rows(TableText(rows, sep, nullValue), nCol, Signed(sep), LF) == rows
  }

  predicate NoNulls(rows: seq<seq<Cell>>) {
    forall i, j | 0 <= i < |rows| && 0 <= j < |rows[i]| :: rows[i][j] != None
  }

  /**
   Where `char` is signed, the reader never finds a separator from 0x80 on: every table with
   a row of two or more columns is then read back wrong, and no other.
   */
  lemma RoundTripsIff(rows: seq<seq<Cell>>, nCol: nat, sep: Char, nullValue: Text)
    requires Separator(sep) && sep != 0xFF && nCol > 0 && Rectangular(rows, nCol) && Readable(nullValue, sep) && NoNulls(rows)
    ensures RoundTrips(rows, nCol, sep, nullValue) <==> sep < 0x80 || nCol == 1 || rows == []
  {
    if sep < 0x80 || nCol == 1 {
      TableReads(rows, nCol, sep, nullValue);
      forall i | 0 <= i < |rows| ensures Fit(rows[i], nCol, nullValue) == rows[i] {}
    } else if rows != [] {
      var text := TableText(rows, sep, nullValue);
      assert |text| >= |CRLF|;
      SecondIsNull(text, nCol, Signed(sep));
      assert rows[0][1] != None;
    }
  }

  /** Otherwise a table comes back if and only if it has no NULL: what is shown for one is read as text. */
  lemma NullsIff(rows: seq<seq<Cell>>, nCol: nat, sep: Char, nullValue: Text)
    requires Separator(sep) && sep < 0x80 && nCol > 0 && Rectangular(rows, nCol) && Readable(nullValue, sep)
    ensures RoundTrips(rows, nCol, sep, nullValue) <==> NoNulls(rows)
  {
    TableReads(rows, nCol, sep, nullValue);
    var back := FitAll(rows, nCol, nullValue);
    if NoNulls(rows) {
      RoundTripsIff(rows, nCol, sep, nullValue);
    } else {
      var i, j :| 0 <= i < |rows| && 0 <= j < |rows[i]| && rows[i][j] == None;
      assert back[i][j] != None;
    }
  }

  /** A table with a single NULL and nothing shown for it comes back with an empty text. */
  lemma NullBack(sep: Char)
    requires Separator(sep) && sep < 0x80
    ensures Rows(TableText([[None]], sep, []), 1, sep, LF) == [[Some([])]]
  {
    TableReads([[None]], 1, sep, []);
    assert Fit([None], 1, []) == [Some([])];
  }

  /** A negative separator ends no field, so only the first column of a row gets a value. */
  lemma SecondIsNull(s: Stream, nCol: nat, sep: int)
    requires s != [] && nCol > 1 && sep < EOF
    ensures Rows(s, nCol, sep, LF) != [] && |Rows(s, nCol, sep, LF)[0]| == nCol && Rows(s, nCol, sep, LF)[0][1] == None
  {
    var f := ReadField(s, sep, LF).value;
    assert f.term != sep && |ReadCells(s, nCol, sep, LF).cells| == 1;
  }

  /** The header, if it is shown, and the rows. */
  function Shown(rows: seq<seq<Cell>>, azCol: seq<Cell>, header: bool): seq<seq<Cell>> {
    if header && rows != [] then [Names(azCol)] + rows else rows
  }

  /** A table in CSV mode. */
  method ShowTable(rows: seq<seq<Cell>>, azCol: seq<Cell>, sep: Char, nullValue: Text, header: bool) returns (out: Text)
    requires azCol != [] && Rectangular(rows, |azCol|)
    ensures out == TableText(Shown(rows, azCol, header), sep, nullValue)
  {
    var p := new ShellState([sep], CRLF, nullValue, header);
    ghost var whole := TableText(Shown(rows, azCol, header), sep, nullValue);
    var i := 0;
    assert [] + whole == whole && rows[0..] == rows;
    while i < |rows|
      invariant i <= |rows| && p.colSeparator == [sep] && p.rowSeparator == CRLF && p.nullValue == nullValue && p.showHeader == header
      invariant p.cnt == i && p.out + TableText(if i == 0 then Shown(rows, azCol, header) else rows[i..], sep, nullValue) == whole
    {
      ShownTail(p.out, rows, i, azCol, sep, nullValue, header);
      p.ShowRow(azCol, rows[i]);
      i := i + 1;
    }
    assert rows[i..] == [] && p.out + [] == p.out;
    out := p.out;
  }

  lemma ShownTail(out: Text, rows: seq<seq<Cell>>, i: nat, azCol: seq<Cell>, sep: Char, nullValue: Text, header: bool)
    requires i < |rows|
    ensures out + TableText(if i == 0 then Shown(rows, azCol, header) else rows[i..], sep, nullValue)
         == out + (if i == 0 && header then RowText(Names(azCol), [sep], nullValue) + CRLF else [])
                + (RowText(rows[i], [sep], nullValue) + CRLF) + TableText(rows[i + 1..], sep, nullValue)
  {
    assert rows[i..] == [rows[i]] + rows[i + 1..];
    FirstRow(out, rows[i], rows[i + 1..], sep, nullValue);
    if i == 0 && header {
      FirstRow(out, Names(azCol), rows, sep, nullValue);
      FirstRow(out + (RowText(Names(azCol), [sep], nullValue) + CRLF), rows[i], rows[i + 1..], sep, nullValue);
      assert rows[0..] == rows;
    } else {
      assert out + [] == out && rows[0..] == rows;
    }
  }

  lemma FirstRow(out: Text, row: seq<Cell>, rows: seq<seq<Cell>>, sep: Char, nullValue: Text)
    ensures out + TableText([row] + rows, sep, nullValue) == out + (RowText(row, [sep], nullValue) + CRLF) + TableText(rows, sep, nullValue)
  {
    assert ([row] + rows)[1..] == rows;
    Assoc(out, RowText(row, [sep], nullValue) + CRLF, TableText(rows, sep, nullValue));
  }

  /** A table shown in CSV mode and imported again, into any number of columns. */
  method ShowAndImport(rows: seq<seq<Cell>>, nCol: nat, azCol: seq<Cell>, sep: Char, nullValue: Text, header: bool)
    returns (table: seq<seq<Cell>>)
    requires azCol != [] && Rectangular(rows, |azCol|) && nCol > 0 && Separator(sep) && sep < 0x80 && Readable(nullValue, sep)
    ensures table == FitAll(Shown(rows, azCol, header), nCol, nullValue)
  {
    var out := ShowTable(rows, azCol, sep, nullValue, header);
    var ctx := new ImportCtx(out, sep, LF);
    table := Import(ctx, nCol);
    TableReads(Shown(rows, azCol, header), nCol, sep, nullValue);
  }

  // ----- By bytes -----------------------------------------------------------------------------

  /** When a field is quoted, by the values of its bytes. */
  lemma QuotedWhen(z: Text, sep: Char)
    ensures FieldText(z, [sep]) == z <==> z != [] && forall i | 0 <= i < |z| :: 33 <= z[i] <= 126 && z[i] != 34 && z[i] != 39 && z[i] != sep
    ensures FieldText(z, [sep]) != z ==> FieldText(z, [sep]) == [34] + Doubled(z) + [34]
  {
    DoubledLonger(z);
    if Plain(z, [sep]) {
      forall i: nat | i < |z| ensures 33 <= z[i] <= 126 && z[i] != 34 && z[i] != 39 && z[i] != sep { assert !Special(z, [sep], i); }
    }
  }

  /** A field without quotes loses one carriage return in front of the end of its row, and nowhere else. */
  lemma BareField(z: Text, sep: Char, rest: Text)
    requires Separator(sep) && sep < 0x80 && z != [] && z[0] != 34 && forall i | 0 <= i < |z| :: z[i] != sep && z[i] != 10
    ensures ReadField(z, sep, 10) == Some(Field(z, -1, []))
    ensures ReadField(z + [sep] + rest, sep, 10) == Some(Field(z, sep, rest))
    ensures ReadField(z + [10] + rest, sep, 10) == Some(Field(if z[|z| - 1] == 13 then z[..|z| - 1] else z, 10, rest))
  {
    RunIs(z, sep, LF, |z|);
    BareEnd(z, sep, rest, sep);
    BareEnd(z, LF, rest, sep);
  }

  lemma BareEnd(z: Text, end: Char, rest: Text, sep: Char)
    requires z != [] && z[0] != 34 && (end == sep || end == 10) && sep != 10 && forall i | 0 <= i < |z| :: z[i] != sep && z[i] != 10
    ensures ReadField(z + [end] + rest, sep, 10)
         == Some(Field(if end == 10 && z[|z| - 1] == 13 then z[..|z| - 1] else z, end, rest))
  {
    var s: Stream := z + [end] + rest;
    RunIs(s, sep, LF, |z|);
    assert s[..|z|] == z && s[|z| + 1..] == rest && s[0] == z[0];
  }

  /** Behind an opening quote, text with its quotes doubled is read in front of anything. */
  lemma {:induction false} DoubledOnto(z: Text, tail: Text, sep: int)
    requires sep != 34 && sep != 10
    ensures Quoted(Doubled(z) + tail, sep, 10) == Onto(z, Quoted(tail, sep, 10))
  {
    if z == [] {
      assert Doubled(z) + tail == tail && [] + Quoted(tail, sep, 10).text == Quoted(tail, sep, 10).text;
    } else {
      DoubledOnto(z[1..], tail, sep);
      var d: Text := if z[0] == QUOTE then [QUOTE, QUOTE] else [z[0]];
      Assoc(d, Doubled(z[1..]), tail);
      DoubledReads(z[0], Doubled(z[1..]) + tail, Onto(z[1..], Quoted(tail, sep, 10)), sep);
      OntoOnto([z[0]], z[1..], Quoted(tail, sep, 10));
      assert [z[0]] + z[1..] == z;
    }
  }

  /** What ends a quoted field: a quote and the separator, a line feed, both end bytes or the end of the input, which may also come without a quote. */
  lemma QuotedEnds(z: Text, rest: Text, sep: Char)
    requires Separator(sep) && sep < 0x80
    ensures ReadField([34] + (Doubled(z) + ([34, sep] + rest)), sep, 10) == Some(Field(z, sep, rest))
    ensures ReadField([34] + (Doubled(z) + ([34, 10] + rest)), sep, 10) == Some(Field(z, 10, rest))
    ensures ReadField([34] + (Doubled(z) + ([34, 13, 10] + rest)), sep, 10) == Some(Field(z, 10, rest))
    ensures ReadField([34] + (Doubled(z) + [34]), sep, 10) == Some(Field(z, -1, []))
    ensures ReadField([34] + Doubled(z), sep, 10) == Some(Field(z, -1, []))
  {
    EndReads(z, [34, sep] + rest, sep, Field([], sep, rest));
    EndReads(z, [34, 10] + rest, sep, Field([], 10, rest));
    EndReads(z, [34, 13, 10] + rest, sep, Field([], 10, rest));
    EndReads(z, [34], sep, Field([], -1, []));
    EndReads(z, [], sep, Field([], -1, []));
    assert Doubled(z) + [] == Doubled(z);
  }

  lemma EndReads(z: Text, tail: Text, sep: Char, f: Field)
    requires Separator(sep) && f.text == []
    requires (tail == [] && f == Field([], -1, [])) || (tail == [34] && f == Field([], -1, []))
             || (|tail| > 1 && tail[0] == 34 && (tail[1] == sep || tail[1] == 10) && f == Field([], tail[1], tail[2..]))
             || (|tail| > 2 && tail[0] == 34 && tail[1] == 13 && tail[2] == 10 && f == Field([], 10, tail[3..]))
    ensures ReadField([34] + (Doubled(z) + tail), sep, 10) == Some(Field(z, f.term, f.rest))
  {
    DoubledOnto(z, tail, sep);
    var s: Stream := [34] + (Doubled(z) + tail);
    assert s[1..] == Doubled(z) + tail && z + [] == z;
  }

  /** A quote that neither is doubled nor ends the field is part of it. */
  lemma LoneQuote(z: Text, c: Char, y: Text, tail: Text, sep: Char)
    requires Separator(sep) && c != 34 && c != sep && c != 10 && (c == 13 ==> y != [] && y[0] != 10)
    ensures Quoted(Doubled(z) + ([34, c] + (Doubled(y) + tail)), sep, 10) == Onto(z + [34, c] + y, Quoted(tail, sep, 10))
  {
    var more, f := Doubled(y) + tail, Quoted(tail, sep, 10);
    DoubledOnto(z, [34, c] + more, sep);
    DoubledOnto(y, tail, sep);
    LoneStep(c, more, sep);
    OntoOnto([34, c], y, f);
    OntoOnto(z, [34, c] + y, f);
    assert z + ([34, c] + y) == z + [34, c] + y;
  }

  lemma LoneStep(c: Char, more: Text, sep: Char)
    requires Separator(sep) && c != 34 && c != sep && c != 10 && (c == 13 ==> more != [] && more[0] != 10)
    ensures Quoted([34, c] + more, sep, 10) == Onto([34, c], Quoted(more, sep, 10))
  {
    var s: Stream := [34, c] + more;
    assert s[1] == c && s[1..] == [c] + more && ([c] + more)[1..] == more;
    assert Quoted([c] + more, sep, 10) == Onto([c], Quoted(more, sep, 10));
    OntoOnto([34], [c], Quoted(more, sep, 10));
    assert [34] + [c] == [34, c];
  }

  /** The line counter counts one byte. */
  lemma {:induction false} CountIs(s: Stream, c: byte)
    ensures Count(s, c) == multiset(s)[c]
  {
    if s != [] {
      CountIs(s[..|s| - 1], c);
      assert s == s[..|s| - 1] + [s[|s| - 1]];
    }
  }
}
