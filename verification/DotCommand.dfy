/**
 The string escaper of the SQLite shell, the in-place tokenizer of its dot commands and the
 in-place backslash resolver that undoes the escaping.
 */
module DotCommand {
  import opened Bytes

  const BELL: byte := 7
  const VTAB: byte := 11

  /** isprint in the C locale. */
  predicate IsPrint(c: byte) {
    32 <= c < 127
  }

  predicate IsOctal(c: byte) {
    ZERO <= c <= '7' as int
  }

  // ----- Escaping -----------------------------------------------------------------------

  /** What output_c_string writes for a byte. */
  function EscapeChar(c: Char): Text {
    if c == BACKSLASH || c == QUOTE then [BACKSLASH, c]
    else if c == TAB then [BACKSLASH, 't' as int]
    else if c == LF then [BACKSLASH, 'n' as int]
    else if c == CR then [BACKSLASH, 'r' as int]
    else if !IsPrint(c) then [BACKSLASH, ZERO + c / 64, ZERO + c / 8 % 8, ZERO + c % 8]
    else [c]
  }

  function EscapeAll(z: Text): Text {
    if z == [] then [] else EscapeChar(z[0]) + EscapeAll(z[1..])
  }

  function CString(z: Text): Text {
    [QUOTE] + EscapeAll(z) + [QUOTE]
  }

  method OutputCString(z: Text) returns (out: Text)
    ensures out == CString(z)
  {
    out := [QUOTE];
    var i := 0;
    assert z[0..] == z;
    while i < |z|
      invariant i <= |z| && out + EscapeAll(z[i..]) == [QUOTE] + EscapeAll(z)
    {
      assert z[i..][1..] == z[i + 1..];
      Assoc(out, EscapeChar(z[i]), EscapeAll(z[i + 1..]));
      out := PutChar(out, z[i]);
      i := i + 1;
    }
    assert EscapeAll(z[i..]) == [] && out + [] == out;
    out := out + [QUOTE];
  }

  /** The calls of fputc and raw_printf for one byte. */
  method PutChar(before: Text, c: Char) returns (out: Text)
    ensures out == before + EscapeChar(c)
  {
    out := before;
    var k: int := c;
    if c == BACKSLASH { out := out + [c]; out := out + [c]; }
    else if c == QUOTE { out := out + [BACKSLASH]; out := out + [QUOTE]; }
    else if c == TAB { out := out + [BACKSLASH]; out := out + ['t' as int]; }
    else if c == LF { out := out + [BACKSLASH]; out := out + ['n' as int]; }
    else if c == CR { out := out + [BACKSLASH]; out := out + ['r' as int]; }
    else if !IsPrint(c) { out := out + [BACKSLASH, ZERO + k / 64, ZERO + k / 8 % 8, ZERO + k % 8]; }
    else { out := out + [c]; }
  }

  // ----- Resolving ----------------------------------------------------------------------

  /** The byte a letter behind a backslash stands for. */
  function Letter(c: Char): byte {
    if c == 'a' as int then BELL
    else if c == 'b' as int then BACKSPACE
    else if c == 't' as int then TAB
    else if c == 'n' as int then LF
    else if c == 'v' as int then VTAB
    else if c == 'f' as int then FORMFEED
    else if c == 'r' as int then CR
    else c
  }

  /** The number of octal digits in front of `s`, up to `max`. */
  function OctalLength(s: Text, max: nat): (n: nat)
    ensures n <= |s| && n <= max
    ensures forall i | 0 <= i < n :: IsOctal(s[i])
  {
    if max == 0 || s == [] || !IsOctal(s[0]) then 0 else 1 + OctalLength(s[1..], max - 1)
  }

  function Octal(s: Text): nat
    requires forall i | 0 <= i < |s| :: IsOctal(s[i])
  {
    if s == [] then 0
    else
      assert IsOctal(s[|s| - 1]);
      8 * Octal(s[..|s| - 1]) + (s[|s| - 1] - ZERO)
  }

  /** The byte that an escape stands for, and the number of characters behind the backslash. */
  function Escape(s: Text): (r: (byte, nat))
    requires s != []
    ensures 0 < r.1 <= |s|
  {
    var n := OctalLength(s, 3);
    if n > 0 then (Octal(s[..n]) % 256, n) else (Letter(s[0]), 1)
  }

  function Resolve(t: Text): (r: seq<byte>)
    ensures |r| <= |t|
  {
    if t == [] then []
    else if t[0] == BACKSLASH && |t| > 1 then
      var (b, n) := Escape(t[1..]);
      [b] + Resolve(t[1..][n..])
    else [t[0]] + Resolve(t[1..])
  }

  // ----- Tokens -------------------------------------------------------------------------

  function SkipSpace(s: Text): (r: Text)
    ensures |r| <= |s| && (r != [] ==> !IsSpace(r[0]))
  {
    if s != [] && IsSpace(s[0]) then SkipSpace(s[1..]) else s
  }

  predicate IsDelim(c: byte) {
    c == APOSTROPHE || c == QUOTE
  }

  /** The length of a quoted argument: between double quotes a backslash protects what follows it. */
  function QuotedLength(s: Text, delim: Char): (n: nat)
    ensures n <= |s| && (n < |s| ==> s[n] == delim)
  {
    if s == [] || s[0] == delim then 0
    else if s[0] == BACKSLASH && delim == QUOTE && |s| > 1 then 2 + QuotedLength(s[2..], delim)
    else 1 + QuotedLength(s[1..], delim)
  }

  function WordLength(s: Text): (n: nat)
    ensures n <= |s| && (n < |s| ==> IsSpace(s[n]))
  {
    if s == [] || IsSpace(s[0]) then 0 else 1 + WordLength(s[1..])
  }

  datatype Token = Token(arg: Text, rest: Text)

  /** The text behind `n` bytes and the byte that ends them. */
  function Behind(s: Text, n: nat): (rest: Text)
    requires n <= |s|
    ensures |rest| <= |s|
  {
    if n < |s| then s[n + 1..] else []
  }

  /** An argument; only between single quotes are backslashes left as they are. */
  function NextToken(s: Text): (t: Token)
    requires s != [] && !IsSpace(s[0])
    ensures |t.rest| < |s|
  {
    if IsDelim(s[0]) then
      var n := QuotedLength(s[1..], s[0]);
      var body := s[1..][..n];
      Token(if s[0] == QUOTE then UpToNul(Resolve(body)) else body, Behind(s[1..], n))
    else
      var n := WordLength(s);
      Token(UpToNul(Resolve(s[..n])), Behind(s, n))
  }

  /** At most `max` arguments. */
  function Tokens(s: Text, max: nat): (args: seq<Text>)
    ensures |args| <= max
    decreases max
  {
    var s1 := SkipSpace(s);
    if max == 0 || s1 == [] then []
    else
      var t := NextToken(s1);
      [t.arg] + Tokens(t.rest, max - 1)
  }

  // ----- Round trip -----------------------------------------------------------------------

  /** The three digits of a byte are read back as that byte, whatever follows. */
  lemma OctalOf(c: Char, a: Char, b: Char, d: Char, rest: Text)
    requires a == ZERO + c / 64 && b == ZERO + c / 8 % 8 && d == ZERO + c % 8
    ensures Escape([a, b, d] + rest).0 == c && Escape([a, b, d] + rest).1 == 3
  {
    var s := [a, b, d] + rest;
    assert s[1..] == [b, d] + rest && s[1..][1..] == [d] + rest;
    assert OctalLength(s[1..][1..], 1) == 1;
    assert OctalLength(s[1..], 2) == 2;
    OctalValue(c, a, b, d);
    assert s[..3] == [a, b, d];
  }

  lemma OctalValue(c: Char, a: Char, b: Char, d: Char)
    requires a == ZERO + c / 64 && b == ZERO + c / 8 % 8 && d == ZERO + c % 8
    ensures IsOctal(a) && IsOctal(b) && IsOctal(d) && Octal([a, b, d]) == c
  {
    var two, one: Text := [a, b], [a];
    assert [a, b, d][..2] == two && two[..1] == one && |one[..0]| == 0;
    assert Octal(one) == c / 64 && Octal(two) == 8 * Octal(one) + c / 8 % 8;
  }

  lemma ResolvePair(x: Char, rest: Text)
    requires !IsOctal(x)
    ensures Resolve([BACKSLASH, x] + rest) == [Letter(x)] + Resolve(rest)
  {
    var s := [BACKSLASH, x] + rest;
    assert s[1..] == [x] + rest && s[1..][1..] == rest;
  }

  lemma ResolveOctal(c: Char, a: Char, b: Char, d: Char, rest: Text)
    requires a == ZERO + c / 64 && b == ZERO + c / 8 % 8 && d == ZERO + c % 8
    ensures Resolve([BACKSLASH, a, b, d] + rest) == [c] + Resolve(rest)
  {
    var s, digits := [BACKSLASH, a, b, d] + rest, [a, b, d] + rest;
    assert s[1..] == digits && digits[3..] == rest;
    OctalOf(c, a, b, d, rest);
  }

  lemma ResolveStep(c: Char, rest: Text)
    ensures Resolve(EscapeChar(c) + rest) == [c] + Resolve(rest)
  {
    var e := EscapeChar(c);
    if |e| == 4 {
      ResolveOctal(c, e[1], e[2], e[3], rest);
    } else if |e| == 2 {
      ResolvePair(e[1], rest);
    } else {
      assert ([c] + rest)[1..] == rest;
    }
  }

  /** Escaping is undone, for every byte value. */
  lemma {:induction false} ResolveEscaped(z: Text)
    ensures Resolve(EscapeAll(z)) == z
  {
    if z != [] {
      ResolveStep(z[0], EscapeAll(z[1..]));
      ResolveEscaped(z[1..]);
      assert z == [z[0]] + z[1..];
    }
  }

  lemma QuotedStep(c: Char, rest: Text)
    ensures QuotedLength(EscapeChar(c) + rest, QUOTE) == |EscapeChar(c)| + QuotedLength(rest, QUOTE)
  {
    var e := EscapeChar(c);
    if |e| == 4 {
      OctalValue(c, e[1], e[2], e[3]);
      QuotedOctal(e[1], e[2], e[3], rest);
    } else if |e| == 2 {
      QuotedPair(e[1], rest);
    } else {
      QuotedPlain(c, rest);
    }
  }

  lemma QuotedOctal(a: Char, b: Char, d: Char, rest: Text)
    requires IsOctal(b) && IsOctal(d)
    ensures QuotedLength([BACKSLASH, a, b, d] + rest, QUOTE) == 4 + QuotedLength(rest, QUOTE)
  {
    QuotedPair(a, [b, d] + rest);
    QuotedPlain(b, [d] + rest);
    QuotedPlain(d, rest);
    assert [BACKSLASH, a, b, d] + rest == [BACKSLASH, a] + ([b, d] + rest);
    assert [b, d] + rest == [b] + ([d] + rest);
  }

  lemma QuotedPair(x: Char, rest: Text)
    ensures QuotedLength([BACKSLASH, x] + rest, QUOTE) == 2 + QuotedLength(rest, QUOTE)
  {
    assert ([BACKSLASH, x] + rest)[2..] == rest;
  }

  lemma QuotedPlain(x: Char, rest: Text)
    requires x != BACKSLASH && x != QUOTE
    ensures QuotedLength([x] + rest, QUOTE) == 1 + QuotedLength(rest, QUOTE)
  {
    assert ([x] + rest)[1..] == rest;
  }

  /** No byte of an escaped text ends the argument. */
  lemma {:induction false} QuotedEscaped(z: Text, tail: Text)
    ensures QuotedLength(EscapeAll(z) + [QUOTE] + tail, QUOTE) == |EscapeAll(z)|
  {
    if z == [] {
      assert EscapeAll(z) + [QUOTE] + tail == [QUOTE] + tail;
    } else {
      var e, more := EscapeChar(z[0]), EscapeAll(z[1..]) + [QUOTE] + tail;
      assert EscapeAll(z) + [QUOTE] + tail == e + more;
      QuotedStep(z[0], more);
      QuotedEscaped(z[1..], tail);
    }
  }

  /** An escaped argument is read back, and reading goes on right behind it. */
  lemma QuotedReads(z: Text, tail: Text)
    ensures NextToken(CString(z) + tail) == Token(z, tail)
  {
    var e := EscapeAll(z);
    var s, body := CString(z) + tail, e + [QUOTE] + tail;
    assert s[0] == QUOTE && s[1..] == body;
    QuotedEscaped(z, tail);
    assert body[..|e|] == e && body[|e| + 1..] == tail;
    ResolveEscaped(z);
    TextUpToNul(z);
  }

  lemma {:induction false} EscapedNoSpace(z: Text)
    requires forall i | 0 <= i < |z| :: z[i] != SPACE
    ensures forall i | 0 <= i < |EscapeAll(z)| :: !IsSpace(EscapeAll(z)[i])
  {
    if z != [] {
      EscapedNoSpace(z[1..]);
      var e := EscapeChar(z[0]);
      assert forall i | 0 <= i < |e| :: !IsSpace(e[i]);
    }
  }

  /** So is an escaped word without quotes around it, up to white space or the end of the line. */
  lemma WordReads(z: Text, tail: Text)
    requires z != [] && z[0] != APOSTROPHE && forall i | 0 <= i < |z| :: z[i] != SPACE
    requires tail == [] || tail[0] == 32 || 9 <= tail[0] <= 13
    ensures NextToken(EscapeAll(z) + tail) == Token(z, if tail == [] then [] else tail[1..])
  {
    var e := EscapeAll(z);
    EscapedNoSpace(z);
    WordLengthOf(e, tail);
    EscapedStart(z);
    ResolveEscaped(z);
    TextUpToNul(z);
    WordToken(e, tail, z);
  }

  lemma EscapedStart(z: Text)
    requires z != [] && z[0] != APOSTROPHE && z[0] != SPACE
    ensures EscapeAll(z) != [] && !IsDelim(EscapeAll(z)[0]) && !IsSpace(EscapeAll(z)[0])
  {
    var e := EscapeChar(z[0]);
    assert EscapeAll(z)[0] == e[0];
  }

  lemma WordToken(e: Text, tail: Text, z: Text)
    requires e != [] && !IsDelim(e[0]) && !IsSpace(e[0]) && WordLength(e + tail) == |e| && UpToNul(Resolve(e)) == z
    ensures NextToken(e + tail) == Token(z, if tail == [] then [] else tail[1..])
  {
    var s := e + tail;
    assert s[0] == e[0] && s[..|e|] == e;
    if tail != [] { assert s[|e| + 1..] == tail[1..]; }
  }

  /** Between single quotes everything is taken as it is, blanks, double quotes and backslashes included. */
  lemma RawReads(z: Text, tail: Text)
    requires forall i | 0 <= i < |z| :: z[i] != APOSTROPHE
    ensures NextToken([APOSTROPHE] + z + [APOSTROPHE] + tail) == Token(z, tail)
  {
    var s, body := [APOSTROPHE] + z + [APOSTROPHE] + tail, z + [APOSTROPHE] + tail;
    assert s[0] == APOSTROPHE && s[1..] == body;
    RawLength(z, tail);
    assert body[..|z|] == z && body[|z| + 1..] == tail;
  }

  lemma {:induction false} RawLength(z: Text, tail: Text)
    requires forall i | 0 <= i < |z| :: z[i] != APOSTROPHE
    ensures QuotedLength(z + [APOSTROPHE] + tail, APOSTROPHE) == |z|
  {
    if z == [] {
      assert z + [APOSTROPHE] + tail == [APOSTROPHE] + tail;
    } else {
      assert (z + [APOSTROPHE] + tail)[1..] == z[1..] + [APOSTROPHE] + tail;
      RawLength(z[1..], tail);
    }
  }

  /** The three ways to write an argument: between double quotes, as a word, between single quotes. */
  datatype Arg = Quoted(z: Text) | Word(z: Text) | Raw(z: Text)

  predicate Writable(a: Arg) {
    match a
    case Quoted(_) => true
    case Word(z) => z != [] && z[0] != APOSTROPHE && forall i | 0 <= i < |z| :: z[i] != SPACE
    case Raw(z) => forall i | 0 <= i < |z| :: z[i] != APOSTROPHE
  }

  function ArgText(a: Arg): Text {
    match a
    case Quoted(z) => CString(z)
    case Word(z) => EscapeAll(z)
    case Raw(z) => [APOSTROPHE] + z + [APOSTROPHE]
  }

  /** Every argument is read back, however it is written. */
  lemma ArgReads(a: Arg, tail: Text)
    requires Writable(a) && (tail == [] || tail[0] == 32 || 9 <= tail[0] <= 13)
    ensures NextToken(ArgText(a) + tail) == Token(a.z, if a.Word? && tail != [] then tail[1..] else tail)
  {
    match a
    case Quoted(z) => QuotedReads(z, tail);
    case Word(z) => WordReads(z, tail);
    case Raw(z) => RawReads(z, tail);
  }

  /** An argument starts with neither a blank nor the end of the line. */
  lemma ArgStarts(a: Arg, tail: Text)
    requires Writable(a)
    ensures ArgText(a) + tail != [] && !IsSpace((ArgText(a) + tail)[0])
  {
    if a.Word? { EscapedStart(a.z); }
  }

  /** The arguments, each behind a space. */
  function ArgsText(args: seq<Arg>): Text {
    if args == [] then [] else [SPACE] + ArgText(args[0]) + ArgsText(args[1..])
  }

  function Values(args: seq<Arg>): (zs: seq<Text>)
    ensures |zs| == |args| && forall i | 0 <= i < |args| :: zs[i] == args[i].z
  {
    seq(|args|, i requires 0 <= i < |args| => args[i].z)
  }

  predicate AllWritable(args: seq<Arg>) {
    forall i | 0 <= i < |args| :: Writable(args[i])
  }

  function Min(a: nat, b: nat): nat {
    if a < b then a else b
  }

  /** What the tokenizer makes of a line; the trigger keeps the function folded. */
  ghost predicate ReadAs(line: Text, max: nat, args: seq<Text>) {
    forall s {:trigger Tokens(s, max)} :: s == line ==> Tokens(s, max) == args
  }

  /** Exactly the arguments come back; those beyond the limit are dropped. */
  lemma {:induction false} ArgsRead(args: seq<Arg>, max: nat)
    requires AllWritable(args)
    ensures ReadAs(ArgsText(args), max, Values(args)[..Min(max, |args|)])
  {
    if args == [] || max == 0 {
      NothingRead(ArgsText(args), max);
    } else {
      var tail := ArgsText(args[1..]);
      ArgsRead(args[1..], max - 1);
      FirstOnes(args, max);
      ArgStep(args[0], tail, max, Values(args[1..])[..Min(max - 1, |args| - 1)]);
      Assoc([SPACE], ArgText(args[0]), tail);
    }
  }

  lemma NothingRead(line: Text, max: nat)
    requires line == [] || max == 0
    ensures ReadAs(line, max, [])
  {}

  lemma {:induction false} ArgStep(a: Arg, tail: Text, max: nat, args: seq<Text>)
    requires Writable(a) && (tail == [] || tail[0] == SPACE) && max > 0 && ReadAs(tail, max - 1, args)
    ensures ReadAs([SPACE] + (ArgText(a) + tail), max, [a.z] + args)
  {
    var s, rest := ArgToken(a, tail);
    if rest != tail { SpaceRead(tail, max - 1, args); }
    StepRead([SPACE] + s, s, max, a.z, rest, args);
  }

  /** The argument in front of `tail`; the trigger keeps the tokenizer folded. */
  ghost predicate TokenRead(s: Text, z: Text, rest: Text) {
    s != [] && !IsSpace(s[0]) && forall x {:trigger NextToken(x)} :: x == s ==> NextToken(x) == Token(z, rest)
  }

  ghost predicate SkipsTo(line: Text, s: Text) {
    forall x {:trigger SkipSpace(x)} :: x == line ==> SkipSpace(x) == s
  }

  lemma ArgToken(a: Arg, tail: Text) returns (s: Text, rest: Text)
    requires Writable(a) && (tail == [] || tail[0] == SPACE)
    ensures s == ArgText(a) + tail && SkipsTo([SPACE] + s, s) && TokenRead(s, a.z, rest)
    ensures rest == tail || (tail != [] && rest == tail[1..])
  {
    s, rest := ArgText(a) + tail, if a.Word? && tail != [] then tail[1..] else tail;
    ArgStarts(a, tail);
    ArgReads(a, tail);
    OneSpace(s);
  }

  lemma StepRead(line: Text, s: Text, max: nat, z: Text, rest: Text, args: seq<Text>)
    requires max > 0 && SkipsTo(line, s) && TokenRead(s, z, rest) && ReadAs(rest, max - 1, args)
    ensures ReadAs(line, max, [z] + args)
  {
    assert SkipSpace(line) == s && NextToken(s) == Token(z, rest) && Tokens(rest, max - 1) == args;
  }

  lemma SpaceRead(tail: Text, max: nat, args: seq<Text>)
    requires tail != [] && IsSpace(tail[0]) && ReadAs(tail, max, args)
    ensures ReadAs(tail[1..], max, args)
  {
    assert Tokens(tail, max) == args && SkipSpace(tail) == SkipSpace(tail[1..]);
  }

  lemma FirstOnes(args: seq<Arg>, max: nat)
    requires args != [] && max > 0
    ensures Values(args)[..Min(max, |args|)] == [args[0].z] + Values(args[1..])[..Min(max - 1, |args| - 1)]
  {}

  lemma OneSpace(s: Text)
    ensures SkipSpace([SPACE] + s) == SkipSpace(s)
    ensures s != [] && !IsSpace(s[0]) ==> SkipSpace(s) == s
  {
    assert ([SPACE] + s)[1..] == s;
  }

  /** A word that needs no quoting, as the name of a command. */
  predicate PlainWord(w: Text) {
    w != [] && w[0] != 34 && w[0] != 39 && forall i | 0 <= i < |w| :: w[i] != 32 && !(9 <= w[i] <= 13) && w[i] != 92
  }

  lemma {:induction false} WordLengthOf(w: Text, tail: Text)
    requires forall i | 0 <= i < |w| :: !IsSpace(w[i])
    requires tail == [] || tail[0] == 32 || 9 <= tail[0] <= 13
    ensures WordLength(w + tail) == |w|
  {
    if w == [] {
      assert w + tail == tail;
    } else {
      assert (w + tail)[1..] == w[1..] + tail;
      WordLengthOf(w[1..], tail);
    }
  }

  lemma {:induction false} NothingToResolve(w: Text, rest: Text)
    requires forall i | 0 <= i < |w| :: w[i] != BACKSLASH
    ensures Resolve(w + rest) == w + Resolve(rest)
  {
    if w == [] {
      assert w + rest == rest;
    } else {
      assert (w + rest)[1..] == w[1..] + rest;
      NothingToResolve(w[1..], rest);
    }
  }

  const MAX_ARGS := 50

  /** The name is the first argument, and the space behind it is consumed. */
  lemma NameReads(name: Text, tail: Text)
    requires PlainWord(name) && (tail == [] || tail[0] == 32 || 9 <= tail[0] <= 13)
    ensures NextToken(name + tail) == Token(name, if tail == [] then [] else tail[1..])
  {
    var s := name + tail;
    WordLengthOf(name, tail);
    assert s[..|name|] == name && s[0] == name[0];
    NothingToResolve(name, []);
    assert name + [] == name;
    TextUpToNul(name);
    if tail != [] { assert s[|name| + 1..] == tail[1..]; }
  }

  lemma NameToken(name: Text, tail: Text) returns (rest: Text)
    requires PlainWord(name) && (tail == [] || tail[0] == 32 || 9 <= tail[0] <= 13)
    ensures SkipsTo(name + tail, name + tail) && TokenRead(name + tail, name, rest)
    ensures rest == tail || (tail != [] && rest == tail[1..])
  {
    rest := if tail == [] then [] else tail[1..];
    NameReads(name, tail);
    assert (name + tail)[0] == name[0];
    OneSpace(name + tail);
  }

  lemma AllRead(args: seq<Arg>, max: nat)
    requires AllWritable(args) && |args| <= max
    ensures ReadAs(ArgsText(args), max, Values(args))
  {
    ArgsRead(args, max);
    assert Values(args)[..|args|] == Values(args);
  }

  /** The line behind its dot: every command with at most 49 arguments is read back as it was given. */
  lemma {:induction false} CommandReads(name: Text, args: seq<Arg>)
    requires PlainWord(name) && |args| < 50 && AllWritable(args)
    ensures ReadAs(name + ArgsText(args), 50, [name] + Values(args))
  {
    AllRead(args, MAX_ARGS - 1);
    CommandOn(name, ArgsText(args), MAX_ARGS, Values(args));
  }

  lemma CommandOn(name: Text, tail: Text, max: nat, args: seq<Text>)
    requires PlainWord(name) && (tail == [] || tail[0] == 32 || 9 <= tail[0] <= 13) && max > 0 && ReadAs(tail, max - 1, args)
    ensures ReadAs(name + tail, max, [name] + args)
  {
    var rest := NameToken(name, tail);
    if rest != tail { SpaceRead(tail, max - 1, args); }
    StepRead(name + tail, name + tail, max, name, rest, args);
  }

  // ----- By bytes ---------------------------------------------------------------------------

  /** What output_c_string writes for each byte. */
  lemma EscapedByte(c: Char, z: Text)
    ensures c == 34 || c == 92 ==> EscapeAll([c] + z) == [92, c] + EscapeAll(z)
    ensures c == 9 ==> EscapeAll([c] + z) == [92, 116] + EscapeAll(z)
    ensures c == 10 ==> EscapeAll([c] + z) == [92, 110] + EscapeAll(z)
    ensures c == 13 ==> EscapeAll([c] + z) == [92, 114] + EscapeAll(z)
    ensures (c < 32 || c > 126) && c !in [9, 10, 13] ==>
              EscapeAll([c] + z) == [92, 48 + c / 64, 48 + c / 8 % 8, 48 + c % 8] + EscapeAll(z)
    ensures 32 <= c <= 126 && c != 34 && c != 92 ==> EscapeAll([c] + z) == [c] + EscapeAll(z)
  {
    assert ([c] + z)[0] == c && ([c] + z)[1..] == z;
  }

  /** What a backslash and a byte that is no octal digit are resolved to, in front of any text. */
  lemma ResolvedByte(c: Char, b: Text)
    requires !(48 <= c <= 55)
    ensures c == 97 ==> Resolve([92, c] + b) == [7] + Resolve(b)
    ensures c == 98 ==> Resolve([92, c] + b) == [8] + Resolve(b)
    ensures c == 116 ==> Resolve([92, c] + b) == [9] + Resolve(b)
    ensures c == 110 ==> Resolve([92, c] + b) == [10] + Resolve(b)
    ensures c == 118 ==> Resolve([92, c] + b) == [11] + Resolve(b)
    ensures c == 102 ==> Resolve([92, c] + b) == [12] + Resolve(b)
    ensures c == 114 ==> Resolve([92, c] + b) == [13] + Resolve(b)
    ensures c !in [97, 98, 116, 110, 118, 102, 114] ==> Resolve([92, c] + b) == [c] + Resolve(b)
  {
    ResolvePair(c, b);
  }

  lemma ResolvedDigits(d: Text, b: Text, v: byte)
    requires (forall i | 0 <= i < |d| :: IsOctal(d[i])) && 1 <= |d| <= 3 && (|d| == 3 || !IsOctal(Head(b))) && v == Octal(d) % 256
    ensures Resolve([92] + (d + b)) == [v] + Resolve(b)
  {
    OctalRun(d, b, 3);
    Split(d, b);
    assert ([92] + (d + b))[1..] == d + b;
  }

  /** One octal digit is resolved to its value. */
  lemma ResolvedOne(x: Char, b: Text, v: byte)
    requires 48 <= x <= 55 && !(48 <= Head(b) <= 55) && v == x - 48
    ensures Resolve([92, x] + b) == [v] + Resolve(b)
  {
    OctalOne(x);
    ResolvedDigits([x], b, v);
    assert [92] + ([x] + b) == [92, x] + b;
  }

  /** Two are. */
  lemma ResolvedTwo(x: Char, y: Char, b: Text, v: byte)
    requires 48 <= x <= 55 && 48 <= y <= 55 && !(48 <= Head(b) <= 55) && v == 8 * (x - 48) + (y - 48)
    ensures Resolve([92, x, y] + b) == [v] + Resolve(b)
  {
    OctalTwo(x, y);
    ResolvedDigits([x, y], b, v);
    assert [92] + ([x, y] + b) == [92, x, y] + b;
  }

  /** And three, modulo 256. */
  lemma ResolvedThree(x: Char, y: Char, z: Char, b: Text, v: byte)
    requires 48 <= x <= 55 && 48 <= y <= 55 && 48 <= z <= 55 && v == (64 * (x - 48) + 8 * (y - 48) + (z - 48)) % 256
    ensures Resolve([92, x, y, z] + b) == [v] + Resolve(b)
  {
    OctalThree(x, y, z);
    ResolvedDigits([x, y, z], b, v);
    assert [92] + ([x, y, z] + b) == [92, x, y, z] + b;
  }

  /** What the comment above resolve_backslashes promises for a letter or mark. */
  function Documented(c: Char): Option<byte> {
    if c == 97 then Some(7) else if c == 98 then Some(8) else if c == 116 then Some(9) else if c == 110 then Some(10)
    else if c == 118 then Some(11) else if c == 102 then Some(12) else if c == 114 then Some(13) else if c == 115 then Some(32)
    else if c == 34 || c == 39 || c == 92 then Some(c) else None
  }

  /** It is kept but for `\s`, which is no space. */
  lemma DocumentedIff(c: Char, b: Text)
    requires Documented(c).Some?
    ensures Resolve([92, c] + b) == [Documented(c).value] + Resolve(b) <==> c != 115
  {
    ResolvedByte(c, b);
    if c == 115 { assert ([115 as byte] + Resolve(b))[0] != ([32 as byte] + Resolve(b))[0]; }
  }

  lemma SpaceInput()
    ensures Resolve([92, 115]) == [115] && Documented(115) == Some(32)
  {
    ResolvedByte(115, []);
    assert [92, 115] + [] == [92, 115] && [115] + Resolve([]) == [115];
  }

  // ----- In place: resolve_backslashes -------------------------------------------------------

  /** The octal digits from `i` on: the last one read is returned. */
  method ReadOctal(z: array<byte>, at: nat, i: nat, ghost t: Text) returns (c: byte, last: nat)
    requires i < |t| && IsOctal(t[i]) && RestAt(z, at, t, i)
    ensures i <= last < |t| && c == Escape(t[i..]).0 && last + 1 - i == Escape(t[i..]).1
  {
    OctalDigits(t, i);
    assert z[at + i] == t[i] && z[at + i + 1] == Peek(t, i + 1);
    c, last := z[at + i] - ZERO, i;
    if IsOctal(z[at + i + 1]) {
      last := i + 1;
      c := c * 8 + (z[at + i + 1] - ZERO);
      if IsOctal(z[at + i + 2]) {
        last := i + 2;
        c := (c * 8 + (z[at + i + 2] - ZERO)) % 256;
      }
    }
  }

  lemma OctalLengthStep(t: Text, i: nat, max: nat)
    requires i <= |t| && max > 0
    ensures OctalLength(t[i..], max) == if IsOctal(Peek(t, i)) then 1 + OctalLength(t[i + 1..], max - 1) else 0
  {
    if i < |t| { assert t[i..][1..] == t[i + 1..]; }
  }

  lemma OctalAppend(s: Text, c: Char)
    requires (forall k | 0 <= k < |s| :: IsOctal(s[k])) && IsOctal(c)
    ensures Octal(s + [c]) == 8 * Octal(s) + (c - ZERO)
  {
    assert (s + [c])[..|s|] == s;
  }

  lemma {:induction false} OctalRun(d: Text, b: Text, max: nat)
    requires (forall i | 0 <= i < |d| :: IsOctal(d[i])) && |d| <= max && (|d| == max || !IsOctal(Head(b)))
    ensures OctalLength(d + b, max) == |d|
  {
    if d == [] {
      assert d + b == b;
    } else {
      assert (d + b)[1..] == d[1..] + b;
      OctalRun(d[1..], b, max - 1);
    }
  }

  lemma OctalOne(x: Char)
    requires IsOctal(x)
    ensures Octal([x]) == x - ZERO
  {
    OctalAppend([], x);
    assert [] + [x] == [x];
  }

  lemma OctalTwo(x: Char, y: Char)
    requires IsOctal(x) && IsOctal(y)
    ensures Octal([x, y]) == (x - ZERO) * 8 + (y - ZERO)
  {
    OctalOne(x);
    OctalAppend([x], y);
    assert [x] + [y] == [x, y];
  }

  lemma OctalThree(x: Char, y: Char, z: Char)
    requires IsOctal(x) && IsOctal(y) && IsOctal(z)
    ensures Octal([x, y, z]) == ((x - ZERO) * 8 + (y - ZERO)) * 8 + (z - ZERO)
  {
    OctalTwo(x, y);
    OctalAppend([x, y], z);
    assert [x, y] + [z] == [x, y, z];
  }

  /** An octal escape, digit by digit. */
  lemma OctalDigits(t: Text, i: nat)
    requires i < |t| && IsOctal(t[i])
    ensures var e := Escape(t[i..]);
            if !IsOctal(Peek(t, i + 1)) then e.1 == 1 && e.0 == t[i] - ZERO
            else if !IsOctal(Peek(t, i + 2)) then e.1 == 2 && e.0 == (t[i] - ZERO) * 8 + (t[i + 1] - ZERO)
            else e.1 == 3 && e.0 == (((t[i] - ZERO) * 8 + (t[i + 1] - ZERO)) * 8 + (t[i + 2] - ZERO)) % 256
  {
    if !IsOctal(Peek(t, i + 1)) { OneDigit(t, i); }
    else if !IsOctal(Peek(t, i + 2)) { TwoDigits(t, i); }
    else { ThreeDigits(t, i); }
  }

  lemma OneDigit(t: Text, i: nat)
    requires i < |t| && IsOctal(t[i]) && !IsOctal(Peek(t, i + 1))
    ensures Escape(t[i..]) == (t[i] - ZERO, 1)
  {
    OctalOne(t[i]);
    EscapeDigits(t, i, [t[i]]);
  }

  lemma TwoDigits(t: Text, i: nat)
    requires i < |t| && IsOctal(t[i]) && IsOctal(Peek(t, i + 1)) && !IsOctal(Peek(t, i + 2))
    ensures Escape(t[i..]) == ((t[i] - ZERO) * 8 + (t[i + 1] - ZERO), 2)
  {
    OctalTwo(t[i], t[i + 1]);
    EscapeDigits(t, i, [t[i], t[i + 1]]);
  }

  lemma ThreeDigits(t: Text, i: nat)
    requires i < |t| && IsOctal(t[i]) && IsOctal(Peek(t, i + 1)) && IsOctal(Peek(t, i + 2))
    ensures Escape(t[i..]) == ((((t[i] - ZERO) * 8 + (t[i + 1] - ZERO)) * 8 + (t[i + 2] - ZERO)) % 256, 3)
  {
    OctalThree(t[i], t[i + 1], t[i + 2]);
    EscapeDigits(t, i, [t[i], t[i + 1], t[i + 2]]);
  }

  lemma EscapeDigits(t: Text, i: nat, d: Text)
    requires 1 <= |d| <= 3 && i + |d| <= |t| && forall k | 0 <= k < |d| :: d[k] == t[i + k] && IsOctal(d[k])
    requires |d| == 3 || !IsOctal(Peek(t, i + |d|))
    ensures Escape(t[i..]).0 == Octal(d) % 256 && Escape(t[i..]).1 == |d|
  {
    var rest := t[i + |d|..];
    assert t[i..] == d + rest && Head(rest) == Peek(t, i + |d|);
    OctalRun(d, rest, 3);
    Split(d, rest);
  }

  /** With `done` resolved so far, the rest from `i` on makes it `r`; the trigger keeps the function folded. */
  ghost predicate Makes(t: Text, i: nat, done: seq<byte>, r: seq<byte>) {
    i <= |t| && forall s {:trigger Resolve(s)} :: s == t[i..] ==> done + Resolve(s) == r
  }

  /** One turn of the loop: the byte to store, and the index of the last one read for it. */
  method ResolveOne(z: array<byte>, at: nat, i: nat, ghost t: Text, ghost done: seq<byte>, ghost r: seq<byte>)
    returns (c: byte, last: nat)
    requires i < |t| && RestAt(z, at, t, i) && Makes(t, i, done, r)
    ensures i <= last < |t| && Makes(t, last + 1, done + [c], r)
  {
    assert z[at + i] == t[i] && z[at + i + 1] == Peek(t, i + 1);
    c, last := z[at + i], i;
    if c == BACKSLASH && z[at + i + 1] != 0 {
      if IsOctal(z[at + i + 1]) {
        c, last := ReadOctal(z, at, i + 1, t);
      } else {
        last := i + 1;
        c := Letter(z[at + last]);
        OctalLengthStep(t, i + 1, 3);
      }
      MakesEscaped(t, i, done, r, c, last);
    } else {
      MakesPlain(t, i, done, r);
    }
  }

  lemma MakesEscaped(t: Text, i: nat, done: seq<byte>, r: seq<byte>, c: byte, last: nat)
    requires i + 1 < |t| && t[i] == BACKSLASH && Makes(t, i, done, r) && last > i
    requires c == Escape(t[i + 1..]).0 && last - i == Escape(t[i + 1..]).1
    ensures Makes(t, last + 1, done + [c], r)
  {
    assert t[i..][1..] == t[i + 1..] && t[i + 1..][last - i..] == t[last + 1..];
    OneMore(done, c, Resolve(t[last + 1..]));
    assert Resolve(t[i..]) == [c] + Resolve(t[last + 1..]);
  }

  lemma MakesPlain(t: Text, i: nat, done: seq<byte>, r: seq<byte>)
    requires i < |t| && (t[i] != BACKSLASH || i + 1 == |t|) && Makes(t, i, done, r)
    ensures Makes(t, i + 1, done + [t[i]], r)
  {
    assert t[i..][1..] == t[i + 1..];
    OneMore(done, t[i], Resolve(t[i + 1..]));
    assert Resolve(t[i..]) == [t[i]] + Resolve(t[i + 1..]);
  }

  lemma OneMore(done: seq<byte>, c: byte, rest: seq<byte>)
    ensures done + ([c] + rest) == done + [c] + rest
  {}

  /** From the first backslash on the string is rewritten; the write index never passes the read index. */
  method ResolveBackslashes(z: array<byte>, at: nat, ghost t: Text)
    requires StrAt(z, at, t)
    modifies z
    ensures StrAt(z, at, UpToNul(Resolve(t)))
    ensures z[at + |t|] == 0 && forall k | 0 <= k < at || at + |t| < k < z.Length :: z[k] == old(z[k])
  {
    RestStarts(z, at, t);
    var p := at;
    while z[p] != 0 && z[p] != BACKSLASH
      invariant at <= p <= at + |t| && forall k | 0 <= k < p - at :: t[k] != BACKSLASH
      decreases at + |t| - p
    {
      p := p + 1;
    }
    ghost var head, u := t[..p - at], t[p - at..];
    assert RestAt(z, p, u, 0);
    ghost var r := HeadStays(t, p - at);
    var j := ResolveRest(z, p, u, r);
    Joined(z, at, head, r);
    Seen(z, at, head + r);
  }

  /** Resolving starts at the first backslash. */
  lemma {:induction false} HeadStays(t: Text, n: nat) returns (r: seq<byte>)
    requires n <= |t| && forall k | 0 <= k < n :: t[k] != BACKSLASH
    ensures Makes(t[n..], 0, [], r) && Resolve(t) == t[..n] + r
  {
    var u := t[n..];
    assert u[0..] == u && t[..n] + u == t;
    r := Resolve(u);
    assert [] + r == r;
    NothingToResolve(t[..n], u);
  }

  lemma Joined(z: array<byte>, at: nat, a: seq<byte>, b: seq<byte>)
    requires BytesAt(z, at, a) && BytesAt(z, at + |a|, b)
    ensures BytesAt(z, at, a + b)
  {}

  method ResolveRest(z: array<byte>, p: nat, ghost u: Text, ghost r: seq<byte>) returns (j: nat)
    requires RestAt(z, p, u, 0) && Makes(u, 0, [], r)
    modifies z
    ensures j == |r| && p + j < z.Length && BytesAt(z, p, r) && z[p + j] == 0 && z[p + |u|] == 0
    ensures forall k | 0 <= k < p || p + |u| < k < z.Length :: z[k] == old(z[k])
  {
    var i := 0;
    j := 0;
    ghost var done: seq<byte> := [];
    while z[p + i] != 0
      invariant j <= i <= |u| && RestAt(z, p, u, i) && |done| == j && BytesAt(z, p, done) && Makes(u, i, done, r)
      invariant forall k | 0 <= k < p || p + |u| < k < z.Length :: z[k] == old(z[k])
      decreases |u| - i
    {
      var c, last := ResolveOne(z, p, i, u, done, r);
      z[p + j] := c;
      done := done + [c];
      i := last + 1;
      j := j + 1;
    }
    MakesAll(u, done, r);
    if j < i { z[p + j] := 0; }
  }

  lemma MakesAll(u: Text, done: seq<byte>, r: seq<byte>)
    requires Makes(u, |u|, done, r)
    ensures done == r
  {
    assert Resolve(u[|u|..]) == [] && done + [] == done;
  }

  lemma Seen(z: array<byte>, at: nat, r: seq<byte>)
    requires at + |r| < z.Length && BytesAt(z, at, r) && z[at + |r|] == 0
    ensures StrAt(z, at, UpToNul(r))
  {
    var t := UpToNul(r);
    Prefixed(r, t);
    SeenFront(z, at, r, t);
  }

  lemma SeenFront(z: array<byte>, at: nat, r: seq<byte>, t: Text)
    requires at + |r| < z.Length && BytesAt(z, at, r) && z[at + |r|] == 0
    requires |t| <= |r| && (forall k | 0 <= k < |t| :: t[k] == r[k]) && (|t| < |r| ==> r[|t|] == 0)
    ensures StrAt(z, at, t)
  {
    assert |t| < |r| ==> z[at + |t|] == r[|t|];
  }

  lemma Prefixed(r: seq<byte>, t: seq<byte>)
    requires |t| <= |r| && r[..|t|] == t
    ensures forall k | 0 <= k < |t| :: t[k] == r[k]
  {
    assert forall k | 0 <= k < |t| :: t[k] == r[..|t|][k];
  }

  // ----- In place: the tokenizer -------------------------------------------------------------

  method SkipSpaces(z: array<byte>, at: nat, ghost t: Text) returns (h: nat)
    requires at <= |t| && RestAt(z, 0, t, at)
    ensures at <= h <= |t| && SkipSpace(t[at..]) == t[h..] && !IsSpace(Peek(t, h))
  {
    h := at;
    while IsSpace(z[h])
      invariant at <= h <= |t| && SkipSpace(t[h..]) == SkipSpace(t[at..])
      decreases |t| - h
    {
      assert t[h..][1..] == t[h + 1..];
      h := h + 1;
    }
  }

  method QuotedEnd(z: array<byte>, at: nat, delim: Char, ghost t: Text) returns (h: nat)
    requires at <= |t| && RestAt(z, 0, t, at)
    ensures at <= h <= |t| && h - at == QuotedLength(t[at..], delim)
  {
    h := at;
    while z[h] != 0 && z[h] != delim
      invariant at <= h <= |t| && h - at + QuotedLength(t[h..], delim) == QuotedLength(t[at..], delim)
      decreases |t| - h
    {
      assert t[h..][1..] == t[h + 1..] && (h + 1 < |t| ==> t[h..][2..] == t[h + 2..]);
      if z[h] == BACKSLASH && delim == QUOTE && z[h + 1] != 0 { h := h + 1; }
      h := h + 1;
    }
  }

  method WordEnd(z: array<byte>, at: nat, ghost t: Text) returns (h: nat)
    requires at <= |t| && RestAt(z, 0, t, at)
    ensures at <= h <= |t| && h - at == WordLength(t[at..])
  {
    h := at;
    while z[h] != 0 && !IsSpace(z[h])
      invariant at <= h <= |t| && h - at + WordLength(t[h..]) == WordLength(t[at..])
      decreases |t| - h
    {
      assert t[h..][1..] == t[h + 1..];
      h := h + 1;
    }
  }

  /** The argument that starts at `at` and ends before `end` gets its terminator. */
  method Terminate(z: array<byte>, at: nat, end: nat, ghost t: Text) returns (h: nat)
    requires at <= end <= |t| && RestAt(z, 0, t, at)
    modifies z
    ensures StrAt(z, at, t[at..end]) && h == (if end < |t| then end + 1 else end) && RestAt(z, 0, t, h)
    ensures forall k | 0 <= k < z.Length && k != end :: z[k] == old(z[k])
  {
    h := end;
    if z[h] != 0 {
      z[h] := 0;
      h := h + 1;
    }
  }

  /** What is taken over from between two indices. */
  function Taken(first: byte, body: Text): (arg: Text)
    ensures |arg| <= |body|
  {
    if first == APOSTROPHE then body else UpToNul(Resolve(body))
  }

  /** The argument between `a` and `end` is cut out and, unless single quotes protect it, resolved. */
  method CutOut(z: array<byte>, a: nat, end: nat, first: byte, ghost t: Text) returns (h: nat)
    requires a <= end <= |t| && RestAt(z, 0, t, a)
    modifies z
    ensures StrAt(z, a, Taken(first, t[a..end])) && h == (if end < |t| then end + 1 else end) && RestAt(z, 0, t, h)
    ensures forall k | 0 <= k < a :: z[k] == old(z[k])
  {
    h := Terminate(z, a, end, t);
    if first != APOSTROPHE { ResolveBackslashes(z, a, t[a..end]); }
  }

  /** Where the argument that starts at `at` begins and ends. */
  method FindEnd(z: array<byte>, at: nat, ghost t: Text) returns (a: nat, end: nat)
    requires at < |t| && RestAt(z, 0, t, at) && !IsSpace(t[at])
    ensures at <= a <= end <= |t| && (at < end || end < |t|)
    ensures NextToken(t[at..]) == Token(Taken(t[at], t[a..end]), if end < |t| then t[end + 1..] else [])
  {
    assert z[at] == t[at];
    if IsDelim(z[at]) {
      a := at + 1;
      end := QuotedEnd(z, a, z[at], t);
      TokenQuoted(t, at, end);
    } else {
      a := at;
      end := WordEnd(z, a, t);
      TokenWord(t, at, end);
    }
  }

  /** One argument: `a` is where it starts, `h` where reading goes on. */
  method NextArg(z: array<byte>, at: nat, ghost t: Text) returns (a: nat, h: nat, ghost arg: Text)
    requires at < |t| && RestAt(z, 0, t, at) && !IsSpace(t[at])
    modifies z
    ensures at < h <= |t| && NextToken(t[at..]) == Token(arg, t[h..])
    ensures RestAt(z, 0, t, h) && StrAt(z, a, arg) && (h < |t| ==> a + |arg| < h)
    ensures forall k | 0 <= k < at :: z[k] == old(z[k])
  {
    var end;
    var first := z[at];
    a, end := FindEnd(z, at, t);
    arg := Taken(first, t[a..end]);
    h := CutOut(z, a, end, first, t);
    assert end == |t| ==> t[h..] == [];
  }

  lemma TokenQuoted(t: Text, at: nat, end: nat)
    requires at < end <= |t| && IsDelim(t[at]) && end - (at + 1) == QuotedLength(t[at + 1..], t[at])
    ensures NextToken(t[at..]) == Token(Taken(t[at], t[at + 1..end]), if end < |t| then t[end + 1..] else [])
  {
    var s, n := t[at + 1..], end - (at + 1);
    assert t[at..][1..] == s && s[..n] == t[at + 1..end];
    if end < |t| { assert s[n + 1..] == t[end + 1..]; }
  }

  lemma TokenWord(t: Text, at: nat, end: nat)
    requires at < |t| && !IsDelim(t[at]) && !IsSpace(t[at]) && at <= end <= |t| && end - at == WordLength(t[at..])
    ensures at < end
    ensures NextToken(t[at..]) == Token(Taken(t[at], t[at..end]), if end < |t| then t[end + 1..] else [])
  {
    var s, n := t[at..], end - at;
    assert s[..n] == t[at..end];
    if end < |t| { assert s[n + 1..] == t[end + 1..]; }
  }

  /** The arguments found so far, all before the part of the line that is still to be read. */
  ghost predicate Args(z: array<byte>, azArg: array<nat>, args: seq<Text>, h: nat, size: nat)
    reads z, azArg
  {
    && |args| <= azArg.Length
    && forall k | 0 <= k < |args| :: StrAt(z, azArg[k], args[k]) && (h < size ==> azArg[k] + |args[k]| < h)
  }

  /** With `done` found so far, the line from `h` on makes it `args`. */
  ghost predicate Gives(t: Text, h: nat, max: nat, done: seq<Text>, args: seq<Text>) {
    h <= |t| && forall s {:trigger Tokens(s, max)} :: s == t[h..] ==> done + Tokens(s, max) == args
  }

  lemma GivesNext(t: Text, at: nat, from: nat, h: nat, max: nat, done: seq<Text>, arg: Text, args: seq<Text>)
    requires at <= from < |t| && h <= |t| && max > 0 && Gives(t, at, max, done, args)
    requires SkipSpace(t[at..]) == t[from..] && !IsSpace(t[from]) && NextToken(t[from..]) == Token(arg, t[h..])
    ensures Gives(t, h, max - 1, done + [arg], args)
  {
    TokensStep(t[at..], t[from..], max, arg, t[h..]);
    Regroup(done, arg, Tokens(t[h..], max - 1));
  }

  lemma TokensStep(s: Text, s1: Text, max: nat, arg: Text, rest: Text)
    requires max > 0 && s1 != [] && SkipSpace(s) == s1 && !IsSpace(s1[0]) && NextToken(s1) == Token(arg, rest)
    ensures Tokens(s, max) == [arg] + Tokens(rest, max - 1)
  {}

  lemma Regroup(done: seq<Text>, arg: Text, rest: seq<Text>)
    ensures done + ([arg] + rest) == done + [arg] + rest
  {}

  lemma GivesAll(t: Text, at: nat, max: nat, done: seq<Text>, args: seq<Text>)
    requires Gives(t, at, max, done, args) && (max == 0 || SkipSpace(t[at..]) == [])
    ensures done == args
  {
    assert Tokens(t[at..], max) == [] && done + [] == done;
  }

  /** The head of do_meta_command: the line is cut up and resolved in place. */
  method Tokenize(zLine: array<byte>, azArg: array<nat>, ghost t: Text) returns (nArg: nat)
    requires StrAt(zLine, 0, t) && t != [] && azArg.Length == 50
    modifies zLine, azArg
    ensures nArg == |Tokens(t[1..], 50)|
    ensures forall k | 0 <= k < nArg :: StrAt(zLine, azArg[k], Tokens(t[1..], 50)[k])
  {
    ghost var args, done: seq<Text> := Tokens(t[1..], MAX_ARGS), [];
    RestStarts(zLine, 0, t);
    GivesFirst(t, args);
    var h, more := 1, true;
    nArg := 0;
    while more && zLine[h] != 0 && nArg < azArg.Length
      invariant 1 <= h <= |t| && RestAt(zLine, 0, t, h) && |done| == nArg <= MAX_ARGS
      invariant Args(zLine, azArg, done, h, |t|)
      invariant Gives(t, h, MAX_ARGS - nArg, done, args) && (!more ==> SkipSpace(t[h..]) == [])
      decreases |t| - h, more
    {
      more, h, nArg, done := AddArg(zLine, azArg, h, nArg, t, done, args);
    }
    assert more && nArg < MAX_ARGS ==> t[h..] == [];
    GivesAll(t, h, MAX_ARGS - nArg, done, args);
  }

  /** One turn of the loop; blanks at the end of the line are no argument. */
  method AddArg(zLine: array<byte>, azArg: array<nat>, at: nat, n: nat, ghost t: Text, ghost done: seq<Text>, ghost args: seq<Text>)
    returns (more: bool, h: nat, nArg: nat, ghost done': seq<Text>)
    requires at < |t| && RestAt(zLine, 0, t, at) && azArg.Length == MAX_ARGS > n == |done|
    requires Args(zLine, azArg, done, at, |t|) && Gives(t, at, MAX_ARGS - n, done, args)
    modifies zLine, azArg
    ensures at <= h <= |t| && RestAt(zLine, 0, t, h) && |done'| == nArg <= MAX_ARGS
    ensures Args(zLine, azArg, done', h, |t|) && Gives(t, h, MAX_ARGS - nArg, done', args)
    ensures if more then at < h else h == at && SkipSpace(t[h..]) == []
  {
    h, nArg, done' := at, n, done;
    var from := SkipSpaces(zLine, at, t);
    more := zLine[from] != 0;
    if !more {
      assert t[from..] == [];
      return;
    }
    ghost var arg;
    var a;
    a, h, arg := CutNext(zLine, azArg, at, from, n, t, done);
    GivesNext(t, at, from, h, MAX_ARGS - n, done, arg, args);
    nArg := n + 1;
    done' := done + [arg];
  }

  /** The next argument is cut out and put into the table behind the ones before it. */
  method CutNext(zLine: array<byte>, azArg: array<nat>, ghost at: nat, from: nat, n: nat, ghost t: Text, ghost done: seq<Text>)
    returns (a: nat, h: nat, ghost arg: Text)
    requires at <= from < |t| && RestAt(zLine, 0, t, from) && !IsSpace(t[from]) && n == |done| < azArg.Length
    requires Args(zLine, azArg, done, at, |t|)
    modifies zLine, azArg
    ensures from < h <= |t| && NextToken(t[from..]) == Token(arg, t[h..]) && RestAt(zLine, 0, t, h)
    ensures Args(zLine, azArg, done + [arg], h, |t|)
  {
    a, h, arg := NextArg(zLine, from, t);
    assert forall k | 0 <= k < n :: StrAt(zLine, azArg[k], done[k]);
    azArg[n] := a;
  }

  lemma GivesFirst(t: Text, args: seq<Text>)
    requires t != [] && args == Tokens(t[1..], MAX_ARGS)
    ensures Gives(t, 1, MAX_ARGS, [], args)
  {
    assert [] + args == args;
  }

  /** A command line comes back, in place, as its arguments, each written in any of the three ways. */
  method RunCommand(name: Text, args: seq<Arg>, zLine: array<byte>, azArg: array<nat>) returns (nArg: nat)
    requires PlainWord(name) && |args| < 50 && AllWritable(args) && azArg.Length == 50
    requires StrAt(zLine, 0, [POINT] + (name + ArgsText(args)))
    modifies zLine, azArg
    ensures nArg == 1 + |args| && StrAt(zLine, azArg[0], name)
    ensures forall k | 0 <= k < |args| :: StrAt(zLine, azArg[1 + k], args[k].z)
  {
    ghost var line := name + ArgsText(args);
    assert ([POINT] + line)[1..] == line;
    CommandReads(name, args);
    assert Tokens(line, MAX_ARGS) == [name] + Values(args);
    nArg := Tokenize(zLine, azArg, [POINT] + line);
    AllPlaced(zLine, azArg, name, args);
  }

  lemma AllPlaced(zLine: array<byte>, azArg: array<nat>, name: Text, args: seq<Arg>)
    requires azArg.Length > |args|
    requires var all := [name] + Values(args); forall k | 0 <= k < |all| :: StrAt(zLine, azArg[k], all[k])
    ensures StrAt(zLine, azArg[0], name) && forall k | 0 <= k < |args| :: StrAt(zLine, azArg[1 + k], args[k].z)
  {
    var all := [name] + Values(args);
    assert all[0] == name;
    forall k | 0 <= k < |args| ensures StrAt(zLine, azArg[1 + k], args[k].z) { assert all[1 + k] == args[k].z; }
  }
}
