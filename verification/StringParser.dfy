/** parse_string as written: a counting pass, then a decoding pass into a block of that size. */
module StringParser {
  import opened Bytes
  import opened Json

  /** No backslash stands before the terminator, so the two-byte steps stay inside the text. */
  predicate Source(s: Text) {
    s == [] || s[|s| - 1] != BACKSLASH
  }

  /** How often the first pass increments `len`: once a byte, once an escape pair. */
  function UnitCount(b: Text): (n: nat) {
    if b == [] then 0
    else if b[0] == BACKSLASH && |b| > 1 then 1 + UnitCount(b[2..])
    else 1 + UnitCount(b[1..])
  }

  /** No escape pair is cut off at the end. */
  predicate Paired(b: Text) {
    b == [] || if b[0] == BACKSLASH then |b| > 1 && Paired(b[2..]) else Paired(b[1..])
  }

  lemma {:induction false} BodyPaired(s: Text)
    requires Source(s)
    ensures Paired(s[..BodyLength(s)])
    decreases |s|
  {
    var n := BodyLength(s);
    if s != [] && s[0] == BACKSLASH {
      BodyPaired(s[2..]);
      assert s[..n][2..] == s[2..][..n - 2];
    } else if s != [] && s[0] != QUOTE {
      BodyPaired(s[1..]);
      assert s[..n][1..] == s[1..][..n - 1];
    }
  }

  lemma {:induction false} HexPaired(h: Text, b: Text)
    requires AllHex(h)
    ensures Paired(h + b) == Paired(b) && UnitCount(h + b) == |h| + UnitCount(b)
  {
    if h == [] {
      assert h + b == b;
    } else {
      assert (h + b)[1..] == h[1..] + b;
      HexPaired(h[1..], b);
    }
  }

  /** A \u escape counts five times in the first pass. */
  lemma HexEscape(b: Text)
    requires |b| >= 6 && b[0] == BACKSLASH && AllHex(b[2..6])
    ensures Paired(b) == Paired(b[6..]) && UnitCount(b) == 5 + UnitCount(b[6..])
  {
    HexPaired(b[2..6], b[6..]);
    assert b[2..] == b[2..6] + b[6..];
  }

  /** No step of the second pass writes more than the first pass counted for it. */
  lemma {:induction false} UnicodeStep(b: Text)
    requires |b| > 1 && b[0] == BACKSLASH && b[1] == 'u' as int && Paired(b) && UnicodeEscape(b).Some?
    ensures var (u, n) := UnicodeEscape(b).value;
            Paired(b[n..]) && |Utf8(u)| + UnitCount(b[n..]) <= UnitCount(b)
  {
    HexEscape(b);
    if UnicodeEscape(b).value.1 == 12 {
      assert b[6..][2..6] == b[8..12];
      HexEscape(b[6..]);
      assert b[6..][6..] == b[12..];
    }
  }

  /** The first pass. */
  method Scan(text: Text, at: nat) returns (end: nat, len: nat)
    requires Source(text) && at <= |text|
    ensures end == BodyEnd(text, at) && end <= |text| && !IsHex(Peek(text, end))
    ensures Paired(text[at..end]) && len == UnitCount(text[at..end])
  {
    ghost var stop := BodyEnd(text, at);
    ScanStart(text, at);
    end, len := at, 0;
    while Peek(text, end) != QUOTE && Peek(text, end) != 0
      invariant at <= end <= stop <= |text| && BodyEnd(text, end) == stop
      invariant len + UnitCount(text[end..stop]) == UnitCount(text[at..stop])
      decreases |text| - end
    {
      ScanStep(text, end, stop);
      len := len + 1;
      if text[end] == BACKSLASH {
        end := end + 1;
      }
      end := end + 1;
    }
    assert text[end..stop] == [];
  }

  lemma ScanStart(text: Text, at: nat)
    requires Source(text) && at <= |text|
    ensures BodyEnd(text, at) <= |text| && Paired(text[at..BodyEnd(text, at)])
  {
    BodyPaired(text[at..]);
    assert text[at..BodyEnd(text, at)] == text[at..][..BodyLength(text[at..])];
  }

  lemma ScanStep(text: Text, i: nat, stop: nat)
    requires Source(text) && i < |text| && text[i] != QUOTE && stop == BodyEnd(text, i)
    ensures var k := if text[i] == BACKSLASH then 2 else 1;
            && i + k <= stop <= |text| && stop == BodyEnd(text, i + k)
            && UnitCount(text[i..stop]) == 1 + UnitCount(text[i + k..stop])
  {
    var k := if text[i] == BACKSLASH then 2 else 1;
    assert text[i..][k..] == text[i + k..];
    assert text[i..stop][k..] == text[i + k..stop];
  }

  /** parse_hex4; a byte that is no digit ends the reading, so the terminator is never passed. */
  method ParseHex4(text: Text, i: nat) returns (h: nat)
    requires i <= |text|
    ensures i + 4 <= |text| ==> h == Hex4(text[i..i + 4])
    ensures i + 4 > |text| ==> h == 0
  {
    if !IsHex(Peek(text, i)) { return 0; }
    h := HexDigit(text[i]) * 16;
    if !IsHex(Peek(text, i + 1)) { return 0; }
    h := (h + HexDigit(text[i + 1])) * 16;
    if !IsHex(Peek(text, i + 2)) { return 0; }
    h := (h + HexDigit(text[i + 2])) * 16;
    if !IsHex(Peek(text, i + 3)) { return 0; }
    h := h + HexDigit(text[i + 3]);
  }

  /** The second half of a surrogate pair; `ptr` is at the last digit of the first. */
  method ReadSecond(text: Text, ptr: nat, end: nat) returns (uc2: nat)
    requires 5 <= ptr < end <= |text| && !IsHex(Peek(text, end))
    ensures uc2 == SecondUnit(text[ptr - 5..end])
  {
    if ptr + 6 > end { return 0; }
    if Peek(text, ptr + 1) != BACKSLASH || Peek(text, ptr + 2) != 'u' as int { return 0; }
    uc2 := ParseHex4(text, ptr + 3);
    if ptr + 6 < end {
      Subslice(text, ptr - 5, end, 8, 12);
    } else if ptr + 6 < |text| {
      assert text[ptr + 3..ptr + 7][3] == text[end];
    }
  }

  lemma PairValue(u: nat, u2: nat)
    requires HighSurrogate(u) && LowSurrogate(u2)
    ensures 0x10000 + u % 0x400 * 0x400 + u2 % 0x400 == Combine(u, u2)
  {}

  /** The \u case: `at` is at the backslash; on success `next` is past the last digit. */
  method ReadUnicode(text: Text, at: nat, end: nat) returns (ok: bool, uc: nat, next: nat)
    requires at + 1 < end <= |text| && text[at] == BACKSLASH && text[at + 1] == 'u' as int
    requires !IsHex(Peek(text, end))
    ensures ok == UnicodeEscape(text[at..end]).Some?
    ensures ok ==> uc == UnicodeEscape(text[at..end]).value.0 && next == at + UnicodeEscape(text[at..end]).value.1
  {
    ghost var b := text[at..end];
    ok, next := false, at;
    var ptr := at + 1;
    uc := ParseHex4(text, ptr + 1);
    ptr := ptr + 4;
    if ptr >= end { return; }
    Subslice(text, at, end, 2, 6);
    assert |b| >= 6 && uc == Hex4(b[2..6]);
    if LowSurrogate(uc) || uc == 0 { return; }
    if HighSurrogate(uc) {
      var uc2 := ReadSecond(text, ptr, end);
      if !LowSurrogate(uc2) { return; }
      ptr := ptr + 6;
      PairValue(uc, uc2);
      uc := 0x10000 + uc % 0x400 * 0x400 + uc2 % 0x400;
    }
    ok, next := true, ptr + 1;
  }

  /** The fall-through switch that stores a code point from its last byte back to its first. */
  method StoreUtf8(out: array<byte>, at: nat, u: nat) returns (i: nat)
    requires Scalar(u) && at + Utf8Length(u) <= out.Length
    modifies out
    ensures i == at + Utf8Length(u) && out[..i] == old(out[..at]) + Utf8(u)
  {
    var uc := u;
    var len := if uc < 0x80 then 1 else if uc < 0x800 then 2 else if uc < 0x10000 then 3 else 4;
    ghost var t := Utf8(u);
    StoredBytes(u);
    i := at + len;
    if len >= 4 { i := i - 1; out[i] := 0x80 + uc % 0x40; uc := uc / 0x40; assert out[i] == t[3]; }
    if len >= 3 { i := i - 1; out[i] := 0x80 + uc % 0x40; uc := uc / 0x40; assert out[i] == t[2]; }
    if len >= 2 { i := i - 1; out[i] := 0x80 + uc % 0x40; uc := uc / 0x40; assert out[i] == t[1]; }
    i := i - 1;
    out[i] := uc + if len == 1 then 0 else if len == 2 then 0xC0 else if len == 3 then 0xE0 else 0xF0;
    assert out[i] == t[0];
    i := i + len;
    assert out[..at] == old(out[..at]);
    assert forall k | 0 <= k < len :: out[at + k] == t[k];
  }

  lemma StoredBytes(u: nat)
    requires Scalar(u)
    ensures u / 0x40 / 0x40 == u / 0x1000 && u / 0x1000 / 0x40 == u / 0x40000
  {}

  lemma {:induction false} DecodeStep(b: Text)
    requires b != [] && Paired(b)
    ensures b[0] != BACKSLASH ==>
              Decode(b) == Prepend([b[0]], Decode(b[1..])) && Paired(b[1..]) && UnitCount(b) == 1 + UnitCount(b[1..])
    ensures b[0] == BACKSLASH ==> |b| > 1
    ensures b[0] == BACKSLASH && b[1] != 'u' as int ==>
              Decode(b) == Prepend([Unescape(b[1])], Decode(b[2..])) && Paired(b[2..]) && UnitCount(b) == 1 + UnitCount(b[2..])
    ensures b[0] == BACKSLASH && b[1] == 'u' as int && UnicodeEscape(b).None? ==> Decode(b).None?
    ensures b[0] == BACKSLASH && b[1] == 'u' as int && UnicodeEscape(b).Some? ==>
              var (u, n) := UnicodeEscape(b).value;
              && Decode(b) == Prepend(Utf8(u), Decode(b[n..])) && Paired(b[n..])
              && |Utf8(u)| + UnitCount(b[n..]) <= UnitCount(b)
  {
    if b[0] == BACKSLASH && b[1] == 'u' as int && UnicodeEscape(b).Some? {
      UnicodeStep(b);
    }
  }

  /** *ptr2++=c; */
  method StoreByte(out: array<byte>, n: nat, c: Char) returns (m: nat)
    requires n < out.Length
    modifies out
    ensures m == n + 1 && out[..m] == old(out[..n]) + [c]
  {
    out[n] := c;
    m := n + 1;
    assert out[..m] == out[..n] + [out[n]];
  }

  /** One turn of the second pass: `piece` is written and `next` read on from. */
  method DecodeUnit(text: Text, ptr: nat, end: nat, n: nat, out: array<byte>)
    returns (ok: bool, next: nat, m: nat, ghost piece: Text)
    requires ptr < end <= |text| && !IsHex(Peek(text, end)) && Paired(text[ptr..end])
    requires n + UnitCount(text[ptr..end]) < out.Length
    modifies out
    ensures !ok ==> Decode(text[ptr..end]).None?
    ensures ok ==>
              && ptr < next <= end && Paired(text[next..end])
              && Decode(text[ptr..end]) == Prepend(piece, Decode(text[next..end]))
              && m + UnitCount(text[next..end]) <= n + UnitCount(text[ptr..end])
              && out[..m] == old(out[..n]) + piece
  {
    ghost var b := text[ptr..end];
    DecodeStep(b);
    ok := true;
    if text[ptr] != BACKSLASH {
      m := StoreByte(out, n, text[ptr]);
      piece := [text[ptr]];
      next := ptr + 1;
      Subslice(text, ptr, end, 1, |b|);
    } else if text[ptr + 1] != 'u' as int {
      m := StoreByte(out, n, Unescape(text[ptr + 1]));
      piece := [Unescape(text[ptr + 1])];
      next := ptr + 2;
      Subslice(text, ptr, end, 2, |b|);
    } else {
      var uc;
      ok, uc, next := ReadUnicode(text, ptr, end);
      m, piece := n, [];
      if ok {
        Subslice(text, ptr, end, next - ptr, |b|);
        m := StoreUtf8(out, n, uc);
        piece := Utf8(uc);
      }
    }
  }

  /** The second pass, over the body the first pass found; `len` is what it counted. */
  method DecodeBody(text: Text, at: nat, end: nat, ghost len: nat, out: array<byte>) returns (ok: bool, n: nat)
    requires at <= end <= |text| && !IsHex(Peek(text, end))
    requires Paired(text[at..end]) && len == UnitCount(text[at..end]) && out.Length == len + 1
    modifies out
    ensures ok == Decode(text[at..end]).Some?
    ensures ok ==> n <= len && out[..n] == Decode(text[at..end]).value && out[n] == 0
  {
    var ptr := at;
    n, ok := 0, true;
    ghost var written: Text := [];
    PrependNothing(Decode(text[at..end]));
    while ptr < end
      invariant at <= ptr <= end && Paired(text[ptr..end])
      invariant n + UnitCount(text[ptr..end]) <= len && out[..n] == written
      invariant Prepend(written, Decode(text[ptr..end])) == Decode(text[at..end])
      decreases end - ptr
    {
      ghost var piece;
      ok, ptr, n, piece := DecodeUnit(text, ptr, end, n, out);
      if !ok { return; }
      PrependTwice(written, piece, Decode(text[ptr..end]));
      written := written + piece;
    }
    assert text[ptr..end] == [];
    PrependNothing(Some(written));
    out[n] := 0;
  }
}
