/** The string functions of the C library on blocks, and the printers' string routine. */
module TextBlocks {
  import opened Bytes
  import opened Json
  import opened Grammar
  import opened JsonPrint
  import opened Allocation

  /** The block is a C string. */
  ghost predicate Holds(b: array<byte>, t: Text)
    reads b
  {
    |t| < b.Length && b[..|t|] == t && b[|t|] == 0
  }

  /** memcpy of the first `n` bytes. */
  method MemCopy(dst: array<byte>, src: array<byte>, n: nat)
    requires dst != src && n <= dst.Length && n <= src.Length
    modifies dst
    ensures dst[..n] == src[..n]
  {
    var i := 0;
    while i < n
      invariant i <= n && dst[..i] == src[..i]
    {
      dst[i] := src[i];
      i := i + 1;
    }
  }

  /** strlen from `at`, where the text `t` ends the string. */
  method StrLen(b: array<byte>, at: nat, ghost t: Text) returns (n: nat)
    requires at <= |t| < b.Length && b[..|t|] == t && b[|t|] == 0
    ensures at + n == |t|
  {
    n := 0;
    while b[at + n] != 0
      invariant at + n <= |t|
      decreases |t| - n
    {
      assert b[at + n] == b[..|t|][at + n] || at + n == |t|;
      n := n + 1;
    }
  }

  /** Text stored from `at` on, without a terminator. */
  method Put(b: array<byte>, at: nat, t: Text) returns (ptr: nat)
    requires at + |t| <= b.Length
    modifies b
    ensures ptr == at + |t| && b[..ptr] == old(b[..at]) + t
    ensures forall k | ptr <= k < b.Length :: b[k] == old(b[k])
  {
    ptr := at;
    while ptr < at + |t|
      invariant at <= ptr <= at + |t| && b[..ptr] == old(b[..at]) + t[..ptr - at]
      invariant forall k | ptr <= k < b.Length :: b[k] == old(b[k])
    {
      b[ptr] := t[ptr - at];
      ptr := ptr + 1;
      assert b[..ptr] == b[..ptr - 1] + [b[ptr - 1]];
      assert t[..ptr - at] == t[..ptr - 1 - at] + [t[ptr - 1 - at]];
    }
    assert t[..|t|] == t;
  }

  method StrDup(heap: Allocator, t: Text) returns (out: array?<byte>)
    modifies heap
    ensures out == null ==> heap.live == old(heap.live) && heap.denied > old(heap.denied)
    ensures out != null ==> fresh(out) && heap.live == old(heap.live) + {out} && heap.denied == old(heap.denied) && Holds(out, t) && out.Length == |t| + 1
  {
    out := heap.Malloc(|t| + 1);
    if out != null {
      var ptr := Put(out, 0, t);
      out[ptr] := 0;
    }
  }

  /** cJSON_strdup. */
  method CopyString(heap: Allocator, b: array<byte>, ghost t: Text) returns (out: array?<byte>)
    requires Holds(b, t)
    modifies heap
    ensures out == null ==> heap.live == old(heap.live) && heap.denied > old(heap.denied)
    ensures out != null ==> fresh(out) && heap.live == old(heap.live) + {out} && heap.denied == old(heap.denied) && Holds(out, t)
  {
    var n := StrLen(b, 0, t);
    out := heap.Malloc(n + 1);
    if out != null {
      MemCopy(out, b, n + 1);
      assert out[..n + 1][..n] == b[..n + 1][..n] && out[..n + 1][n] == b[..n + 1][n];
    }
  }

  lemma EscapeTextStep(s: Text, i: nat)
    requires i < |s|
    ensures EscapeText(s[i..]) == EscapeByte(s[i]) + EscapeText(s[i + 1..])
  {
    assert s[i..][1..] == s[i + 1..];
  }

  lemma {:induction false} NothingToEscape(s: Text)
    requires forall i | 0 <= i < |s| :: s[i] > 31 && s[i] != QUOTE && s[i] != BACKSLASH
    ensures EscapeText(s) == s
  {
    if s != [] {
      NothingToEscape(s[1..]);
      assert s == [s[0]] + s[1..];
    }
  }

  /** The first loop of print_string_ptr. */
  method NeedsEscape(s: Text) returns (flag: bool)
    ensures !flag ==> EscapeText(s) == s
  {
    flag := false;
    var ptr := 0;
    while ptr < |s|
      invariant ptr <= |s|
      invariant !flag ==> forall i | 0 <= i < ptr :: s[i] > 31 && s[i] != QUOTE && s[i] != BACKSLASH
    {
      flag := flag || s[ptr] < 32 || s[ptr] == QUOTE || s[ptr] == BACKSLASH;
      ptr := ptr + 1;
    }
    if !flag { NothingToEscape(s); }
  }

  /** The second loop: the length of the escaped text. */
  method EscapedLength(s: Text) returns (len: nat)
    ensures len == |EscapeText(s)|
  {
    var ptr := 0;
    len := 0;
    assert s[0..] == s;
    while ptr < |s|
      invariant ptr <= |s| && len + |EscapeText(s[ptr..])| == |EscapeText(s)|
    {
      EscapeTextStep(s, ptr);
      var token := s[ptr];
      len := len + 1;
      if token in [QUOTE, BACKSLASH, BACKSPACE, FORMFEED, LF, CR, TAB] {
        len := len + 1;
      } else if token < 32 {
        len := len + 5;
      }
      ptr := ptr + 1;
    }
  }

  /** One escape: the backslash, then the letter or the hexadecimal form. */
  method PutEscape(b: array<byte>, at: nat, c: Char) returns (ptr: nat)
    requires c <= 31 || c == QUOTE || c == BACKSLASH
    requires at + |EscapeByte(c)| < b.Length
    modifies b
    ensures ptr == at + |EscapeByte(c)| && b[..ptr] == old(b[..at]) + EscapeByte(c)
  {
    ptr := Put(b, at, [BACKSLASH]);
    if c == BACKSLASH || c == QUOTE { ptr := Put(b, ptr, [c]); }
    else if c == BACKSPACE { ptr := Put(b, ptr, ['b' as int]); }
    else if c == FORMFEED { ptr := Put(b, ptr, ['f' as int]); }
    else if c == LF { ptr := Put(b, ptr, ['n' as int]); }
    else if c == CR { ptr := Put(b, ptr, ['r' as int]); }
    else if c == TAB { ptr := Put(b, ptr, ['t' as int]); }
    else {
      ptr := Put(b, ptr, ['u' as int, ZERO, ZERO, HexChar(c / 16), HexChar(c % 16)]);
      b[ptr] := 0;
    }
  }

  /** The escaped text of `s` behind what is already there. */
  method PutEscaped(b: array<byte>, at: nat, s: Text) returns (ptr: nat)
    requires at + |EscapeText(s)| < b.Length
    modifies b
    ensures ptr == at + |EscapeText(s)| && b[..ptr] == old(b[..at]) + EscapeText(s)
  {
    ptr := at;
    var i := 0;
    ghost var done: Text := [];
    assert s[0..] == s;
    while i < |s|
      invariant i <= |s| && done + EscapeText(s[i..]) == EscapeText(s) && |done| <= |EscapeText(s)|
      invariant ptr == at + |done| && b[..ptr] == old(b[..at]) + done
    {
      EscapeTextStep(s, i);
      Assoc(done, EscapeByte(s[i]), EscapeText(s[i + 1..]));
      if s[i] > 31 && s[i] != QUOTE && s[i] != BACKSLASH {
        ptr := Put(b, ptr, [s[i]]);
      } else {
        ptr := PutEscape(b, ptr, s[i]);
      }
      done := done + EscapeByte(s[i]);
      i := i + 1;
    }
    assert EscapeText(s[i..]) == [] && done + [] == done;
  }

  /** The text of a string into a block with exactly enough room for it on both paths. */
  method PutString(b: array<byte>, at: nat, s: Text, flag: bool) returns (ptr: nat)
    requires at + |EscapeText(s)| + 2 < b.Length && (!flag ==> EscapeText(s) == s)
    modifies b
    ensures ptr == at + |EscapeText(s)| + 2
    ensures b[..ptr] == old(b[..at]) + PrintString(s) && b[ptr] == 0
  {
    ptr := Put(b, at, [QUOTE]);
    ghost var before := b[..ptr];
    if !flag {
      ptr := Put(b, ptr, s);
      b[ptr] := 0;
    } else {
      ptr := PutEscaped(b, ptr, s);
    }
    assert b[..ptr] == before + EscapeText(s);
    ptr := Put(b, ptr, [QUOTE]);
    b[ptr] := 0;
  }
}
