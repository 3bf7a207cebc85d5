/**
 * The few java.lang.String operations the line formats rely on: trim, split at
 * the first separator, split on whitespace runs, Integer.parseInt, lower-casing
 * and UTF-8 encoding.
 */
module Text {
  import opened Wrappers
  import opened Frames

  const MinInt := -0x8000_0000
  const MaxInt := 0x7FFF_FFFF

  /** Java int arithmetic: the value modulo 2^32, read as two's complement. */
  function Wrap32(x: int): (r: int)
    ensures MinInt <= r <= MaxInt
    ensures (r - x) % 0x1_0000_0000 == 0
    ensures MinInt <= x <= MaxInt ==> r == x
  {
    (x - MinInt) % 0x1_0000_0000 + MinInt
  }

  /** String.trim removes every character up to U+0020 from both ends. */
  predicate IsTrimmed(c: char) {
    c <= ' '
  }

  predicate AllTrimmed(t: string) {
    forall k :: 0 <= k < |t| ==> IsTrimmed(t[k])
  }

  function TrimStart(s: string): (r: string)
    ensures |r| <= |s|
    ensures r == [] || !IsTrimmed(r[0])
  {
    if |s| > 0 && IsTrimmed(s[0]) then TrimStart(s[1..]) else s
  }

  function TrimEnd(s: string): (r: string)
    ensures |r| <= |s| && r == s[..|r|]
    ensures r == [] || !IsTrimmed(r[|r| - 1])
  {
    if |s| > 0 && IsTrimmed(s[|s| - 1]) then TrimEnd(s[..|s| - 1]) else s
  }

  /** `s` with every character up to U+0020 removed from both ends (TrimRemovesOnlyEnds says nothing else is removed). */
  function Trim(s: string): (r: string)
    ensures |r| <= |s|
    ensures r == [] || (!IsTrimmed(r[0]) && !IsTrimmed(r[|r| - 1]))
  {
    TrimEnd(TrimStart(s))
  }

  /** What TrimStart removes is a run of trimmed characters in front of what it keeps. */
  lemma {:induction false} TrimStartSplit(s: string) returns (pre: string)
    ensures s == pre + TrimStart(s) && AllTrimmed(pre)
  {
    if |s| > 0 && IsTrimmed(s[0]) {
      var p := TrimStartSplit(s[1..]);
      pre := [s[0]] + p;
      assert s == [s[0]] + (p + TrimStart(s[1..]));
    } else {
      pre := [];
    }
  }

  /** What TrimEnd removes is a run of trimmed characters after what it keeps. */
  lemma {:induction false} TrimEndSplit(s: string) returns (post: string)
    ensures s == TrimEnd(s) + post && AllTrimmed(post)
  {
    if |s| > 0 && IsTrimmed(s[|s| - 1]) {
      var p := TrimEndSplit(s[..|s| - 1]);
      post := p + [s[|s| - 1]];
      assert s == (TrimEnd(s[..|s| - 1]) + p) + [s[|s| - 1]];
    } else {
      post := [];
    }
  }

  /** Trim keeps a middle part of `s`: only trimmed characters come before and after it. */
  lemma TrimRemovesOnlyEnds(s: string) returns (pre: string, post: string)
    ensures s == pre + Trim(s) + post && AllTrimmed(pre) && AllTrimmed(post)
  {
    pre := TrimStartSplit(s);
    post := TrimEndSplit(TrimStart(s));
  }

  /** The index of the first occurrence of `c`, if any. */
  function IndexOf(s: string, c: char): (r: Option<nat>)
    ensures r.None? <==> c !in s
    ensures r.Some? ==> r.value < |s| && s[r.value] == c && c !in s[..r.value]
  {
    if |s| == 0 then None
    else if s[0] == c then Some(0)
    else match IndexOf(s[1..], c)
      case None => None
      case Some(k) =>
        assert s[..k + 1] == [s[0]] + s[1..][..k];
        Some(k + 1)
  }

  /** String.split(sep, 2): None when the separator is absent (one part), else the two sides of its first occurrence. */
  function SplitOnce(s: string, sep: char): (r: Option<(string, string)>)
    ensures r.None? <==> sep !in s
    ensures r.Some? ==> s == r.value.0 + [sep] + r.value.1 && sep !in r.value.0
  {
    match IndexOf(s, sep)
    case None => None
    case Some(k) =>
      assert s == s[..k] + [sep] + s[k + 1..];
      Some((s[..k], s[k + 1..]))
  }

  /** Any split of `s` around a first occurrence of `sep` is the one SplitOnce finds. */
  lemma SplitOnceOf(s: string, sep: char, a: string, b: string)
    requires s == a + [sep] + b && sep !in a
    ensures SplitOnce(s, sep) == Some((a, b))
  {
    var k := IndexOf(s, sep).value;
    assert s[|a|] == sep;
    assert forall i :: 0 <= i < |a| ==> s[i] == a[i];
    assert forall j :: 0 <= j < k ==> s[j] == s[..k][j];
    assert s[..k] == a && s[k + 1..] == b;
  }

  /** The characters the regular expression \s matches. */
  predicate IsSpace(c: char) {
    c == ' ' || c == '\t' || c == '\n' || c == '\U{0B}' || c == '\U{0C}' || c == '\r'
  }

  /** No character of `w` is a space. */
  predicate SpaceFree(w: string) {
    forall k :: 0 <= k < |w| ==> !IsSpace(w[k])
  }

  /** A token: a non-empty run of non-space characters. */
  predicate IsWord(w: string) {
    w != [] && SpaceFree(w)
  }

  /** The maximal run of non-space characters that starts `s`. */
  function Word(s: string): (r: string)
    ensures |r| <= |s| && r == s[..|r|]
    ensures SpaceFree(r)
    ensures |r| < |s| ==> IsSpace(s[|r|])
  {
    if |s| == 0 || IsSpace(s[0]) then [] else [s[0]] + Word(s[1..])
  }

  /** The characters of `s` that are not spaces, in order. */
  function NonSpace(s: string): string {
    if |s| == 0 then [] else (if IsSpace(s[0]) then [] else [s[0]]) + NonSpace(s[1..])
  }

  /** The strings of `ts` run together. */
  function Concat(ts: seq<string>): string {
    if |ts| == 0 then [] else ts[0] + Concat(ts[1..])
  }

  lemma {:induction false} NonSpaceOfWord(w: string, rest: string)
    requires SpaceFree(w)
    ensures NonSpace(w + rest) == w + NonSpace(rest)
  {
    if |w| > 0 {
      assert (w + rest)[1..] == w[1..] + rest;
      NonSpaceOfWord(w[1..], rest);
      assert w == [w[0]] + w[1..];
    } else {
      assert w + rest == rest;
    }
  }

  /**
   * String.split("\\s+") on a string that does not start with a space (a trimmed line):
   * the maximal runs of non-space characters, in order (TokensAreWords,
   * TokensKeepNonSpace: together they hold exactly the non-space characters of `s`).
   */
  function Tokens(s: string): (ts: seq<string>)
    ensures |ts| <= |s|
    decreases |s|
  {
    if |s| == 0 then []
    else if IsSpace(s[0]) then Tokens(s[1..])
    else
      var w := Word(s);
      [w] + Tokens(s[|w|..])
  }

  /** Every token is a non-empty run of non-space characters. */
  lemma {:induction false} TokensAreWords(s: string)
    ensures forall k :: 0 <= k < |Tokens(s)| ==> IsWord(Tokens(s)[k])
    decreases |s|
  {
    if |s| > 0 {
      if IsSpace(s[0]) {
        TokensAreWords(s[1..]);
      } else {
        TokensAreWords(s[|Word(s)|..]);
      }
    }
  }

  /** The tokens run together are the non-space characters of `s`, and there are none only when `s` is all spaces. */
  lemma {:induction false} TokensKeepNonSpace(s: string)
    ensures Concat(Tokens(s)) == NonSpace(s)
    ensures Tokens(s) == [] <==> forall k :: 0 <= k < |s| ==> IsSpace(s[k])
    decreases |s|
  {
    if |s| > 0 {
      if IsSpace(s[0]) {
        TokensKeepNonSpace(s[1..]);
        assert forall k :: 1 <= k < |s| ==> s[k] == s[1..][k - 1];
      } else {
        var w := Word(s);
        var rest := Tokens(s[|w|..]);
        TokensKeepNonSpace(s[|w|..]);
        assert s == w + s[|w|..];
        NonSpaceOfWord(w, s[|w|..]);
        assert ([w] + rest)[1..] == rest;
      }
    }
  }

  /** A string of spaces has no tokens. */
  lemma {:induction false} SpacesHaveNoTokens(sp: string)
    requires forall k :: 0 <= k < |sp| ==> IsSpace(sp[k])
    ensures Tokens(sp) == []
  {
    if |sp| > 0 {
      SpacesHaveNoTokens(sp[1..]);
    }
  }

  /** A leading space is skipped. */
  lemma TokensSpace(rest: string)
    ensures Tokens([' '] + rest) == Tokens(rest)
  {
    assert ([' '] + rest)[1..] == rest;
  }

  /** A word followed by a space (or by nothing) is the first token. */
  lemma TokensCons(w: string, rest: string)
    requires IsWord(w) && (rest == [] || IsSpace(rest[0]))
    ensures Tokens(w + rest) == [w] + Tokens(rest)
  {
    WordOf(w, rest);
    assert (w + rest)[0] == w[0];
    assert (w + rest)[|w|..] == rest;
  }

  /** A word on its own is its only token. */
  lemma TokensOfWord(w: string)
    requires IsWord(w)
    ensures Tokens(w) == [w]
  {
    TokensCons(w, []);
    assert w + [] == w;
  }

  /**
   * The first token is the first maximal non-space run, whatever spaces lead up to it,
   * and the rest are the tokens of what follows it.
   */
  lemma {:induction false} TokensSplit(sp: string, w: string, rest: string)
    requires forall k :: 0 <= k < |sp| ==> IsSpace(sp[k])
    requires IsWord(w) && (rest == [] || IsSpace(rest[0]))
    ensures Tokens(sp + (w + rest)) == [w] + Tokens(rest)
  {
    if |sp| > 0 {
      assert (sp + (w + rest))[1..] == sp[1..] + (w + rest);
      TokensSplit(sp[1..], w, rest);
    } else {
      assert sp + (w + rest) == w + rest;
      TokensCons(w, rest);
    }
  }

  lemma {:induction false} WordOf(w: string, rest: string)
    requires SpaceFree(w)
    requires rest == [] || IsSpace(rest[0])
    ensures Word(w + rest) == w
  {
    if |w| > 0 {
      assert (w + rest)[1..] == w[1..] + rest;
      WordOf(w[1..], rest);
    } else {
      assert w + rest == rest;
    }
  }

  predicate IsDigit(c: char) {
    '0' <= c <= '9'
  }

  predicate AllDigits(s: string) {
    forall k :: 0 <= k < |s| ==> IsDigit(s[k])
  }

  /** The value of a run of decimal digits, most significant first. */
  function DigitsValue(s: string): (r: nat)
    requires AllDigits(s)
  {
    if |s| == 0 then 0
    else
      assert IsDigit(s[|s| - 1]);
      DigitsValue(s[..|s| - 1]) * 10 + (s[|s| - 1] as int - '0' as int)
  }

  /** A numeral is an optional sign followed by at least one digit. */
  predicate IsNumeral(s: string) {
    |s| > 0 && var d := if s[0] == '-' || s[0] == '+' then s[1..] else s; |d| > 0 && AllDigits(d)
  }

  /** The value a numeral denotes. */
  function NumeralValue(s: string): int
    requires IsNumeral(s)
  {
    if s[0] == '-' then -(DigitsValue(s[1..]) as int)
    else if s[0] == '+' then DigitsValue(s[1..])
    else DigitsValue(s)
  }

  /**
   * Integer.parseInt(s) in radix 10: an optional sign, at least one digit, and a value
   * in Java's int range; None where Java throws NumberFormatException.
   */
  function ParseInt(s: string): (r: Option<int>)
    ensures r.Some? <==> IsNumeral(s) && MinInt <= NumeralValue(s) <= MaxInt
    ensures r.Some? ==> r.value == NumeralValue(s)
  {
    if |s| == 0 then None
    else
      var signed := s[0] == '-' || s[0] == '+';
      var digits := if signed then s[1..] else s;
      if |digits| == 0 || exists k :: 0 <= k < |digits| && !IsDigit(digits[k]) then None
      else
        var v: int := if s[0] == '-' then -(DigitsValue(digits) as int) else DigitsValue(digits);
        if MinInt <= v <= MaxInt then Some(v) else None
  }

  function DigitChar(d: nat): char
    requires d < 10
  {
    ('0' as int + d) as char
  }

  /** The decimal digits of `n`, most significant first, as Integer.toString writes them. */
  function Decimal(n: nat): (r: string)
    ensures r != [] && AllDigits(r)
    ensures DigitsValue(r) == n
  {
    if n < 10 then
      var r := [DigitChar(n)];
      assert r[..0] == [];
      r
    else
      var r := Decimal(n / 10) + [DigitChar(n % 10)];
      assert r[..|r| - 1] == Decimal(n / 10);
      r
  }

  /** Integer.toString in radix 10. */
  function IntToString(n: int): string {
    if n < 0 then ['-'] + Decimal(-n) else Decimal(n)
  }

  /** parseInt reads back every int that toString writes. */
  lemma ParseIntRoundTrip(n: int)
    requires MinInt <= n <= MaxInt
    ensures ParseInt(IntToString(n)) == Some(n)
  {
    var s := IntToString(n);
    if n < 0 {
      assert s[1..] == Decimal(-n);
    }
  }

  function LowerChar(c: char): char {
    if 'A' <= c <= 'Z' then (c as int + 32) as char else c
  }

  /** String.toLowerCase on ASCII letters. */
  function Lower(s: string): (r: string)
    ensures |r| == |s|
    ensures forall k :: 0 <= k < |s| ==> r[k] == LowerChar(s[k])
  {
    seq(|s|, k requires 0 <= k < |s| => LowerChar(s[k]))
  }

  predicate StartsWith(s: string, prefix: string) {
    |prefix| <= |s| && s[..|prefix|] == prefix
  }

  predicate IsContinuation(b: byte) {
    0x80 <= b < 0xC0
  }

  /** The scalar value a 1..4-byte UTF-8 sequence stands for, read from its payload bits. */
  function ScalarOf(r: seq<byte>): int
    requires 1 <= |r| <= 4
  {
    var b := seq(|r|, k requires 0 <= k < |r| => r[k] as int);
    if |r| == 1 then b[0]
    else if |r| == 2 then (b[0] - 0xC0) * 0x40 + (b[1] - 0x80)
    else if |r| == 3 then (b[0] - 0xE0) * 0x1000 + (b[1] - 0x80) * 0x40 + (b[2] - 0x80)
    else (b[0] - 0xF0) * 0x4_0000 + (b[1] - 0x80) * 0x1000 + (b[2] - 0x80) * 0x40 + (b[3] - 0x80)
  }

  /** The two-byte form, for U+0080..U+07FF. */
  function Utf8Two(n: int): (r: seq<byte>)
    requires 0x80 <= n < 0x800
    ensures |r| == 2 && 0xC0 <= r[0] < 0xE0 && IsContinuation(r[1]) && ScalarOf(r) == n
  {
    [0xC0 + n / 0x40, 0x80 + n % 0x40]
  }

  /** The three-byte form, for U+0800..U+FFFF. */
  function Utf8Three(n: int): (r: seq<byte>)
    requires 0x800 <= n < 0x1_0000
    ensures |r| == 3 && 0xE0 <= r[0] < 0xF0 && IsContinuation(r[1]) && IsContinuation(r[2]) && ScalarOf(r) == n
  {
    var q := n / 0x40;
    var hi, mid, lo := q / 0x40, q % 0x40, n % 0x40;
    assert n == (hi * 0x40 + mid) * 0x40 + lo;
    [0xE0 + hi, 0x80 + mid, 0x80 + lo]
  }

  /** The four-byte form, for U+10000..U+10FFFF. */
  function Utf8Four(n: int): (r: seq<byte>)
    requires 0x1_0000 <= n < 0x11_0000
    ensures |r| == 4 && 0xF0 <= r[0] < 0xF8 && IsContinuation(r[1]) && IsContinuation(r[2]) && IsContinuation(r[3])
    ensures ScalarOf(r) == n
  {
    var q1 := n / 0x40;
    var q2 := q1 / 0x40;
    var top, hi, mid, lo := q2 / 0x40, q2 % 0x40, q1 % 0x40, n % 0x40;
    assert n == ((top * 0x40 + hi) * 0x40 + mid) * 0x40 + lo;
    [0xF0 + top, 0x80 + hi, 0x80 + mid, 0x80 + lo]
  }

  /**
   * The UTF-8 encoding of one Unicode scalar value: the shortest form, with the lead
   * byte announcing the length, continuation bytes 10xxxxxx, and the payload bits
   * spelling out the value.
   */
  function Utf8Char(c: char): (r: seq<byte>)
    ensures 1 <= |r| <= 4
    ensures c as int < 0x80 ==> r == [c as int]
    ensures |r| == 2 <==> 0x80 <= c as int < 0x800
    ensures |r| == 3 <==> 0x800 <= c as int < 0x1_0000
    ensures |r| == 4 <==> 0x1_0000 <= c as int
    ensures |r| == 2 ==> 0xC0 <= r[0] < 0xE0
    ensures |r| == 3 ==> 0xE0 <= r[0] < 0xF0
    ensures |r| == 4 ==> 0xF0 <= r[0] < 0xF8
    ensures forall k :: 1 <= k < |r| ==> IsContinuation(r[k])
    ensures ScalarOf(r) == c as int
  {
    var n := c as int;
    if n < 0x80 then [n]
    else if n < 0x800 then Utf8Two(n)
    else if n < 0x1_0000 then Utf8Three(n)
    else Utf8Four(n)
  }

  /** String.getBytes(UTF_8): the encodings of the characters, one after another (Utf8Append, Utf8OfAscii). */
  function Utf8(s: string): (r: seq<byte>)
    ensures |s| <= |r| <= 4 * |s|
  {
    if |s| == 0 then [] else Utf8(s[..|s| - 1]) + Utf8Char(s[|s| - 1])
  }

  /** `a + b` without its last element, when `b` has one. */
  lemma LastSplit<T>(a: seq<T>, b: seq<T>)
    requires |b| > 0
    ensures (a + b)[..|a + b| - 1] == a + b[..|b| - 1] && (a + b)[|a + b| - 1] == b[|b| - 1]
  {
  }

  /** The encoding of a string is the encodings of its characters, one after another. */
  lemma {:induction false} Utf8Append(a: string, b: string)
    ensures Utf8(a + b) == Utf8(a) + Utf8(b)
  {
    if |b| > 0 {
      LastSplit(a, b);
      Utf8Append(a, b[..|b| - 1]);
    } else {
      assert a + b == a;
    }
  }

  /** ASCII text encodes to its own character codes, one byte each. */
  lemma {:induction false} Utf8OfAscii(s: string)
    requires forall k :: 0 <= k < |s| ==> s[k] as int < 0x80
    ensures Utf8(s) == seq(|s|, k requires 0 <= k < |s| => s[k] as int)
  {
    if |s| > 0 {
      var n := |s| - 1;
      Utf8OfAscii(s[..n]);
    }
  }
}
