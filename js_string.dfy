/**
 * The handful of JavaScript string primitives the console relies on, stated
 * over `seq<char>`: `trim`, `startsWith`, `split(".")`, `split(/\s+/)`,
 * `Number#toString(10 | 16)` on non-negative integers, and the hex-digit class
 * `[0-9a-fA-F]`.
 */
module JsString {
  import opened SeqLemmas

  /** A `Uint8Array` element. */
  type Byte = b: int | 0 <= b < 256

  /** A JavaScript `number` where only its value matters: a finite value, or
    * NaN / an infinity (neither of which equals any integer). */
  datatype JsFloat = Finite(value: real) | NonFinite

  // ---------------------------------------------------------------------------
  // Whitespace, trim

  /** The characters JavaScript's `trim` removes and `\s` matches
    * (WhiteSpace and LineTerminator of ECMA-262). */
  const WhiteSpaceChars: set<char> := {
    '\t', '\n', '\U{B}', '\U{C}', '\r', ' ', '\U{A0}', '\U{1680}', '\U{2000}',
    '\U{2001}', '\U{2002}', '\U{2003}', '\U{2004}', '\U{2005}', '\U{2006}', '\U{2007}',
    '\U{2008}', '\U{2009}', '\U{200A}', '\U{2028}', '\U{2029}', '\U{202F}', '\U{205F}',
    '\U{3000}', '\U{FEFF}'
  }

  predicate IsSpace(c: char)
  {
    c in WhiteSpaceChars
  }

  predicate AllSpace(s: string)
  {
    forall i :: 0 <= i < |s| ==> IsSpace(s[i])
  }

  predicate NoSpace(s: string)
  {
    forall i :: 0 <= i < |s| ==> !IsSpace(s[i])
  }

  /** `String#trimStart`: the longest suffix that does not start with whitespace. */
  function TrimStart(s: string): (r: string)
    ensures |r| <= |s| && r == s[|s| - |r|..]
    ensures AllSpace(s[..|s| - |r|])
    ensures r == [] || !IsSpace(r[0])
    decreases |s|
  {
    if s != [] && IsSpace(s[0]) then
      var r := TrimStart(s[1..]);
      SpaceRunGrowsLeft(s, |s| - |r|);
      r
    else s
  }

  /** A whitespace prefix of the tail, after a leading whitespace, is one of the whole. */
  lemma SpaceRunGrowsLeft(s: string, n: nat)
    requires 1 <= n <= |s| && IsSpace(s[0]) && AllSpace(s[1..][..n - 1])
    ensures AllSpace(s[..n])
  {
    forall k | 0 <= k < n ensures IsSpace(s[..n][k]) {
      if k > 0 {
        assert s[..n][k] == s[1..][..n - 1][k - 1];
      }
    }
  }

  /** A whitespace suffix of the front, before a trailing whitespace, is one of the whole. */
  lemma SpaceRunGrowsRight(s: string, n: nat)
    requires n < |s| && IsSpace(s[|s| - 1]) && AllSpace(s[..|s| - 1][n..])
    ensures AllSpace(s[n..])
  {
    forall k | 0 <= k < |s| - n ensures IsSpace(s[n..][k]) {
      if k < |s| - 1 - n {
        assert s[n..][k] == s[..|s| - 1][n..][k];
      }
    }
  }

  /** `String#trimEnd`: the longest prefix that does not end with whitespace. */
  function TrimEnd(s: string): (r: string)
    ensures |r| <= |s| && r == s[..|r|]
    ensures AllSpace(s[|r|..])
    ensures r == [] || !IsSpace(r[|r| - 1])
    decreases |s|
  {
    if s != [] && IsSpace(s[|s| - 1]) then
      var r := TrimEnd(s[..|s| - 1]);
      SpaceRunGrowsRight(s, |r|);
      r
    else s
  }

  /** `String#trim`. */
  function Trim(s: string): (r: string)
    ensures IsTrimmed(r) && |r| <= |s|
  {
    var e := TrimEnd(s);
    var r := TrimStart(e);
    assert r != [] ==> r[|r| - 1] == e[|e| - 1];
    r
  }

  /** A string that neither starts nor ends with whitespace. */
  predicate IsTrimmed(s: string)
  {
    s == [] || (!IsSpace(s[0]) && !IsSpace(s[|s| - 1]))
  }

  /** `trim` keeps exactly the middle of its input: what it drops on either side
    * is whitespace and what it keeps neither starts nor ends with whitespace. */
  lemma TrimSpec(s: string)
    ensures var r := Trim(s);
      && IsTrimmed(r)
      && exists i, j :: 0 <= i <= j <= |s| && r == s[i..j] && AllSpace(s[..i]) && AllSpace(s[j..])
  {
    var e := TrimEnd(s);
    var r := TrimStart(e);
    var i := |e| - |r|;
    SliceOfPrefix(s, e, i);
    assert AllSpace(e[..i]) && AllSpace(s[|e|..]);
    if r != [] {
      assert r[|r| - 1] == e[|e| - 1];
    }
    assert r == s[i..|e|] && AllSpace(s[..i]);
  }


  /** An already trimmed string is left alone by `trimEnd` and `trimStart`. */
  lemma TrimmedIsFixed(s: string)
    requires IsTrimmed(s)
    ensures TrimEnd(s) == s && TrimStart(s) == s && Trim(s) == s
  {
  }

  /** `trim` is idempotent. */
  lemma TrimIdempotent(s: string)
    ensures Trim(Trim(s)) == Trim(s)
  {
    TrimSpec(s);
    TrimmedIsFixed(Trim(s));
  }

  /** `trimEnd` looks only at the end: text in front of a non-blank part is kept
    * as it is. */
  lemma {:induction false} TrimEndAppend(p: string, s: string)
    requires p == [] || !IsSpace(p[|p| - 1]) || TrimEnd(s) != []
    ensures TrimEnd(p + s) == p + TrimEnd(s)
    decreases |s|
  {
    if s == [] {
      assert p + s == p;
    } else if IsSpace(s[|s| - 1]) {
      var ps := p + s;
      assert ps[|ps| - 1] == s[|s| - 1];
      assert ps[..|ps| - 1] == p + s[..|s| - 1];
      assert TrimEnd(s) == TrimEnd(s[..|s| - 1]);
      TrimEndAppend(p, s[..|s| - 1]);
    } else {
      assert (p + s)[|p + s| - 1] == s[|s| - 1];
    }
  }

  /** Trailing whitespace does not change `trimEnd`. */
  lemma {:induction false} TrimEndDropsSpace(s: string, w: string)
    requires AllSpace(w)
    ensures TrimEnd(s + w) == TrimEnd(s)
    decreases |w|
  {
    if w == [] {
      assert s + w == s;
    } else {
      assert (s + w)[..|s + w| - 1] == s + w[..|w| - 1];
      TrimEndDropsSpace(s, w[..|w| - 1]);
    }
  }

  /** Leading whitespace does not change `trimStart`. */
  lemma {:induction false} TrimStartDropsSpace(w: string, s: string)
    requires AllSpace(w)
    ensures TrimStart(w + s) == TrimStart(s)
    decreases |w|
  {
    if w == [] {
      assert w + s == s;
    } else {
      assert (w + s)[1..] == w[1..] + s;
      TrimStartDropsSpace(w[1..], s);
    }
  }

  /** `trim` discards whitespace around its input. */
  lemma TrimSurrounded(w1: string, s: string, w2: string)
    requires AllSpace(w1) && AllSpace(w2)
    ensures Trim(w1 + s + w2) == Trim(s)
  {
    TrimEndDropsSpace(w1 + s, w2);
    var e := TrimEnd(s);
    if e == [] {
      assert AllSpace(w1 + s) by {
        assert AllSpace(s[|e|..]);
      }
      assert TrimEnd(w1 + s) == [];
    } else {
      TrimEndAppend(w1, s);
      TrimStartDropsSpace(w1, e);
    }
  }

  /** `trim` of a string with its trailing whitespace already removed is its `trim`. */
  lemma TrimOfTrimEnd(s: string)
    ensures Trim(TrimEnd(s)) == Trim(s)
  {
    assert TrimEnd(TrimEnd(s)) == TrimEnd(s);
  }

  // ---------------------------------------------------------------------------
  // Prefixes

  /** `String#startsWith`. */
  predicate StartsWith(s: string, prefix: string)
  {
    |prefix| <= |s| && s[..|prefix|] == prefix
  }

  // ---------------------------------------------------------------------------
  // split(".") and its inverse, join(".")

  /** `String#join` of a non-empty list of parts with a one-character separator. */
  function Join(parts: seq<string>, sep: char): string
    requires |parts| >= 1
  {
    if |parts| == 1 then parts[0] else parts[0] + [sep] + Join(parts[1..], sep)
  }

  /** `String#split` with a one-character separator: every occurrence of `sep`
    * separates two parts, so `"a..b"` gives `["a", "", "b"]`. */
  function Split(s: string, sep: char): (r: seq<string>)
    ensures |r| >= 1
    ensures forall i :: 0 <= i < |r| ==> sep !in r[i]
    ensures Join(r, sep) == s
    decreases |s|
  {
    if s == [] then [""]
    else
      var rest := Split(s[1..], sep);
      if s[0] == sep then
        [""] + rest
      else
        assert Join([[s[0]] + rest[0]] + rest[1..], sep) == [s[0]] + Join(rest, sep);
        [[s[0]] + rest[0]] + rest[1..]
  }

  /** A leading separator splits off an empty first part. */
  lemma SplitAtSep(t: string, sep: char)
    ensures Split([sep] + t, sep) == [""] + Split(t, sep)
  {
    assert ([sep] + t)[1..] == t;
  }

  /** A leading character that is no separator starts the first part. */
  lemma SplitAtChar(c: char, t: string, sep: char)
    requires c != sep
    ensures var r := Split(t, sep);
      Split([c] + t, sep) == [[c] + r[0]] + r[1..]
  {
    assert ([c] + t)[1..] == t;
  }

  /** Joining parts whose first part starts with `c`. */
  lemma JoinFirstChar(parts: seq<string>, sep: char)
    requires |parts| >= 1 && parts[0] != []
    ensures var tail := [parts[0][1..]] + parts[1..];
      Join(parts, sep) == [parts[0][0]] + Join(tail, sep)
  {
    var tail := [parts[0][1..]] + parts[1..];
    assert tail[1..] == parts[1..];
    assert parts[0] == [parts[0][0]] + tail[0];
  }

  /** Splitting inverts joining: parts that do not contain the separator come
    * back exactly. */
  lemma {:induction false} SplitJoin(parts: seq<string>, sep: char)
    requires |parts| >= 1
    requires forall i :: 0 <= i < |parts| ==> sep !in parts[i]
    ensures Split(Join(parts, sep), sep) == parts
    decreases |parts|, |parts[0]|
  {
    if parts[0] == [] {
      if |parts| > 1 {
        var rest := parts[1..];
        SplitJoin(rest, sep);
        assert Join(parts, sep) == [sep] + Join(rest, sep);
        SplitAtSep(Join(rest, sep), sep);
        assert parts == [""] + rest;
      }
    } else {
      var c := parts[0][0];
      var tail := [parts[0][1..]] + parts[1..];
      assert sep !in tail[0] && c != sep;
      SplitJoin(tail, sep);
      JoinFirstChar(parts, sep);
      SplitAtChar(c, Join(tail, sep), sep);
      assert tail[1..] == parts[1..] && [c] + tail[0] == parts[0];
      assert parts == [[c] + tail[0]] + tail[1..];
    }
  }

  // ---------------------------------------------------------------------------
  // split(/\s+/)

  /** `String#split(/\s+/)`: every maximal run of whitespace separates two
    * tokens, so leading or trailing whitespace gives an empty first or last
    * token, and the empty string gives `[""]`. */
  function SplitWhitespace(s: string): (r: seq<string>)
    ensures |r| >= 1
    decreases |s|
  {
    if s == [] then [""]
    else if IsSpace(s[0]) then
      if |s| > 1 && IsSpace(s[1]) then SplitWhitespace(s[1..])
      else [""] + SplitWhitespace(s[1..])
    else
      var rest := SplitWhitespace(s[1..]);
      [[s[0]] + rest[0]] + rest[1..]
  }

  /** Whether the last character is not whitespace. */
  predicate EndsInToken(s: string)
  {
    s != [] && !IsSpace(s[|s| - 1])
  }

  /** The tokens hold no whitespace, and only the first and the last can be
    * empty: the last not when `endsInToken`. */
  predicate TokensShape(r: seq<string>, endsInToken: bool)
  {
    && |r| >= 1
    && (forall i :: 0 <= i < |r| ==> NoSpace(r[i]))
    && (endsInToken ==> r[|r| - 1] != [])
    && (forall i :: 0 < i < |r| - 1 ==> r[i] != [])
  }

  /** Dropping the first character of a text of two or more keeps its end. */
  lemma EndsInTokenTail(s: string)
    requires |s| > 1
    ensures EndsInToken(s[1..]) == EndsInToken(s)
  {
    assert s[1..][|s[1..]| - 1] == s[|s| - 1];
  }

  /** A whitespace run ends the current token and opens an empty one. */
  lemma BreakToken(rest: seq<string>, r: seq<string>, endsInToken: bool)
    requires TokensShape(rest, endsInToken) && r == [""] + rest
    requires |rest| == 1 || rest[0] != []
    ensures TokensShape(r, endsInToken)
  {
    forall i | 0 < i < |r| ensures r[i] == rest[i - 1] {}
  }

  /** A character that is not whitespace joins the first token. */
  lemma JoinToken(c: char, rest: seq<string>, r: seq<string>, restEnds: bool, endsInToken: bool)
    requires !IsSpace(c) && TokensShape(rest, restEnds)
    requires endsInToken ==> restEnds || |rest| == 1
    requires r == [[c] + rest[0]] + rest[1..]
    ensures TokensShape(r, endsInToken)
  {
    forall k | 0 <= k < |r[0]| ensures !IsSpace(r[0][k]) {
      if k > 0 { assert r[0][k] == rest[0][k - 1]; }
    }
    forall i | 0 < i < |r| ensures r[i] == rest[i] {}
  }

  lemma {:induction false} SplitWhitespaceTokens(s: string)
    ensures TokensShape(SplitWhitespace(s), EndsInToken(s))
    decreases |s|
  {
    if s != [] {
      var rest := SplitWhitespace(s[1..]);
      SplitWhitespaceTokens(s[1..]);
      if |s| > 1 {
        EndsInTokenTail(s);
      } else {
        assert s[1..] == [];
      }
      if !IsSpace(s[0]) {
        JoinToken(s[0], rest, SplitWhitespace(s), EndsInToken(s[1..]), EndsInToken(s));
      } else if |s| > 1 && IsSpace(s[1]) {
      } else {
        if |s| > 1 {
          var t := s[1..];
          assert t[0] == s[1];
          assert rest == [[t[0]] + SplitWhitespace(t[1..])[0]] + SplitWhitespace(t[1..])[1..];
        }
        BreakToken(rest, SplitWhitespace(s), EndsInToken(s));
      }
    }
  }

  /** A trimmed, non-blank string splits into non-empty whitespace-free tokens. */
  lemma SplitTrimmedTokens(s: string)
    requires IsTrimmed(s) && s != []
    ensures var r := SplitWhitespace(s);
      forall i :: 0 <= i < |r| ==> r[i] != [] && NoSpace(r[i])
  {
    SplitWhitespaceTokens(s);
  }

  /** A non-space character in front extends the first token. */
  lemma SplitWhitespaceCons(c: char, s: string)
    requires !IsSpace(c)
    ensures var r := SplitWhitespace(s);
      SplitWhitespace([c] + s) == [[c] + r[0]] + r[1..]
  {
    assert ([c] + s)[1..] == s;
  }

  /** A one-character token followed by one space ends there. */
  lemma SplitWhitespaceStep(c: char, rest: string)
    requires !IsSpace(c) && rest != [] && !IsSpace(rest[0])
    ensures SplitWhitespace([c, ' '] + rest) == [[c]] + SplitWhitespace(rest)
  {
    var t := [' '] + rest;
    assert t[1..] == rest && t[0] == ' ' && t[1] == rest[0];
    assert IsSpace(t[0]) && !IsSpace(t[1]);
    assert SplitWhitespace(t) == [""] + SplitWhitespace(t[1..]);
    assert [c, ' '] + rest == [c] + t;
    SplitWhitespaceCons(c, t);
    var r := SplitWhitespace(t);
    assert r[0] == "" && r[1..] == SplitWhitespace(rest);
    assert [c] + r[0] == [c];
  }

  /** Tokens fit to be joined with spaces and split again. */
  predicate AreTokens(tokens: seq<string>)
  {
    forall i :: 0 <= i < |tokens| ==> tokens[i] != [] && NoSpace(tokens[i])
  }

  /** Splitting on whitespace inverts joining with one space. */
  lemma {:induction false} SplitWhitespaceJoin(tokens: seq<string>)
    requires |tokens| >= 1 && AreTokens(tokens)
    ensures SplitWhitespace(Join(tokens, ' ')) == tokens
    decreases |tokens|, |tokens[0]|
  {
    var head := tokens[0];
    if |head| == 1 && |tokens| == 1 {
      assert Join(tokens, ' ') == [head[0]] + [];
      SplitWhitespaceCons(head[0], []);
    } else if |head| == 1 {
      SplitWhitespaceJoinNext(tokens);
    } else {
      SplitWhitespaceJoinLonger(tokens);
    }
  }

  lemma {:induction false} SplitWhitespaceJoinNext(tokens: seq<string>)
    requires |tokens| >= 2 && AreTokens(tokens) && |tokens[0]| == 1
    ensures SplitWhitespace(Join(tokens, ' ')) == tokens
    decreases |tokens|, 0
  {
    var c := tokens[0][0];
    var rest := Join(tokens[1..], ' ');
    assert AreTokens(tokens[1..]) by {
      forall i | 0 <= i < |tokens[1..]| ensures tokens[1..][i] != [] && NoSpace(tokens[1..][i]) {
        assert tokens[1..][i] == tokens[i + 1];
      }
    }
    SplitWhitespaceJoin(tokens[1..]);
    assert rest[0] == tokens[1][0];
    assert !IsSpace(tokens[1][0]);
    assert tokens[0] == [c];
    assert Join(tokens, ' ') == [c, ' '] + rest;
    SplitWhitespaceStep(c, rest);
  }

  lemma {:induction false} SplitWhitespaceJoinLonger(tokens: seq<string>)
    requires |tokens| >= 1 && AreTokens(tokens) && |tokens[0]| > 1
    ensures SplitWhitespace(Join(tokens, ' ')) == tokens
    decreases |tokens|, |tokens[0]|, 0
  {
    var head := tokens[0];
    var tail := [head[1..]] + tokens[1..];
    assert AreTokens(tail) by {
      forall i | 0 <= i < |tail| ensures tail[i] != [] && NoSpace(tail[i]) {
        if i > 0 { assert tail[i] == tokens[i]; }
      }
    }
    var s := Join(tail, ' ');
    SplitWhitespaceJoin(tail);
    assert Join(tokens, ' ') == [head[0]] + s;
    SplitWhitespaceCons(head[0], s);
    var r := SplitWhitespace(s);
    assert r == tail;
    assert [head[0]] + r[0] == head;
    assert [[head[0]] + r[0]] + r[1..] == tokens;
  }

  // ---------------------------------------------------------------------------
  // Decimal text

  predicate IsDigit(c: char) { '0' <= c <= '9' }

  predicate AllDigits(s: string)
  {
    forall i :: 0 <= i < |s| ==> IsDigit(s[i])
  }

  /** The big-endian value of a string of decimal digits. */
  function DecimalValue(s: string): nat
    requires AllDigits(s)
  {
    if s == [] then 0 else 10 * DecimalValue(s[..|s| - 1]) + (s[|s| - 1] - '0') as nat
  }

  function DigitChar(d: nat): char
    requires d < 10
  {
    ('0' as int + d) as char
  }

  /** `Number#toString(10)` / `${n}` on a non-negative integer. */
  function NatToDecimal(n: nat): string
  {
    if n < 10 then [DigitChar(n)] else NatToDecimal(n / 10) + [DigitChar(n % 10)]
  }

  /** The decimal text of `n` is a run of digits worth `n`, with no leading zero. */
  lemma {:induction false} NatToDecimalSpec(n: nat)
    ensures var r := NatToDecimal(n);
      |r| >= 1 && AllDigits(r) && DecimalValue(r) == n && (r[0] == '0' ==> r == "0")
    decreases n
  {
    if n >= 10 {
      NatToDecimalSpec(n / 10);
      var r := NatToDecimal(n);
      assert r[..|r| - 1] == NatToDecimal(n / 10);
    }
  }

  /** `${i}` on an integer (a `bigint` or an integral `number`). */
  function IntToDecimal(i: int): (r: string)
    ensures |r| >= 1
    ensures i >= 0 ==> AllDigits(r) && DecimalValue(r) == i
    ensures i < 0 ==> r[0] == '-' && AllDigits(r[1..]) && DecimalValue(r[1..]) == -i
    ensures i >= 0 && |r| > 1 ==> r[0] != '0'
    ensures i < 0 ==> |r| >= 2 && r[1] != '0'
  {
    NatToDecimalSpec(if i < 0 then -i else i);
    if i < 0 then "-" + NatToDecimal(-i) else NatToDecimal(i)
  }

  // ---------------------------------------------------------------------------
  // Hexadecimal text

  /** The class `[0-9a-fA-F]`. */
  predicate IsHexDigit(c: char)
  {
    ('0' <= c <= '9') || ('a' <= c <= 'f') || ('A' <= c <= 'F')
  }

  predicate AllHexDigits(s: string)
  {
    forall i :: 0 <= i < |s| ==> IsHexDigit(s[i])
  }

  lemma AllHexDigitsConcat(u: string, h: string)
    requires AllHexDigits(u) && AllHexDigits(h)
    ensures AllHexDigits(u + h)
  {
    forall i | 0 <= i < |u + h|
      ensures IsHexDigit((u + h)[i])
    {
      if i >= |u| {
        assert (u + h)[i] == h[i - |u|];
      }
    }
  }

  function HexDigitValue(c: char): (v: nat)
    requires IsHexDigit(c)
    ensures v < 16
  {
    if '0' <= c <= '9' then (c - '0') as nat
    else if 'a' <= c <= 'f' then (c - 'a') as nat + 10
    else (c - 'A') as nat + 10
  }

  /** The lower-case digit `Number#toString(16)` writes for `d`. */
  function LowerHexDigit(d: nat): (c: char)
    requires d < 16
    ensures IsHexDigit(c) && HexDigitValue(c) == d
    ensures !('A' <= c <= 'F')
  {
    if d < 10 then ('0' as int + d) as char else ('a' as int + d - 10) as char
  }

  predicate IsLowerHex(s: string)
  {
    forall i :: 0 <= i < |s| ==> ('0' <= s[i] <= '9') || ('a' <= s[i] <= 'f')
  }

  /** The big-endian value of a string of hex digits of either case. */
  function HexValue(s: string): nat
    requires AllHexDigits(s)
  {
    if s == [] then 0 else 16 * HexValue(s[..|s| - 1]) + HexDigitValue(s[|s| - 1])
  }

  /** `Number#toString(16)` on a non-negative integer: lower case, no leading zeros. */
  function NatToHex(n: nat): string
  {
    if n < 16 then [LowerHexDigit(n)] else NatToHex(n / 16) + [LowerHexDigit(n % 16)]
  }

  /** The hex text of `n` is a run of lower-case hex digits worth `n`, one
    * digit exactly when `n < 16`, with no leading zero. */
  lemma {:induction false} NatToHexSpec(n: nat)
    ensures var r := NatToHex(n);
      && |r| >= 1 && AllHexDigits(r) && IsLowerHex(r)
      && HexValue(r) == n
      && (n < 16 <==> |r| == 1)
      && (r[0] == '0' ==> r == "0")
    decreases n
  {
    if n >= 16 {
      NatToHexSpec(n / 16);
      var r := NatToHex(n);
      var front := NatToHex(n / 16);
      assert r == front + [LowerHexDigit(n % 16)];
      assert r[..|r| - 1] == front;
      AllHexDigitsConcat(front, [LowerHexDigit(n % 16)]);
    }
  }

  /** A byte as exactly two lower-case hex digits, high nibble first. */
  function HexByte(b: Byte): (r: string)
    ensures |r| == 2 && AllHexDigits(r) && IsLowerHex(r)
    ensures HexValue(r) == b
  {
    var r := [LowerHexDigit(b / 16), LowerHexDigit(b % 16)];
    assert r[..1] == [r[0]] && r[..1][..0] == [];
    assert HexValue(r[..1]) == b / 16;
    r
  }

}
