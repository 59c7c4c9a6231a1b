/**
 * The command editor's line parser (`parseCommandLine` in
 * src/components/CommandView.tsx): one editor line becomes a command full name
 * `prefix.component.command` and a list of typed parameters.
 */
module CommandLine {
  import opened Wrappers
  import opened JsString

  /** `ParameterValue`: a `0x` token is bytes together with its `BigInt` value,
    * any other token an integer or a double. */
  datatype ParameterValue =
    | BytesValue(bytes: seq<Byte>, bigint: nat)
    | DoubleValue(double: JsFloat)
    | IntegerValue(integer: int)

  datatype CommandName = CommandName(prefix: string, component: string, command: string)

  datatype CommandLine = CommandLine(command: CommandName, parameters: seq<ParameterValue>)

  /** The two errors the parser throws. */
  datatype ParseError =
    | InvalidCommandFullName(fullname: string)
    | InvalidHexBytesSyntax

  // ---------------------------------------------------------------------------
  // Command full name

  /** The dotted text of a command name. */
  function FullName(n: CommandName): string
  {
    n.prefix + "." + n.component + "." + n.command
  }

  predicate DotFree(n: CommandName)
  {
    '.' !in n.prefix && '.' !in n.component && '.' !in n.command
  }

  /** `parseCommandFullName`: exactly three dot-separated parts, or an error. */
  function ParseCommandFullName(fullname: string): (r: Result<CommandName, ParseError>)
    ensures r.Success? ==> DotFree(r.value) && FullName(r.value) == fullname
    ensures r.Failure? ==> r.error == InvalidCommandFullName(fullname)
  {
    var parts := Split(fullname, '.');
    if |parts| != 3 then
      Failure(InvalidCommandFullName(fullname))
    else
      assert Join(parts[2..], '.') == parts[2];
      assert Join(parts[1..], '.') == parts[1] + "." + parts[2];
      Success(CommandName(parts[0], parts[1], parts[2]))
  }

  /** Every dot-free triple is accepted and comes back unchanged, so together
    * with the contract above a full name parses exactly when it is three
    * dot-free parts joined by dots. */
  lemma FullNameRoundTrip(n: CommandName)
    requires DotFree(n)
    ensures ParseCommandFullName(FullName(n)) == Success(n)
  {
    var parts := [n.prefix, n.component, n.command];
    assert Join(parts, '.') == FullName(n) by {
      assert Join(parts[2..], '.') == n.command;
      assert Join(parts[1..], '.') == n.component + "." + n.command;
    }
    SplitJoin(parts, '.');
  }

  // ---------------------------------------------------------------------------
  // 0x hex bytes

  /** Odd-length digit strings get one leading `0`. */
  function PadEven(s: string): (r: string)
    ensures |r| % 2 == 0 && |r| == 2 * ((|s| + 1) / 2)
  {
    if |s| % 2 != 0 then "0" + s else s
  }

  /** An even-length string of hex digits read two digits per byte. */
  function DecodeHex(s: string): (r: seq<Byte>)
    requires |s| % 2 == 0 && AllHexDigits(s)
    ensures 2 * |r| == |s|
  {
    if s == [] then []
    else
      var n := |s|;
      DecodeHex(s[..n - 2]) + [16 * HexDigitValue(s[n - 2]) + HexDigitValue(s[n - 1])]
  }

  /** The unsigned big-endian value of a byte string. */
  function BigEndian(bytes: seq<Byte>): nat
  {
    if bytes == [] then 0 else 256 * BigEndian(bytes[..|bytes| - 1]) + bytes[|bytes| - 1]
  }

  /** A leading zero digit does not change a hex value. */
  lemma {:induction false} HexValueLeadingZero(s: string)
    requires AllHexDigits(s)
    ensures AllHexDigits("0" + s) && HexValue("0" + s) == HexValue(s)
    decreases |s|
  {
    var z := "0" + s;
    if s != [] {
      assert z[..|z| - 1] == "0" + s[..|s| - 1];
      HexValueLeadingZero(s[..|s| - 1]);
    } else {
      assert z[..0] == [];
    }
  }

  /** The last digit pair of an even-length hex string: its byte closes the
    * decoding, and it adds two hex places to the value. */
  lemma DecodeHexStep(s: string)
    requires |s| % 2 == 0 && AllHexDigits(s) && s != []
    ensures AllHexDigits(s[..|s| - 2])
    ensures DecodeHex(s) == DecodeHex(s[..|s| - 2]) + [16 * HexDigitValue(s[|s| - 2]) + HexDigitValue(s[|s| - 1])]
  {
  }

  lemma HexValueStep(s: string)
    requires AllHexDigits(s) && |s| >= 2
    ensures AllHexDigits(s[..|s| - 2])
    ensures HexValue(s) == 256 * HexValue(s[..|s| - 2]) + 16 * HexDigitValue(s[|s| - 2]) + HexDigitValue(s[|s| - 1])
  {
    var mid := s[..|s| - 1];
    assert mid[..|mid| - 1] == s[..|s| - 2];
  }

  lemma BigEndianSnoc(front: seq<Byte>, b: Byte)
    ensures BigEndian(front + [b]) == 256 * BigEndian(front) + b
  {
    assert (front + [b])[..|front|] == front;
  }

  /** Decoding two digits per byte keeps the big-endian value of the digits. */
  lemma {:induction false} DecodeHexValue(s: string)
    requires |s| % 2 == 0 && AllHexDigits(s)
    ensures BigEndian(DecodeHex(s)) == HexValue(s)
    decreases |s|
  {
    if s != [] {
      var front := s[..|s| - 2];
      DecodeHexStep(s);
      HexValueStep(s);
      DecodeHexValue(front);
      BigEndianSnoc(DecodeHex(front), 16 * HexDigitValue(s[|s| - 2]) + HexDigitValue(s[|s| - 1]));
    }
  }

  /** The byte written by the digit pair starting at `2 * j`. */
  function PairValue(s: string, j: nat): Byte
    requires AllHexDigits(s) && 2 * j + 1 < |s|
  {
    16 * HexDigitValue(s[2 * j]) + HexDigitValue(s[2 * j + 1])
  }

  /** Byte `j` of the decoding is the value of digit pair `j`. */
  lemma {:induction false} DecodeHexAt(s: string)
    requires |s| % 2 == 0 && AllHexDigits(s)
    ensures forall j :: 0 <= j < |s| / 2 ==> DecodeHex(s)[j] == PairValue(s, j)
    decreases |s|
  {
    if s != [] {
      var n := |s|;
      var front := s[..n - 2];
      DecodeHexStep(s);
      DecodeHexAt(front);
      forall j | 0 <= j < n / 2
        ensures DecodeHex(s)[j] == PairValue(s, j)
      {
        if j < (n - 2) / 2 {
          assert DecodeHex(s)[j] == DecodeHex(front)[j];
          assert PairValue(front, j) == PairValue(s, j);
        } else {
          assert 2 * j == n - 2;
        }
      }
    }
  }

  /** `parseHexBytes`: the digits after `0x` must match `^[0-9a-fA-F]+$`; an odd
    * count is padded with a leading `0`, then each pair of digits fills one
    * element of a fresh byte array. */
  method ParseHexBytes(source: string) returns (r: Result<seq<Byte>, ParseError>)
    ensures r.Success? <==> source != [] && AllHexDigits(source)
    ensures r.Failure? ==> r.error == InvalidHexBytesSyntax
    ensures r.Success? ==> |r.value| == (|source| + 1) / 2
    ensures r.Success? ==> BigEndian(r.value) == HexValue(source)
    ensures r.Success? ==> r.value == DecodeHex(PadEven(source))
  {
    if source == [] || !AllHexDigits(source) {
      return Failure(InvalidHexBytesSyntax);
    }
    var padded := PadEven(source);
    PaddedValue(source);
    var bytes := FillPairs(padded);
    r := Success(bytes);
  }

  /** The loop of `parseHexBytes`: element `k` of a fresh byte array takes the
    * digit pair at `2 * k`. */
  method FillPairs(padded: string) returns (r: seq<Byte>)
    requires |padded| % 2 == 0 && AllHexDigits(padded)
    ensures r == DecodeHex(padded)
  {
    var bytes := new Byte[|padded| / 2];
    var k := 0;
    while k < bytes.Length
      invariant 0 <= k <= bytes.Length && 2 * bytes.Length == |padded|
      invariant forall j :: 0 <= j < k ==> bytes[j] == PairValue(padded, j)
    {
      bytes[k] := 16 * HexDigitValue(padded[2 * k]) + HexDigitValue(padded[2 * k + 1]);
      k := k + 1;
    }
    DecodeHexAt(padded);
    r := bytes[..];
  }

  /** The padded digits decode to bytes with the value of the original digits. */
  lemma PaddedValue(source: string)
    requires AllHexDigits(source)
    ensures AllHexDigits(PadEven(source))
    ensures BigEndian(DecodeHex(PadEven(source))) == HexValue(source)
  {
    if |source| % 2 != 0 {
      HexValueLeadingZero(source);
    }
    DecodeHexValue(PadEven(source));
  }

  // ---------------------------------------------------------------------------
  // Decimal tokens

  predicate IsSign(c: char) { c == '+' || c == '-' }

  /** The longest prefix of decimal digits. */
  function DigitPrefix(s: string): (r: string)
    ensures |r| <= |s| && r == s[..|r|] && AllDigits(r)
    ensures |r| < |s| ==> !IsDigit(s[|r|])
  {
    if s != [] && IsDigit(s[0]) then [s[0]] + DigitPrefix(s[1..]) else []
  }

  /** The text after one optional leading sign. */
  function Unsigned(t: string): string
  {
    if t != [] && IsSign(t[0]) then t[1..] else t
  }

  /** `parseInt(s, 10)`: leading whitespace, an optional sign, then the longest
    * run of digits; `None` stands for NaN (no digit at that place). */
  function ParseInt(s: string): (r: Option<int>)
    ensures var digits := DigitPrefix(Unsigned(TrimStart(s)));
      && (r.None? <==> digits == [])
      && (r.Some? ==> (if r.value < 0 then -r.value else r.value) == DecimalValue(digits))
      && (r.Some? && r.value < 0 ==> TrimStart(s)[0] == '-')
      && (r.Some? && TrimStart(s)[0] == '-' ==> r.value == -(DecimalValue(digits) as int))
      && (r.Some? && TrimStart(s)[0] != '-' ==> r.value == DecimalValue(digits))
  {
    var t := TrimStart(s);
    var negative := t != [] && t[0] == '-';
    var digits := DigitPrefix(Unsigned(t));
    if digits == [] then None
    else Some(if negative then -(DecimalValue(digits) as int) else DecimalValue(digits))
  }

  /** Digits and the minus sign are not whitespace. */
  lemma SignOrDigitNotSpace(c: char)
    requires IsDigit(c) || c == '-'
    ensures !IsSpace(c)
  {
  }

  /** `parseInt` reads back what `${i}` writes for any integer. */
  lemma ParseIntOfDecimal(i: int)
    ensures ParseInt(IntToDecimal(i)) == Some(i)
  {
    var s := IntToDecimal(i);
    SignOrDigitNotSpace(s[0]);
    assert TrimStart(s) == s;
    if i < 0 {
      DigitPrefixAll(s[1..]);
    } else {
      DigitPrefixAll(s);
    }
  }

  /** Text that does not start (after whitespace and an optional sign) with a
    * digit is NaN to `parseInt`. */
  lemma ParseIntNaN(s: string)
    requires var t := TrimStart(s);
      t == [] || (!IsDigit(t[0]) && (!IsSign(t[0]) || |t| == 1 || !IsDigit(t[1])))
    ensures ParseInt(s) == None
  {
  }

  lemma {:induction false} DigitPrefixAll(s: string)
    requires AllDigits(s)
    ensures DigitPrefix(s) == s
  {
    if s != [] {
      DigitPrefixAll(s[1..]);
    }
  }

  // ---------------------------------------------------------------------------
  // Parameters

  /** What a token without the `0x` prefix becomes: the integer `parseInt`
    * reads when `parseFloat` reads the same finite number (the `!==` test is
    * false), and otherwise the double `parseFloat` reads, NaN included. */
  predicate DecimalToken(source: string, parseFloat: string -> JsFloat, v: ParameterValue)
  {
    var integer := ParseInt(source);
    var agree := integer.Some? && parseFloat(source) == Finite(integer.value as real);
    && (v.IntegerValue? <==> agree)
    && (v.IntegerValue? ==> v.integer == integer.value)
    && (!v.IntegerValue? ==> v == DoubleValue(parseFloat(source)))
  }

  /** `parseParameter`. A `0x` token is hex bytes and its `BigInt` value; any
    * other token is an integer when `parseInt` and `parseFloat` agree on it and
    * a double otherwise. `parseFloat` is supplied by the caller. */
  function ParseParameter(source: string, parseFloat: string -> JsFloat): (r: Result<ParameterValue, ParseError>)
    ensures r.Failure? <==> StartsWith(source, "0x") && (|source| == 2 || !AllHexDigits(source[2..]))
    ensures r.Failure? ==> r.error == InvalidHexBytesSyntax
    ensures r.Success? ==> (r.value.BytesValue? <==> StartsWith(source, "0x"))
    ensures !StartsWith(source, "0x") ==> r.Success? && DecimalToken(source, parseFloat, r.value)
  {
    if StartsWith(source, "0x") then
      var digits := source[2..];
      if digits == [] || !AllHexDigits(digits) then
        Failure(InvalidHexBytesSyntax)
      else
        Success(BytesValue(DecodeHex(PadEven(digits)), HexValue(digits)))
    else
      var integer := ParseInt(source);
      var double := parseFloat(source);
      if integer.Some? && double == Finite(integer.value as real) then
        Success(IntegerValue(integer.value))
      else
        Success(DoubleValue(double))
  }

  /** The `0x` case: the token is rejected exactly when its digits are empty or
    * not all hex; otherwise it yields ceil(digits / 2) bytes whose big-endian
    * value is the `bigint` stored beside them. */
  lemma HexParameter(digits: string, parseFloat: string -> JsFloat)
    ensures var r := ParseParameter("0x" + digits, parseFloat);
      && (r.Failure? <==> digits == [] || !AllHexDigits(digits))
      && (r.Failure? ==> r.error == InvalidHexBytesSyntax)
      && (r.Success? ==>
            (r.value.BytesValue?
             && |r.value.bytes| == (|digits| + 1) / 2
             && BigEndian(r.value.bytes) == r.value.bigint == HexValue(digits)))
  {
    var source := "0x" + digits;
    assert StartsWith(source, "0x") && source[2..] == digits;
    if digits != [] && AllHexDigits(digits) {
      PaddedValue(digits);
    }
  }

  /** A token that is not `0x`-prefixed is never rejected. It is an integer
    * exactly when `parseInt` finds digits in it and `parseFloat` reads the same
    * number, and then it is that integer; otherwise it is the double
    * `parseFloat` reads. A token without leading digits is always a double. */
  lemma DecimalParameter(source: string, parseFloat: string -> JsFloat)
    requires !StartsWith(source, "0x")
    ensures var r := ParseParameter(source, parseFloat);
      && r.Success?
      && (r.value.IntegerValue? <==> ParseInt(source).Some?
                                     && parseFloat(source) == Finite(ParseInt(source).value as real))
      && (r.value.IntegerValue? ==> ParseInt(source) == Some(r.value.integer)
                                    && parseFloat(source) == Finite(r.value.integer as real))
      && (!r.value.IntegerValue? ==> r.value == DoubleValue(parseFloat(source)))
      && (ParseInt(source).None? ==> r.value == DoubleValue(parseFloat(source)))
  {
  }

  /** A canonical decimal integer token is that integer, given a `parseFloat`
    * that reads it as the same number; "-5" is never read as 5. */
  lemma DecimalIntegerToken(i: int, parseFloat: string -> JsFloat)
    requires parseFloat(IntToDecimal(i)) == Finite(i as real)
    ensures ParseParameter(IntToDecimal(i), parseFloat) == Success(IntegerValue(i))
  {
    var s := IntToDecimal(i);
    assert !StartsWith(s, "0x");
    ParseIntOfDecimal(i);
    DecimalParameter(s, parseFloat);
  }

  /** `params.map(parseParameter)`: the first token that throws decides the error. */
  function ParseParameters(tokens: seq<string>, parseFloat: string -> JsFloat): (r: Result<seq<ParameterValue>, ParseError>)
    ensures r.Success? ==> |r.value| == |tokens|
    ensures r.Success? <==> forall i :: 0 <= i < |tokens| ==> ParseParameter(tokens[i], parseFloat).Success?
    ensures r.Success? ==> forall i :: 0 <= i < |tokens| ==> ParseParameter(tokens[i], parseFloat) == Success(r.value[i])
    ensures r.Failure? ==> exists i :: FirstFailure(tokens, parseFloat, i) && ParseParameter(tokens[i], parseFloat) == Failure(r.error)
  {
    if tokens == [] then Success([])
    else
      var head := ParseParameter(tokens[0], parseFloat);
      if head.Failure? then
        assert FirstFailure(tokens, parseFloat, 0);
        Failure(head.error)
      else
        var tail := ParseParameters(tokens[1..], parseFloat);
        if tail.Failure? then
          var i :| FirstFailure(tokens[1..], parseFloat, i) && ParseParameter(tokens[1..][i], parseFloat) == Failure(tail.error);
          assert FirstFailure(tokens, parseFloat, i + 1) by {
            forall j | 0 <= j < i + 1 ensures ParseParameter(tokens[j], parseFloat).Success? {
              if j > 0 { assert tokens[j] == tokens[1..][j - 1]; }
            }
          }
          Failure(tail.error)
        else
          Success([head.value] + tail.value)
  }

  /** Token `i` is the first one whose parameter does not parse. */
  predicate FirstFailure(tokens: seq<string>, parseFloat: string -> JsFloat, i: int)
  {
    && 0 <= i < |tokens|
    && ParseParameter(tokens[i], parseFloat).Failure?
    && forall j :: 0 <= j < i ==> ParseParameter(tokens[j], parseFloat).Success?
  }

  // ---------------------------------------------------------------------------
  // The whole line

  /** The text after the one optional leading `.` stop marker. */
  function StripStopMarker(trimmed: string): (r: string)
    ensures StartsWith(trimmed, ".") ==> "." + r == trimmed
    ensures !StartsWith(trimmed, ".") ==> r == trimmed
  {
    if StartsWith(trimmed, ".") then trimmed[1..] else trimmed
  }

  /** What the parser splits a line into: trim, drop one leading `.` stop
    * marker, trim again, split on runs of whitespace. */
  function CommandTokens(source: string): (r: seq<string>)
    ensures |r| >= 1
  {
    SplitWhitespace(Trim(StripStopMarker(Trim(source))))
  }

  /** `parseCommandLine`: the first token is the command full name, each further
    * token one parameter. The name is parsed before the parameters, so a bad
    * name is reported even when a parameter is bad too. */
  function ParseCommandLine(source: string, parseFloat: string -> JsFloat): (r: Result<CommandLine, ParseError>)
    ensures var tokens := CommandTokens(source);
      && (r.Success? ==> |r.value.parameters| == |tokens| - 1)
      && (r.Success? ==> ParseCommandFullName(tokens[0]) == Success(r.value.command)
                         && ParseParameters(tokens[1..], parseFloat) == Success(r.value.parameters))
      && (ParseCommandFullName(tokens[0]).Failure? ==> r == Failure(InvalidCommandFullName(tokens[0])))
      && (ParseCommandFullName(tokens[0]).Success? && ParseParameters(tokens[1..], parseFloat).Failure? ==>
            r == Failure(ParseParameters(tokens[1..], parseFloat).error))
      && (r.Success? <==> ParseCommandFullName(tokens[0]).Success? && ParseParameters(tokens[1..], parseFloat).Success?)
      && (ParseCommandFullName(tokens[0]).Success? && ParseParameters(tokens[1..], parseFloat).Success? ==>
            r == Success(CommandLine(ParseCommandFullName(tokens[0]).value, ParseParameters(tokens[1..], parseFloat).value)))
  {
    ParseTokens(CommandTokens(source), parseFloat)
  }

  /** The tokens of a line read as a command name and its parameters. */
  function ParseTokens(tokens: seq<string>, parseFloat: string -> JsFloat): (r: Result<CommandLine, ParseError>)
    requires |tokens| >= 1
    ensures r.Success? ==> |r.value.parameters| == |tokens| - 1
    ensures r.Success? ==> ParseCommandFullName(tokens[0]) == Success(r.value.command)
                           && ParseParameters(tokens[1..], parseFloat) == Success(r.value.parameters)
    ensures ParseCommandFullName(tokens[0]).Failure? ==> r == Failure(InvalidCommandFullName(tokens[0]))
    ensures ParseCommandFullName(tokens[0]).Success? && ParseParameters(tokens[1..], parseFloat).Failure? ==>
      r == Failure(ParseParameters(tokens[1..], parseFloat).error)
    ensures r.Success? <==> ParseCommandFullName(tokens[0]).Success? && ParseParameters(tokens[1..], parseFloat).Success?
    ensures ParseCommandFullName(tokens[0]).Success? && ParseParameters(tokens[1..], parseFloat).Success? ==>
      r == Success(CommandLine(ParseCommandFullName(tokens[0]).value, ParseParameters(tokens[1..], parseFloat).value))
  {
    var command :- ParseCommandFullName(tokens[0]);
    var parameters :- ParseParameters(tokens[1..], parseFloat);
    Success(CommandLine(command, parameters))
  }

  /** Surrounding whitespace is discarded. */
  lemma ParseIgnoresSurroundingSpace(w1: string, s: string, w2: string, parseFloat: string -> JsFloat)
    requires AllSpace(w1) && AllSpace(w2)
    ensures ParseCommandLine(w1 + s + w2, parseFloat) == ParseCommandLine(s, parseFloat)
  {
    SurroundingSpaceTokens(w1, s, w2);
  }

  lemma SurroundingSpaceTokens(w1: string, s: string, w2: string)
    requires AllSpace(w1) && AllSpace(w2)
    ensures CommandTokens(w1 + s + w2) == CommandTokens(s)
  {
    TrimSurrounded(w1, s, w2);
  }

  /** One leading `.` stop marker is discarded: `.X` parses as `X` as long as
    * `X` does not itself start with a second marker. */
  lemma StopMarkerDiscarded(x: string, parseFloat: string -> JsFloat)
    requires !StartsWith(Trim(x), ".")
    ensures ParseCommandLine("." + x, parseFloat) == ParseCommandLine(x, parseFloat)
  {
    StopMarkerTokens(x);
  }

  lemma StopMarkerTokens(x: string)
    requires !StartsWith(Trim(x), ".")
    ensures CommandTokens("." + x) == CommandTokens(x)
  {
    MarkedTokens(x);
    UnmarkedTokens(x);
  }

  /** A marked line splits like its trimmed rest. */
  lemma MarkedTokens(x: string)
    ensures CommandTokens("." + x) == SplitWhitespace(Trim(x))
  {
    var tx := TrimEnd(x);
    TrimMarked(x);
    assert StripStopMarker(Trim("." + x)) == tx by {
      assert ("." + tx)[1..] == tx;
    }
    TrimOfTrimEnd(x);
  }

  /** An unmarked line splits like its trimmed self. */
  lemma UnmarkedTokens(x: string)
    requires !StartsWith(Trim(x), ".")
    ensures CommandTokens(x) == SplitWhitespace(Trim(x))
  {
    TrimIdempotent(x);
  }

  /** Trimming a marked line keeps the marker and trims the rest at the end. */
  lemma TrimMarked(x: string)
    ensures Trim("." + x) == "." + TrimEnd(x)
  {
    assert !IsSpace('.');
    TrimEndAppend(".", x);
    var e := "." + TrimEnd(x);
    assert e[0] == '.';
    assert TrimStart(e) == e;
  }

  /** Writing a command name and parameter tokens on one line, separated by
    * single spaces and preceded by the stop marker, parses back to that name and
    * to the tokens' parameters. */
  lemma {:induction false} ParseCommandLineRoundTrip(n: CommandName, tokens: seq<string>, parseFloat: string -> JsFloat)
    requires DotFree(n) && NoSpace(FullName(n))
    requires AreTokens(tokens)
    ensures var line := "." + Join([FullName(n)] + tokens, ' ');
      var ps := ParseParameters(tokens, parseFloat);
      ParseCommandLine(line, parseFloat) ==
        if ps.Success? then Success(CommandLine(n, ps.value)) else Failure(ps.error)
  {
    var all := [FullName(n)] + tokens;
    assert AreTokens(all) by {
      forall i | 0 <= i < |all| ensures all[i] != [] && NoSpace(all[i]) {
        if i > 0 { assert all[i] == tokens[i - 1]; }
      }
    }
    MarkedLineTokens(all);
    FullNameRoundTrip(n);
    assert all[1..] == tokens;
  }

  /** A marked line of single-space separated tokens splits back into them. */
  lemma MarkedLineTokens(all: seq<string>)
    requires |all| >= 1 && AreTokens(all)
    ensures CommandTokens("." + Join(all, ' ')) == all
  {
    var joined := Join(all, ' ');
    var last := all[|all| - 1];
    JoinEnds(all, ' ');
    assert NoSpace(all[0]) && NoSpace(last);
    assert !IsSpace(all[0][0]) && !IsSpace(last[|last| - 1]);
    assert IsTrimmed(joined);
    TrimmedIsFixed(joined);
    var marked := "." + joined;
    TrimMarked(joined);
    assert Trim(marked) == marked;
    StripMarkerOf(joined);
    assert CommandTokens(marked) == SplitWhitespace(joined);
    SplitWhitespaceJoin(all);
  }

  /** The stop marker in front of a line is dropped, and nothing else. */
  lemma StripMarkerOf(x: string)
    ensures StripStopMarker("." + x) == x
  {
    assert ("." + x)[1..] == x;
  }

  /** A line joined from non-blank tokens starts with the first token's first
    * character and ends with the last token's last character. */
  lemma {:induction false} JoinEnds(parts: seq<string>, sep: char)
    requires |parts| >= 1 && forall i :: 0 <= i < |parts| ==> parts[i] != []
    ensures var j := Join(parts, sep);
      j != [] && j[0] == parts[0][0] && j[|j| - 1] == parts[|parts| - 1][|parts[|parts| - 1]| - 1]
  {
    if |parts| > 1 {
      JoinEnds(parts[1..], sep);
    }
  }
}
