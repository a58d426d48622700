/**
 * Parsers: NumberParser, TimeParser and UserInputParser
 * (RestaurantMenu/parsers.cpp).
 *
 * Each parser class keeps the last result and a validity flag; `Parse`
 * resets both and then sets them on success. What a token parses to is
 * given by the functions ParseNumber and ParseTime, whose properties are
 * proved as lemmas.
 */
module Parsers {
  import opened Wrappers
  import opened StringUtils
  import opened Models

  // ---------------------------------------------------------------------
  // Numbers
  // ---------------------------------------------------------------------

  /** The characters NumberParser admits once commas are dots. */
  predicate IsNumberChar(c: char) {
    IsDigitAscii(c) || c == '.' || c == '-'
  }

  /** Every character is one NumberParser admits. */
  predicate NumberChars(t: string) {
    forall i :: 0 <= i < |t| ==> IsNumberChar(t[i])
  }

  /** A comma becomes a decimal point; every other character stays. */
  function DotFor(c: char): char {
    if c == ',' then '.' else c
  }

  /** The comma-to-point replacement of the first loop of NumberParser::parse. */
  function CommasToDots(s: string): (r: string)
    ensures |r| == |s|
  {
    seq(|s|, i requires 0 <= i < |s| => DotFor(s[i]))
  }

  function Pow10(n: nat): (p: nat)
    ensures p >= 1
  {
    if n == 0 then 1 else 10 * Pow10(n - 1)
  }

  /** The exact value of the unsigned decimal ip.fp. */
  function UnsignedValue(ip: string, fp: string): real
    requires AllDigits(ip) && AllDigits(fp)
  {
    DigitsValue(ip) as real + DigitsValue(fp) as real / Pow10(|fp|) as real
  }

  /** An unsigned decimal: digits, at most one point, digits, and at least one digit. */
  function ParseUnsigned(t: string): Option<real> {
    var p := IndexOf(t, '.', 0);
    var ip := t[..p];
    var fp := if p < |t| then t[p + 1..] else "";
    if AllDigits(ip) && AllDigits(fp) && |ip| + |fp| > 0 then Some(UnsignedValue(ip, fp)) else None
  }

  /**
   * `ss >> value` on a token drawn from [0-9.-], followed by the test
   * `ss.fail() || !ss.eof()`: the stream reads an optional sign, digits and
   * at most one point; the conversion needs a digit; eof holds only when the
   * whole token was read.
   */
  function StreamExtract(t: string): Option<real> {
    if |t| > 0 && t[0] == '-' then
      match ParseUnsigned(t[1..])
      case None => None
      case Some(v) => Some(-v)
    else
      ParseUnsigned(t)
  }

  /** NumberParser::parse: what a token yields, or None when it is rejected. */
  function ParseNumber(s: string): Option<real> {
    if s == [] then None
    else
      var t := CommasToDots(s);
      if NumberChars(t) then StreamExtract(t) else None
  }

  /** The decimal literal [-]ip[sep fp], sep a point or a comma. */
  function NumberLiteral(neg: bool, ip: string, sep: Option<char>, fp: string): string {
    (if neg then "-" else "") + ip + (match sep case None => "" case Some(c) => [c] + fp)
  }

  lemma IndexOfAbsent(s: string, c: char, from: nat)
    requires forall i :: 0 <= i < |s| ==> s[i] != c
    ensures IndexOf(s, c, from) == |s|
    decreases |s| - from
  {
    if from < |s| {
      IndexOfAbsent(s, c, from + 1);
    }
  }

  lemma IndexOfFirst(s: string, c: char, k: nat)
    requires k < |s| && s[k] == c && forall i :: 0 <= i < k ==> s[i] != c
    ensures IndexOf(s, c, 0) == k
  {
  }

  lemma CommasToDotsAppend(a: string, b: string)
    ensures CommasToDots(a + b) == CommasToDots(a) + CommasToDots(b)
  {
  }

  lemma CommasToDotsKeeps(a: string)
    requires ',' !in a
    ensures CommasToDots(a) == a
  {
  }

  /** The unsigned literal ip[.fp]. */
  function PointLiteral(ip: string, point: bool, fp: string): string {
    ip + (if point then "." + fp else "")
  }

  /** The unsigned part ip[.fp] on its own. */
  lemma UnsignedAccepted(ip: string, point: bool, fp: string)
    requires AllDigits(ip) && AllDigits(fp) && |ip| + |fp| > 0
    requires !point ==> fp == ""
    ensures var u := PointLiteral(ip, point, fp);
            ParseUnsigned(u) == Some(UnsignedValue(ip, fp)) &&
            (forall i :: 0 <= i < |u| ==> IsNumberChar(u[i])) &&
            u[0] != '-'
  {
    var u := PointLiteral(ip, point, fp);
    if point {
      IndexOfFirst(u, '.', |ip|);
      assert u[..|ip|] == ip && u[|ip| + 1..] == fp;
    } else {
      assert u == ip;
      IndexOfAbsent(u, '.', 0);
      assert u[..|u|] == ip;
    }
    assert forall i :: 0 <= i < |u| ==> IsNumberChar(u[i]) by {
      forall i | 0 <= i < |u|
        ensures IsNumberChar(u[i])
      {
        if i < |ip| {
          assert u[i] == ip[i];
        } else if i > |ip| {
          assert u[i] == fp[i - |ip| - 1];
        }
      }
    }
  }

  /** The separator and fraction of a literal, commas replaced. */
  lemma SeparatorDots(sep: Option<char>, fp: string)
    requires AllDigits(fp)
    requires sep.Some? ==> sep.value == '.' || sep.value == ','
    ensures CommasToDots(match sep case None => "" case Some(c) => [c] + fp) == (if sep.Some? then "." + fp else "")
  {
    if sep.Some? {
      CommasToDotsAppend([sep.value], fp);
      CommasToDotsKeeps(fp);
    }
  }

  /** Replacing commas in a literal leaves the same literal written with a point. */
  lemma LiteralDots(neg: bool, ip: string, sep: Option<char>, fp: string)
    requires AllDigits(ip) && AllDigits(fp)
    requires sep.Some? ==> sep.value == '.' || sep.value == ','
    ensures CommasToDots(NumberLiteral(neg, ip, sep, fp)) == (if neg then "-" else "") + PointLiteral(ip, sep.Some?, fp)
  {
    var sign := if neg then "-" else "";
    var tail := match sep case None => "" case Some(c) => [c] + fp;
    calc {
      CommasToDots(NumberLiteral(neg, ip, sep, fp));
      { assert NumberLiteral(neg, ip, sep, fp) == sign + (ip + tail); }
      CommasToDots(sign + (ip + tail));
      { CommasToDotsAppend(sign, ip + tail); CommasToDotsKeeps(sign); }
      sign + CommasToDots(ip + tail);
      { CommasToDotsAppend(ip, tail); CommasToDotsKeeps(ip); }
      sign + (ip + CommasToDots(tail));
      { SeparatorDots(sep, fp); }
      sign + PointLiteral(ip, sep.Some?, fp);
    }
  }


  /** ParseNumber of a token whose comma replacement is an optional minus before u. */
  lemma ParseNumberOfDots(s: string, neg: bool, u: string)
    requires u != [] && u[0] != '-' && forall i :: 0 <= i < |u| ==> IsNumberChar(u[i])
    requires CommasToDots(s) == (if neg then "-" else "") + u
    ensures ParseNumber(s) == if neg then (match ParseUnsigned(u) case None => None case Some(v) => Some(-v)) else ParseUnsigned(u)
  {
    var t := CommasToDots(s);
    assert s != [];
    assert forall i :: 0 <= i < |t| ==> IsNumberChar(t[i]) by {
      forall i | 0 <= i < |t|
        ensures IsNumberChar(t[i])
      {
        if neg && i > 0 {
          assert t[i] == u[i - 1];
        }
      }
    }
    assert ParseNumber(s) == StreamExtract(t);
    if neg {
      assert t[0] == '-' && t[1..] == u;
    } else {
      assert t == u;
    }
  }

  /**
   * Every literal [-]ip[.fp] or [-]ip[,fp] with at least one digit is
   * accepted, with its exact decimal value.
   */
  lemma NumberLiteralAccepted(neg: bool, ip: string, sep: Option<char>, fp: string)
    requires AllDigits(ip) && AllDigits(fp) && |ip| + |fp| > 0
    requires sep == None ==> fp == ""
    requires sep.Some? ==> sep.value == '.' || sep.value == ','
    ensures ParseNumber(NumberLiteral(neg, ip, sep, fp)) ==
      Some(if neg then -UnsignedValue(ip, fp) else UnsignedValue(ip, fp))
  {
    UnsignedAccepted(ip, sep.Some?, fp);
    LiteralDots(neg, ip, sep, fp);
    ParseNumberOfDots(NumberLiteral(neg, ip, sep, fp), neg, PointLiteral(ip, sep.Some?, fp));
  }

  /** An accepted unsigned literal has no minus and at least one digit. */
  lemma UnsignedShape(u: string)
    requires ParseUnsigned(u).Some?
    ensures '-' !in u
    ensures exists i :: 0 <= i < |u| && IsDigitAscii(u[i])
  {
    var p := IndexOf(u, '.', 0);
    var ip := u[..p];
    var fp := if p < |u| then u[p + 1..] else "";
    forall i | 0 <= i < |u|
      ensures u[i] != '-'
    {
      if i < p {
        assert u[i] == ip[i];
      } else if i > p {
        assert u[i] == fp[i - p - 1];
      }
    }
    assert '-' !in u;
    if |ip| > 0 {
      assert IsDigitAscii(u[0]);
    } else {
      assert IsDigitAscii(u[p + 1]);
    }
  }

  /** An accepted token is an optional minus before an accepted unsigned literal. */
  lemma AcceptedUnsignedPart(s: string)
    requires ParseNumber(s).Some?
    ensures s != [] && ParseUnsigned(CommasToDots(s)[if CommasToDots(s)[0] == '-' then 1 else 0..]).Some?
  {
  }

  /** One character of an accepted token, given the shape of its comma-free form t. */
  lemma AcceptedChar(s: string, t: string, i: nat)
    requires t == CommasToDots(s) && NumberChars(t) && i < |s|
    requires t[0] == '-' ==> '-' !in t[1..]
    requires t[0] != '-' ==> '-' !in t
    ensures IsDigitAscii(s[i]) || s[i] == '.' || s[i] == ',' || (i == 0 && s[i] == '-')
  {
    assert t[i] == DotFor(s[i]) && IsNumberChar(t[i]);
    if i > 0 && t[0] == '-' {
      assert t[i] == t[1..][i - 1];
    }
  }

  /** Each character of an accepted token is a digit, a point, a comma or a leading minus. */
  lemma AcceptedChars(s: string)
    requires ParseNumber(s).Some?
    ensures forall i :: 0 <= i < |s| ==> IsDigitAscii(s[i]) || s[i] == '.' || s[i] == ',' || (i == 0 && s[i] == '-')
  {
    var t := CommasToDots(s);
    var off := if t[0] == '-' then 1 else 0;
    AcceptedUnsignedPart(s);
    UnsignedShape(t[off..]);
    assert off == 0 ==> t[off..] == t;
    forall i | 0 <= i < |s|
      ensures IsDigitAscii(s[i]) || s[i] == '.' || s[i] == ',' || (i == 0 && s[i] == '-')
    {
      AcceptedChar(s, t, i);
    }
  }

  /** An accepted token holds a digit. */
  lemma AcceptedHasDigit(s: string)
    requires ParseNumber(s).Some?
    ensures exists i :: 0 <= i < |s| && IsDigitAscii(s[i])
  {
    var t := CommasToDots(s);
    var off := if t[0] == '-' then 1 else 0;
    var u := t[off..];
    AcceptedUnsignedPart(s);
    UnsignedShape(u);
    var k :| 0 <= k < |u| && IsDigitAscii(u[k]);
    assert t[off + k] == u[k] == DotFor(s[off + k]);
  }

  /**
   * What an accepted token looks like: non-empty, made of digits, points,
   * commas and a leading minus only, with at least one digit and no colon.
   */
  lemma NumberAcceptedShape(s: string)
    requires ParseNumber(s).Some?
    ensures s != [] && ':' !in s
    ensures forall i :: 0 <= i < |s| ==> IsDigitAscii(s[i]) || s[i] == '.' || s[i] == ',' || (i == 0 && s[i] == '-')
    ensures exists i :: 0 <= i < |s| && IsDigitAscii(s[i])
  {
    AcceptedChars(s);
    AcceptedHasDigit(s);
  }


  /** The parts of a well-formed literal: digits, at most one separator, and at least one digit. */
  predicate LiteralParts(ip: string, sep: Option<char>, fp: string) {
    && AllDigits(ip) && AllDigits(fp) && |ip| + |fp| > 0
    && (sep == None ==> fp == "")
    && (sep.Some? ==> sep.value == '.' || sep.value == ',')
  }

  /** The unsigned part of an accepted token: digits, an optional point, digits. */
  lemma UnsignedParts(u: string) returns (ip: string, point: bool, fp: string)
    requires ParseUnsigned(u).Some?
    ensures AllDigits(ip) && AllDigits(fp) && |ip| + |fp| > 0 && (!point ==> fp == "")
    ensures u == PointLiteral(ip, point, fp)
  {
    var p := IndexOf(u, '.', 0);
    ip := u[..p];
    point := p < |u|;
    fp := if point then u[p + 1..] else "";
    if point {
      assert u == ip + "." + fp;
    } else {
      assert u == ip;
    }
  }

  /** An accepted token, commas replaced, is an optional minus before an accepted unsigned literal. */
  lemma SignedForm(s: string) returns (neg: bool, u: string)
    requires ParseNumber(s).Some?
    ensures CommasToDots(s) == (if neg then "-" else "") + u
    ensures ParseUnsigned(u).Some?
  {
    var t := CommasToDots(s);
    neg := t[0] == '-';
    u := t[if neg then 1 else 0..];
    AcceptedUnsignedPart(s);
    if neg {
      assert t == t[..1] + u && t[..1] == "-";
    }
  }

  /** The character of the token that became the point of its unsigned part. */
  lemma SeparatorAt(s: string, neg: bool, u: string, ip: string, fp: string) returns (c: char)
    requires CommasToDots(s) == (if neg then "-" else "") + u && u == ip + "." + fp
    ensures (if neg then 1 else 0) + |ip| < |s|
    ensures c == s[(if neg then 1 else 0) + |ip|] && (c == '.' || c == ',')
  {
    var i := (if neg then 1 else 0) + |ip|;
    assert CommasToDots(s)[i] == u[|ip|] == '.';
    c := s[i];
    assert DotFor(c) == '.';
  }

  /** An accepted token split into a well-formed literal's parts. */
  lemma AcceptedParts(s: string) returns (neg: bool, ip: string, sep: Option<char>, fp: string)
    requires ParseNumber(s).Some?
    ensures LiteralParts(ip, sep, fp) && s == NumberLiteral(neg, ip, sep, fp)
  {
    var u, point;
    neg, u := SignedForm(s);
    ip, point, fp := UnsignedParts(u);
    sep := LiteralOfParts(s, neg, u, ip, point, fp);
  }

  /** A token whose comma replacement is [-]ip[.fp] is the literal with the token's own separator. */
  lemma LiteralOfParts(s: string, neg: bool, u: string, ip: string, point: bool, fp: string) returns (sep: Option<char>)
    requires CommasToDots(s) == (if neg then "-" else "") + u
    requires AllDigits(ip) && AllDigits(fp) && |ip| + |fp| > 0 && (!point ==> fp == "")
    requires u == PointLiteral(ip, point, fp)
    ensures LiteralParts(ip, sep, fp) && s == NumberLiteral(neg, ip, sep, fp)
  {
    if point {
      assert u == ip + "." + fp;
      var c := SeparatorAt(s, neg, u, ip, fp);
      sep := Some(c);
    } else {
      assert u == ip;
      sep := None;
    }
    SameLiteral(s, CommasToDots(s), neg, if neg then 1 else 0, u, ip, sep, fp);
  }

  /** Position by position, the token is the literal built from its parts. */
  lemma SameLiteral(s: string, t: string, neg: bool, off: nat, u: string, ip: string, sep: Option<char>, fp: string)
    requires t == CommasToDots(s) && off == (if neg then 1 else 0) && t == (if neg then "-" else "") + u
    requires LiteralParts(ip, sep, fp)
    requires sep.Some? ==> u == ip + "." + fp && sep.value == s[off + |ip|]
    requires sep.None? ==> u == ip
    ensures s == NumberLiteral(neg, ip, sep, fp)
  {
    var lit := NumberLiteral(neg, ip, sep, fp);
    LiteralDots(neg, ip, sep, fp);
    assert |lit| == |s|;
    forall i | 0 <= i < |s|
      ensures s[i] == lit[i]
    {
      LiteralChar(s, lit, t, neg, off, u, ip, sep, fp, i);
    }
  }

  /**
   * The converse of NumberLiteralAccepted: every accepted token is a
   * well-formed literal, and its value is that literal's decimal value.
   */
  lemma NumberAcceptedLiteral(s: string)
    requires ParseNumber(s).Some?
    ensures exists neg, ip, sep, fp ::
      && LiteralParts(ip, sep, fp) && s == NumberLiteral(neg, ip, sep, fp)
      && ParseNumber(s) == Some(if neg then -UnsignedValue(ip, fp) else UnsignedValue(ip, fp))
  {
    var neg, ip, sep, fp := AcceptedParts(s);
    NumberLiteralAccepted(neg, ip, sep, fp);
  }

  /** One position of NumberAcceptedLiteral: away from the separator, the comma replacement changed nothing. */
  lemma LiteralChar(s: string, lit: string, t: string, neg: bool, off: nat, u: string,
                    ip: string, sep: Option<char>, fp: string, i: nat)
    requires t == CommasToDots(s) && t == CommasToDots(lit) && i < |s|
    requires off == (if neg then 1 else 0) && t == (if neg then "-" else "") + u
    requires lit == NumberLiteral(neg, ip, sep, fp) && LiteralParts(ip, sep, fp)
    requires sep.Some? ==> u == ip + "." + fp && sep.value == s[off + |ip|]
    requires sep.None? ==> u == ip
    ensures s[i] == lit[i]
  {
    assert DotFor(s[i]) == t[i] == DotFor(lit[i]);
    if i < off {
      assert t[i] == '-' == lit[i];
    } else if i < off + |ip| {
      assert t[i] == ip[i - off] == lit[i];
    } else if i == off + |ip| {
      assert lit[i] == sep.value;
    } else {
      assert t[i] == fp[i - off - |ip| - 1] == lit[i];
    }
  }

  /** NumberParser::parse accepts a token exactly when it is a well-formed literal. */
  lemma NumberAcceptedIff(s: string)
    ensures ParseNumber(s).Some? <==> exists neg, ip, sep, fp :: LiteralParts(ip, sep, fp) && s == NumberLiteral(neg, ip, sep, fp)
  {
    if ParseNumber(s).Some? {
      NumberAcceptedLiteral(s);
    } else if exists neg, ip, sep, fp :: LiteralParts(ip, sep, fp) && s == NumberLiteral(neg, ip, sep, fp) {
      var neg, ip, sep, fp :| LiteralParts(ip, sep, fp) && s == NumberLiteral(neg, ip, sep, fp);
      NumberLiteralAccepted(neg, ip, sep, fp);
    }
  }

  lemma IntegerExample(s: string)
    requires s == "42"
    ensures ParseNumber(s) == Some(42.0)
  {
    assert UnsignedValue("42", "") == 42.0 by {
      TwoDigits("42");
    }
    assert s == NumberLiteral(false, "42", None, "");
    NumberLiteralAccepted(false, "42", None, "");
  }

  lemma PointExample(s: string)
    requires s == "12.50"
    ensures ParseNumber(s) == Some(12.5)
  {
    assert UnsignedValue("12", "50") == 12.5 by {
      TwoDigits("12");
      TwoDigits("50");
      assert Pow10(2) == 100;
    }
    assert s == NumberLiteral(false, "12", Some('.'), "50");
    NumberLiteralAccepted(false, "12", Some('.'), "50");
  }

  lemma CommaExample(s: string)
    requires s == "7,99"
    ensures ParseNumber(s) == Some(7.99)
  {
    assert UnsignedValue("7", "99") == 7.99 by {
      assert DigitsValue("7") == 7;
      TwoDigits("99");
      assert Pow10(2) == 100;
    }
    assert s == NumberLiteral(false, "7", Some(','), "99");
    NumberLiteralAccepted(false, "7", Some(','), "99");
  }

  lemma NegativeExample(s: string)
    requires s == "-5.25"
    ensures ParseNumber(s) == Some(-5.25)
  {
    assert UnsignedValue("5", "25") == 5.25 by {
      assert DigitsValue("5") == 5;
      TwoDigits("25");
      assert Pow10(2) == 100;
    }
    assert s == NumberLiteral(true, "5", Some('.'), "25");
    NumberLiteralAccepted(true, "5", Some('.'), "25");
  }

  lemma LettersExample(s: string)
    requires s == "abc"
    ensures ParseNumber(s) == None
  {
    assert CommasToDots(s)[0] == 'a';
  }

  lemma TwoPointsExample(s: string)
    requires s == "12.50.30"
    ensures ParseNumber(s) == None
  {
    var t := CommasToDots(s);
    assert t == "12.50.30";
    IndexOfFirst(t, '.', 2);
    assert !IsDigitAscii(t[3..][2]);
  }

  lemma PointsOnlyExample(s: string)
    requires s == ".."
    ensures ParseNumber(s) == None
  {
    var d := CommasToDots(s);
    assert d == "..";
    IndexOfFirst(d, '.', 0);
    assert !IsDigitAscii(d[1..][0]);
  }

  lemma MinusOnlyExample(s: string)
    requires s == "-"
    ensures ParseNumber(s) == None
  {
    assert CommasToDots(s) == "-";
    assert "-"[1..] == "";
  }

  /** The cases NumberParser's own examples exercise, and a lone minus. */
  lemma NumberExamples()
    ensures ParseNumber("42") == Some(42.0)
    ensures ParseNumber("12.50") == Some(12.5)
    ensures ParseNumber("7,99") == Some(7.99)
    ensures ParseNumber("-5.25") == Some(-5.25)
    ensures ParseNumber("") == None
    ensures ParseNumber("abc") == None
    ensures ParseNumber("12.50.30") == None
    ensures ParseNumber("..") == None
    ensures ParseNumber("-") == None
  {
    IntegerExample("42");
    PointExample("12.50");
    CommaExample("7,99");
    NegativeExample("-5.25");
    LettersExample("abc");
    TwoPointsExample("12.50.30");
    PointsOnlyExample("..");
    MinusOnlyExample("-");
  }

  /** The first loop of NumberParser::parse: every comma becomes a point, in place. */
  method ReplaceCommas(s: string) returns (r: string)
    ensures r == CommasToDots(s)
  {
    r := s;
    for i := 0 to |r|
      invariant |r| == |s|
      invariant forall k :: 0 <= k < i ==> r[k] == DotFor(s[k])
      invariant forall k :: i <= k < |r| ==> r[k] == s[k]
    {
      if r[i] == ',' {
        r := r[i := '.'];
      }
    }
    assert forall k :: 0 <= k < |r| ==> r[k] == CommasToDots(s)[k];
  }

  /** The second loop of NumberParser::parse: stop at the first inadmissible character. */
  method OnlyNumberChars(s: string) returns (b: bool)
    ensures b == NumberChars(s)
  {
    for i := 0 to |s|
      invariant forall k :: 0 <= k < i ==> IsNumberChar(s[k])
    {
      var c := s[i];
      if !IsDigitAscii(c) && c != '.' && c != '-' {
        return false;
      }
    }
    return true;
  }

  /** NumberParser: the last parsed value and whether it was valid. */
  class NumberParser {
    var result: real
    var valid: bool

    /** NumberParser(): no value, not valid. */
    constructor()
      ensures result == 0.0 && !valid
    {
      result := 0.0;
      valid := false;
    }

    /** reset(): back to no value, not valid. */
    method Reset()
      modifies this
      ensures result == 0.0 && !valid
    {
      result := 0.0;
      valid := false;
    }

    /** parse(str): the result is ParseNumber(str); on failure the state is reset. */
    method Parse(s: string) returns (ok: bool)
      modifies this
      ensures ok == ParseNumber(s).Some? && valid == ok
      ensures result == if ok then ParseNumber(s).value else 0.0
    {
      Reset();
      if |s| == 0 {
        return false;
      }
      var numberStr := ReplaceCommas(s);
      var admissible := OnlyNumberChars(numberStr);
      if !admissible {
        return false;
      }
      var value := StreamExtract(numberStr);
      if value.None? {
        return false;
      }
      result := value.value;
      valid := true;
      return true;
    }
  }

  // ---------------------------------------------------------------------
  // Times
  // ---------------------------------------------------------------------

  /** The largest value std::stoi returns; larger digit strings throw out_of_range. */
  const IntMax: int := 2147483647

  /** TimeParser::isValidTime: neither hours nor minutes negative. */
  predicate IsValidTime(t: Time) {
    t.hour >= 0 && t.minute >= 0
  }

  /** The token after trim() and the erasure of every plain space. */
  function CleanTimeToken(token: string): string {
    Delete(Trimmed(token), IsBlank)
  }

  /** TimeParser::parse: "h:m" with decimal digits on both sides of the first colon. */
  function ParseTime(token: string): Option<Time> {
    var t := CleanTimeToken(token);
    var p := IndexOf(t, ':', 0);
    if p == |t| then None
    else
      var hs := t[..p];
      var ms := t[p + 1..];
      if !OnlyDigits(hs) || !OnlyDigits(ms) then None
      else
        var h := DigitsValue(hs);
        var m := DigitsValue(ms);
        if h > IntMax || m > IntMax then None
        else
          var tm := MakeTime(h, m, 0, 0);
          if IsValidTime(tm) then Some(tm) else None
  }

  lemma {:induction false} DeleteSubset(s: string, drop: char -> bool, c: char)
    requires c in Delete(s, drop)
    ensures c in s && !drop(c)
  {
    if s != [] {
      if c == s[0] && !drop(s[0]) {
      } else {
        assert Delete(s, drop) == (if drop(s[0]) then [] else [s[0]]) + Delete(s[1..], drop);
        DeleteSubset(s[1..], drop, c);
      }
    }
  }

  lemma TrimmedSubset(s: string, c: char)
    requires c in Trimmed(s)
    ensures c in s
  {
    TrimmedIsCore(s);
    var k :| 0 <= k < |Trimmed(s)| && Trimmed(s)[k] == c;
    assert s[LeadingBlanks(s) + k] == c;
  }

  /** Every accepted time token holds a colon. */
  lemma TimeNeedsColon(token: string)
    requires ParseTime(token).Some?
    ensures ':' in token
  {
    var t := CleanTimeToken(token);
    var p := IndexOf(t, ':', 0);
    DeleteSubset(Trimmed(token), IsBlank, ':');
    TrimmedSubset(token, ':');
  }

  /** No token is both a time and a number. */
  lemma TimeAndNumberDisjoint(token: string)
    ensures ParseTime(token).Some? ==> ParseNumber(token).None?
  {
    if ParseTime(token).Some? && ParseNumber(token).Some? {
      TimeNeedsColon(token);
      NumberAcceptedShape(token);
    }
  }

  /**
   * The isValidTime check never rejects a parsed token: digits give
   * non-negative components, and normalisation keeps them non-negative.
   */
  lemma DigitTimesAreValid(h: nat, m: nat)
    ensures IsValidTime(MakeTime(h, m, 0, 0))
  {
    MakeTimeBounded(h, m, 0, 0);
  }

  lemma DeleteNone(s: string, drop: char -> bool)
    requires forall i :: 0 <= i < |s| ==> !drop(s[i])
    ensures Delete(s, drop) == s
  {
  }

  lemma DropLeadingNone(s: string)
    requires s != [] && !IsSafeSpace(s[0])
    ensures DropLeading(s) == s
  {
  }

  lemma DropTrailingNone(s: string)
    requires s != [] && !IsSafeSpace(s[|s| - 1])
    ensures DropTrailing(s) == s
  {
  }

  /** Digits around a colon survive trimming and space erasure unchanged. */
  lemma CleanDigitsColon(hs: string, ms: string)
    requires OnlyDigits(hs) && OnlyDigits(ms)
    ensures CleanTimeToken(hs + ":" + ms) == hs + ":" + ms
  {
    var s := hs + ":" + ms;
    assert forall i :: 0 <= i < |s| ==> IsDigitAscii(s[i]) || s[i] == ':' by {
      forall i | 0 <= i < |s|
        ensures IsDigitAscii(s[i]) || s[i] == ':'
      {
        if i < |hs| {
          assert s[i] == hs[i];
        } else if i > |hs| {
          assert s[i] == ms[i - |hs| - 1];
        }
      }
    }
    DropLeadingNone(s);
    DropTrailingNone(s);
    DeleteNone(s, IsBlank);
  }

  /**
   * What TimeParser makes of a token that cleans to hs:ms: the normalised
   * Time(hs, ms), unless one side is beyond std::stoi's range.
   */
  lemma ParseTimeOfDigits(token: string, hs: string, ms: string)
    requires OnlyDigits(hs) && OnlyDigits(ms) && CleanTimeToken(token) == hs + ":" + ms
    ensures ParseTime(token) ==
      if DigitsValue(hs) > IntMax || DigitsValue(ms) > IntMax then None
      else Some(MakeTime(DigitsValue(hs), DigitsValue(ms), 0, 0))
  {
    var t := hs + ":" + ms;
    IndexOfFirst(t, ':', |hs|);
    assert t[..|hs|] == hs && t[|hs| + 1..] == ms;
    DigitTimesAreValid(DigitsValue(hs), DigitsValue(ms));
  }

  /** Both sides of a time token: non-empty digit strings within std::stoi's range. */
  predicate TimeParts(hs: string, ms: string) {
    OnlyDigits(hs) && OnlyDigits(ms) && DigitsValue(hs) <= IntMax && DigitsValue(ms) <= IntMax
  }

  /**
   * The converse of ParseTimeOfDigits: an accepted token cleans to
   * digits, a colon and digits, and its time is built from those values.
   */
  lemma TimeAcceptedDigits(token: string)
    requires ParseTime(token).Some?
    ensures exists hs, ms ::
      && TimeParts(hs, ms) && CleanTimeToken(token) == hs + ":" + ms
      && ParseTime(token) == Some(MakeTime(DigitsValue(hs), DigitsValue(ms), 0, 0))
  {
    var t := CleanTimeToken(token);
    var p := IndexOf(t, ':', 0);
    var hs, ms := t[..p], t[p + 1..];
    assert t == hs + ":" + ms;
    assert TimeParts(hs, ms);
  }

  /** TimeParser::parse accepts a token exactly when it cleans to two in-range digit strings around a colon. */
  lemma TimeAcceptedIff(token: string)
    ensures ParseTime(token).Some? <==> exists hs, ms :: TimeParts(hs, ms) && CleanTimeToken(token) == hs + ":" + ms
  {
    if ParseTime(token).Some? {
      TimeAcceptedDigits(token);
    } else if exists hs, ms :: TimeParts(hs, ms) && CleanTimeToken(token) == hs + ":" + ms {
      var hs, ms :| TimeParts(hs, ms) && CleanTimeToken(token) == hs + ":" + ms;
      ParseTimeOfDigits(token, hs, ms);
    }
  }

  /** Cleaning erases the spaces around the colon of two digit strings. */
  lemma SpacedColonCleans(hs: string, ms: string)
    requires OnlyDigits(hs) && OnlyDigits(ms)
    ensures CleanTimeToken(hs + " : " + ms) == hs + ":" + ms
  {
    SpacedColonTrimmed(hs, ms);
    SpacedColonErased(hs, ms);
  }

  lemma SpacedColonTrimmed(hs: string, ms: string)
    requires OnlyDigits(hs) && OnlyDigits(ms)
    ensures Trimmed(hs + " : " + ms) == hs + " : " + ms
  {
    var t := hs + " : " + ms;
    assert t[0] == hs[0] && t[|t| - 1] == ms[|ms| - 1];
    DropLeadingNone(t);
    DropTrailingNone(t);
  }

  lemma SpacedColonErased(hs: string, ms: string)
    requires OnlyDigits(hs) && OnlyDigits(ms)
    ensures Delete(hs + " : " + ms, IsBlank) == hs + ":" + ms
  {
    assert hs + " : " + ms == hs + ([' '] + ([':'] + ([' '] + ms)));
    assert hs + ":" + ms == hs + ([':'] + ms);
    ErasedAround(hs, ' ', ':', ms, IsBlank);
  }

  /** No character of w is dropped. */
  predicate AllKept(w: string, drop: char -> bool) {
    forall k :: 0 <= k < |w| ==> !drop(w[k])
  }

  /** A word, a dropped character, a kept one, a dropped one and a word lose exactly the two dropped ones. */
  lemma ErasedAround(hs: string, b: char, c: char, ms: string, drop: char -> bool)
    requires AllKept(hs, drop) && AllKept(ms, drop)
    requires drop(b) && !drop(c)
    ensures Delete(hs + ([b] + ([c] + ([b] + ms))), drop) == hs + ([c] + ms)
  {
    var z := [b] + ms;
    var y := [c] + z;
    var x := [b] + y;
    assert Delete(hs, drop) == hs by { DeleteKeepsWord(hs, drop); }
    assert Delete(ms, drop) == ms by { DeleteKeepsWord(ms, drop); }
    DeleteAppend(hs, x, drop);
    DeleteFront(b, y, drop);
    DeleteFront(c, z, drop);
    DeleteFront(b, ms, drop);
    assert Delete(z, drop) == ms;
    assert Delete(y, drop) == [c] + ms;
    assert Delete(x, drop) == [c] + ms;
    assert Delete(hs + x, drop) == hs + ([c] + ms);
  }

  /** Delete decides the first character on its own. */
  lemma DeleteFront(c: char, rest: string, drop: char -> bool)
    ensures Delete([c] + rest, drop) == (if drop(c) then [] else [c]) + Delete(rest, drop)
  {
    assert ([c] + rest)[1..] == rest;
  }

  /** Spaces around the colon change nothing: "h : m" parses as "h:m" does. */
  lemma SpacesAroundColonIgnored(hs: string, ms: string)
    requires OnlyDigits(hs) && OnlyDigits(ms)
    ensures ParseTime(hs + " : " + ms) == ParseTime(hs + ":" + ms)
  {
    SpacedColonCleans(hs, ms);
    CleanDigitsColon(hs, ms);
    ParseTimeOfDigits(hs + " : " + ms, hs, ms);
    ParseTimeOfDigits(hs + ":" + ms, hs, ms);
  }

  /** Spaces around the colon are erased before the token is read. */
  lemma SpacedTimeExample(token: string)
    requires token == "12 : 30"
    ensures ParseTime(token) == Some(Time(30, 12, 1, 0))
  {
    assert OnlyDigits("12") && OnlyDigits("30") by {
      TwoDigits("12");
      TwoDigits("30");
    }
    assert token == "12" + " : " + "30";
    SpacesAroundColonIgnored("12", "30");
    StandardTimeExample("12" + ":" + "30");
  }

  /** A digit string, a colon and a digit string, both within std::stoi's range. */
  lemma DigitTokenParses(hs: string, ms: string)
    requires OnlyDigits(hs) && OnlyDigits(ms) && DigitsValue(hs) <= IntMax && DigitsValue(ms) <= IntMax
    ensures ParseTime(hs + ":" + ms) == Some(MakeTime(DigitsValue(hs), DigitsValue(ms), 0, 0))
  {
    CleanDigitsColon(hs, ms);
    ParseTimeOfDigits(hs + ":" + ms, hs, ms);
  }

  /**
   * Writing hours and minutes as decimal digits around a colon and parsing
   * them gives the normalised Time(hours, minutes) back.
   */
  lemma TimeRoundTrip(h: nat, m: nat)
    requires h <= IntMax && m <= IntMax
    ensures ParseTime(NatDecimal(h) + ":" + NatDecimal(m)) == Some(MakeTime(h, m, 0, 0))
  {
    NatDecimalRoundTrip(h);
    NatDecimalRoundTrip(m);
    DigitTokenParses(NatDecimal(h), NatDecimal(m));
  }

  lemma TwoDigits(s: string)
    requires |s| == 2 && IsDigitAscii(s[0]) && IsDigitAscii(s[1])
    ensures OnlyDigits(s) && DigitsValue(s) == 10 * DigitValue(s[0]) + DigitValue(s[1])
  {
    assert s[..1] == [s[0]];
    assert s[..1][..0] == [];
    assert DigitsValue(s[..1]) == DigitValue(s[0]);
  }

  lemma StandardTimeExample(token: string)
    requires token == "12:30"
    ensures ParseTime(token) == Some(Time(30, 12, 1, 0))
  {
    assert OnlyDigits("12") && DigitsValue("12") == 12 by {
      TwoDigits("12");
    }
    assert OnlyDigits("30") && DigitsValue("30") == 30 by {
      TwoDigits("30");
    }
    assert MakeTime(12, 30, 0, 0) == Time(30, 12, 1, 0);
    assert token == "12" + ":" + "30";
    DigitTokenParses("12", "30");
  }


  /** A leading zero in the hours, as menu files write them: "01:30" is 1:30. */
  lemma LeadingZeroTimeExample(token: string)
    requires token == "01:30"
    ensures ParseTime(token) == Some(Time(30, 1, 1, 0))
  {
    assert OnlyDigits("01") && DigitsValue("01") == 1 by {
      TwoDigits("01");
    }
    assert OnlyDigits("30") && DigitsValue("30") == 30 by {
      TwoDigits("30");
    }
    assert MakeTime(1, 30, 0, 0) == Time(30, 1, 1, 0);
    assert token == "01" + ":" + "30";
    DigitTokenParses("01", "30");
  }

  lemma SingleDigitTimeExample(token: string)
    requires token == "1:5"
    ensures ParseTime(token) == Some(Time(5, 1, 1, 0))
  {
    assert OnlyDigits("1") && DigitsValue("1") == 1;
    assert OnlyDigits("5") && DigitsValue("5") == 5;
    assert MakeTime(1, 5, 0, 0) == Time(5, 1, 1, 0);
    assert token == "1" + ":" + "5";
    DigitTokenParses("1", "5");
  }


  lemma ZeroTimeExample(token: string)
    requires token == "0:0"
    ensures ParseTime(token) == Some(Time(0, 0, 1, 0))
  {
    assert OnlyDigits("0") && DigitsValue("0") == 0;
    assert MakeTime(0, 0, 0, 0) == Time(0, 0, 1, 0);
    assert token == "0" + ":" + "0";
    DigitTokenParses("0", "0");
  }


  lemma LatestTimeExample(token: string)
    requires token == "23:59"
    ensures ParseTime(token) == Some(Time(59, 23, 1, 0))
  {
    assert OnlyDigits("23") && DigitsValue("23") == 23 by {
      TwoDigits("23");
    }
    assert OnlyDigits("59") && DigitsValue("59") == 59 by {
      TwoDigits("59");
    }
    assert MakeTime(23, 59, 0, 0) == Time(59, 23, 1, 0);
    assert token == "23" + ":" + "59";
    DigitTokenParses("23", "59");
  }


  lemma LongMinutesExample(token: string)
    requires token == "1:75"
    ensures ParseTime(token) == Some(Time(15, 2, 1, 0))
  {
    assert OnlyDigits("1") && DigitsValue("1") == 1;
    assert OnlyDigits("75") && DigitsValue("75") == 75 by {
      TwoDigits("75");
    }
    assert MakeTime(1, 75, 0, 0) == Time(15, 2, 1, 0) by {
      MakeTimeCanonical(1, 75, 0, 0);
    }
    assert token == "1" + ":" + "75";
    DigitTokenParses("1", "75");
  }


  lemma FullHourMinutesExample(token: string)
    requires token == "12:60"
    ensures ParseTime(token) == Some(Time(0, 13, 1, 0))
  {
    assert OnlyDigits("12") && DigitsValue("12") == 12 by {
      TwoDigits("12");
    }
    assert OnlyDigits("60") && DigitsValue("60") == 60 by {
      TwoDigits("60");
    }
    assert MakeTime(12, 60, 0, 0) == Time(0, 13, 1, 0) by {
      MakeTimeCanonical(12, 60, 0, 0);
    }
    assert token == "12" + ":" + "60";
    DigitTokenParses("12", "60");
  }


  /** "25:30" is one day, one hour and thirty minutes. */
  lemma DayLongTimeExample(token: string)
    requires token == "25:30"
    ensures ParseTime(token) == Some(Time(30, 1, 2, 0))
  {
    assert OnlyDigits("25") && DigitsValue("25") == 25 by {
      TwoDigits("25");
    }
    assert OnlyDigits("30") && DigitsValue("30") == 30 by {
      TwoDigits("30");
    }
    assert MakeTime(25, 30, 0, 0) == Time(30, 1, 2, 0) by {
      MakeTimeCanonical(25, 30, 0, 0);
    }
    assert token == "25" + ":" + "30";
    DigitTokenParses("25", "30");
  }


  lemma CarriedDayExample(token: string)
    requires token == "99:99"
    ensures ParseTime(token) == Some(Time(39, 4, 5, 0))
  {
    assert OnlyDigits("99") && DigitsValue("99") == 99 by {
      TwoDigits("99");
    }
    assert MakeTime(99, 99, 0, 0) == Time(39, 4, 5, 0) by {
      MakeTimeCanonical(99, 99, 0, 0);
    }
    assert token == "99" + ":" + "99";
    DigitTokenParses("99", "99");
  }


  lemma NegativeHoursRejected(token: string)
    requires token == "-1:30"
    ensures ParseTime(token) == None
  {
    DropLeadingNone(token);
    DropTrailingNone(token);
    DeleteNone(token, IsBlank);
    assert CleanTimeToken(token) == token;
    IndexOfFirst(token, ':', 2);
    assert token[..2] == "-1";
    assert !OnlyDigits(token[..2]) by {
      assert !IsDigitAscii(token[..2][0]);
    }
  }

  lemma LettersTimeRejected(token: string)
    requires token == "ab:cd"
    ensures ParseTime(token) == None
  {
    DropLeadingNone(token);
    DropTrailingNone(token);
    DeleteNone(token, IsBlank);
    assert CleanTimeToken(token) == token;
    IndexOfFirst(token, ':', 2);
    assert token[..2] == "ab";
    assert !OnlyDigits(token[..2]) by {
      assert !IsDigitAscii(token[..2][0]);
    }
  }

  lemma RejectedTimeExamples()
    ensures ParseTime("") == None
    ensures ParseTime("1230") == None
    ensures ParseTime("-1:30") == None
    ensures ParseTime("ab:cd") == None
  {
    NoColonRejected("");
    NoColonRejected("1230");
    NegativeHoursRejected("-1:30");
    LettersTimeRejected("ab:cd");
  }


  /**
   * The parser's own examples. The code accepts minutes past 59 and
   * normalises them ("1:75", "12:60", "99:99"), where its tests expect a
   * rejection.
   */
  lemma TimeExamples()
    ensures ParseTime("12:30") == Some(Time(30, 12, 1, 0))
    ensures ParseTime("1:5") == Some(Time(5, 1, 1, 0))
    ensures ParseTime("0:0") == Some(Time(0, 0, 1, 0))
    ensures ParseTime("23:59") == Some(Time(59, 23, 1, 0))
    ensures ParseTime("1:75") == Some(Time(15, 2, 1, 0))
    ensures ParseTime("12:60") == Some(Time(0, 13, 1, 0))
    ensures ParseTime("25:30") == Some(Time(30, 1, 2, 0))
    ensures ParseTime("99:99") == Some(Time(39, 4, 5, 0))
    ensures ParseTime("12 : 30") == Some(Time(30, 12, 1, 0))
    ensures ParseTime("") == None
    ensures ParseTime("1230") == None
    ensures ParseTime("-1:30") == None
    ensures ParseTime("ab:cd") == None
  {
    StandardTimeExample("12:30");
    SingleDigitTimeExample("1:5");
    ZeroTimeExample("0:0");
    LatestTimeExample("23:59");
    LongMinutesExample("1:75");
    FullHourMinutesExample("12:60");
    DayLongTimeExample("25:30");
    CarriedDayExample("99:99");
    SpacedTimeExample("12 : 30");
    RejectedTimeExamples();
  }

  /** A token without a colon is never a time. */
  lemma NoColonRejected(token: string)
    requires ':' !in token
    ensures ParseTime(token) == None
  {
    if ParseTime(token).Some? {
      TimeNeedsColon(token);
    }
  }

  /** TimeParser: the last parsed time and whether it was valid. */
  class TimeParser {
    var result: Time
    var valid: bool

    /** TimeParser(): zero time, not valid. */
    constructor()
      ensures result == MakeTime(0, 0, 0, 0) && !valid
    {
      result := MakeTime(0, 0, 0, 0);
      valid := false;
    }

    /** reset(): back to zero time, not valid. */
    method Reset()
      modifies this
      ensures result == MakeTime(0, 0, 0, 0) && !valid
    {
      result := MakeTime(0, 0, 0, 0);
      valid := false;
    }

    /** parse(token): the result is ParseTime(token); on failure the state is reset. */
    method Parse(token: string) returns (ok: bool)
      modifies this
      ensures ok == ParseTime(token).Some? && valid == ok
      ensures result == if ok then ParseTime(token).value else MakeTime(0, 0, 0, 0)
    {
      Reset();
      var timeStr := Trim(token);
      timeStr := Delete(timeStr, IsBlank);
      var colonPos := IndexOf(timeStr, ':', 0);
      if colonPos == |timeStr| {
        return false;
      }
      var hourStr := timeStr[..colonPos];
      var minStr := timeStr[colonPos + 1..];
      var hourDigits := IsOnlyDigits(hourStr);
      var minDigits := IsOnlyDigits(minStr);
      if !hourDigits || !minDigits {
        return false;
      }
      var h := DigitsValue(hourStr);
      var m := DigitsValue(minStr);
      if h > IntMax || m > IntMax {
        // std::stoi throws out_of_range; the catch-all returns false
        return false;
      }
      var tempTime := MakeTime(h, m, 0, 0);
      if IsValidTime(tempTime) {
        result := tempTime;
        valid := true;
        return true;
      }
      return false;
    }
  }

  // ---------------------------------------------------------------------
  // User input
  // ---------------------------------------------------------------------

  /** The separators `istream >> string` skips in the classic locale. */
  predicate IsStreamSpace(c: char) {
    c == ' ' || c == '\t' || c == '\n' || c == '\r' || c == '\U{000B}' || c == '\U{000C}'
  }

  /** The first token that is a time, if any. */
  function FirstTime(ts: seq<string>): Option<Time> {
    if ts == [] then None
    else if ParseTime(ts[0]).Some? then ParseTime(ts[0])
    else FirstTime(ts[1..])
  }

  /** The first token that is a number, if any. */
  function FirstPrice(ts: seq<string>): Option<real> {
    if ts == [] then None
    else if ParseNumber(ts[0]).Some? then ParseNumber(ts[0])
    else FirstPrice(ts[1..])
  }

  lemma {:induction false} FirstTimeAppend(ts: seq<string>, t: string)
    ensures FirstTime(ts + [t]) == if FirstTime(ts).Some? then FirstTime(ts) else ParseTime(t)
  {
    if ts == [] {
      assert ts + [t] == [t];
    } else {
      assert (ts + [t])[1..] == ts[1..] + [t];
      FirstTimeAppend(ts[1..], t);
    }
  }

  lemma {:induction false} FirstPriceAppend(ts: seq<string>, t: string)
    ensures FirstPrice(ts + [t]) == if FirstPrice(ts).Some? then FirstPrice(ts) else ParseNumber(t)
  {
    if ts == [] {
      assert ts + [t] == [t];
    } else {
      assert (ts + [t])[1..] == ts[1..] + [t];
      FirstPriceAppend(ts[1..], t);
    }
  }

  /**
   * The order of a time and a price in the input does not matter: both
   * orders find the same time and the same price.
   */
  lemma CriteriaOrderIndependent(a: string, b: string)
    requires ParseTime(a).Some? && ParseNumber(b).Some?
    ensures FirstTime([a, b]) == FirstTime([b, a]) == ParseTime(a)
    ensures FirstPrice([a, b]) == FirstPrice([b, a]) == ParseNumber(b)
  {
    TimeAndNumberDisjoint(a);
    TimeAndNumberDisjoint(b);
    assert [a, b][1..] == [b] && [b, a][1..] == [a];
  }

  /** UserInputParser: a time parser and a number parser of its own. */
  class UserInputParser {
    const timeParser: TimeParser
    const numberParser: NumberParser

    /** UserInputParser(): creates both child parsers. */
    constructor()
      ensures fresh(timeParser) && fresh(numberParser)
    {
      timeParser := new TimeParser();
      numberParser := new NumberParser();
    }

    /**
     * parse(input, price, time): the first time token sets the time, the
     * first number token sets the price; whatever is not found keeps its
     * incoming value; the answer is whether either was found.
     */
    method Parse(input: string, price0: real, time0: Time) returns (found: bool, price: real, time: Time)
      modifies timeParser, numberParser
      ensures var ts := Split(input, IsStreamSpace);
              && time == (if FirstTime(ts).Some? then FirstTime(ts).value else time0)
              && price == (if FirstPrice(ts).Some? then FirstPrice(ts).value else price0)
              && found == (FirstTime(ts).Some? || FirstPrice(ts).Some?)
    {
      var tokens := Split(input, IsStreamSpace);
      var hasPrice, hasTime := false, false;
      price, time := price0, time0;
      for i := 0 to |tokens|
        invariant hasTime == FirstTime(tokens[..i]).Some?
        invariant time == if hasTime then FirstTime(tokens[..i]).value else time0
        invariant hasPrice == FirstPrice(tokens[..i]).Some?
        invariant price == if hasPrice then FirstPrice(tokens[..i]).value else price0
      {
        assert tokens[..i + 1] == tokens[..i] + [tokens[i]];
        FirstTimeAppend(tokens[..i], tokens[i]);
        FirstPriceAppend(tokens[..i], tokens[i]);
        hasTime, time, hasPrice, price := ScanToken(tokens[i], hasTime, time, hasPrice, price);
      }
      assert tokens[..|tokens|] == tokens;
      found := hasPrice || hasTime;
    }

    /**
     * One pass of parse's loop: a token is tried as a time while none was
     * found (and the loop moves on when it is one), then as a number while
     * no price was found.
     */
    method ScanToken(token: string, hasTime: bool, time: Time, hasPrice: bool, price: real)
      returns (hasTime': bool, time': Time, hasPrice': bool, price': real)
      modifies timeParser, numberParser
      ensures hasTime' == (hasTime || ParseTime(token).Some?)
      ensures time' == if !hasTime && ParseTime(token).Some? then ParseTime(token).value else time
      ensures hasPrice' == (hasPrice || ParseNumber(token).Some?)
      ensures price' == if !hasPrice && ParseNumber(token).Some? then ParseNumber(token).value else price
    {
      hasTime', time', hasPrice', price' := hasTime, time, hasPrice, price;
      TimeAndNumberDisjoint(token);
      if !hasTime {
        var isTime := timeParser.Parse(token);
        if isTime {
          time' := timeParser.result;
          hasTime' := true;
          return;
        }
      }
      if !hasPrice {
        var isPrice := numberParser.Parse(token);
        if isPrice {
          price' := numberParser.result;
          hasPrice' := true;
        }
      }
    }
  }
}
