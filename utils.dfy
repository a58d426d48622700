/**
 * StringUtils: character classes, trimming and whitespace tokenizing
 * (RestaurantMenu/utils.cpp), plus the few standard-library string
 * operations the other files rely on (find, erase-remove, decimal digits).
 */
module StringUtils {

  // ---------------------------------------------------------------------
  // Character classes
  // ---------------------------------------------------------------------

  /** isDigitASCII: an ASCII decimal digit. */
  predicate IsDigitAscii(c: char) {
    '0' <= c <= '9'
  }

  /** isSafeSpace: the four whitespace characters the helpers treat as blanks. */
  predicate IsSafeSpace(c: char) {
    c == ' ' || c == '\t' || c == '\n' || c == '\r'
  }

  /** Both classes are exactly the characters of a short fixed list. */
  lemma CharClasses(c: char)
    ensures IsDigitAscii(c) <==> c in "0123456789"
    ensures IsSafeSpace(c) <==> c in " \t\n\r"
  {
    if IsDigitAscii(c) {
      var k := c as int - '0' as int;
      assert 0 <= k < 10;
      assert c == "0123456789"[k];
    }
  }

  /** What isOnlyDigits decides: a non-empty string of ASCII digits. */
  predicate OnlyDigits(s: string) {
    s != [] && forall i :: 0 <= i < |s| ==> IsDigitAscii(s[i])
  }

  /** isOnlyDigits: false on "", otherwise scans until a non-digit. */
  method IsOnlyDigits(s: string) returns (b: bool)
    ensures b == OnlyDigits(s)
  {
    if s == [] {
      return false;
    }
    for i := 0 to |s|
      invariant forall k :: 0 <= k < i ==> IsDigitAscii(s[k])
    {
      if !IsDigitAscii(s[i]) {
        return false;
      }
    }
    return true;
  }

  // ---------------------------------------------------------------------
  // trim
  // ---------------------------------------------------------------------

  /** s without its leading safe-space characters. */
  function DropLeading(s: string): string {
    if s != [] && IsSafeSpace(s[0]) then DropLeading(s[1..]) else s
  }

  /** s without its trailing safe-space characters. */
  function DropTrailing(s: string): string {
    if s != [] && IsSafeSpace(s[|s| - 1]) then DropTrailing(s[..|s| - 1]) else s
  }

  /** DropLeading(s) is the suffix of s after its run of leading blanks. */
  lemma {:induction false} DropLeadingSuffix(s: string)
    ensures |DropLeading(s)| <= |s| && DropLeading(s) == s[|s| - |DropLeading(s)|..]
    ensures forall k :: 0 <= k < |s| - |DropLeading(s)| ==> IsSafeSpace(s[k])
    ensures DropLeading(s) != [] ==> !IsSafeSpace(DropLeading(s)[0])
    decreases |s|
  {
    if s != [] && IsSafeSpace(s[0]) {
      DropLeadingSuffix(s[1..]);
      forall k | 0 <= k < |s| - |DropLeading(s)|
        ensures IsSafeSpace(s[k])
      {
        if k > 0 {
          assert s[k] == s[1..][k - 1];
        }
      }
    }
  }

  /** DropTrailing(s) is the prefix of s before its run of trailing blanks. */
  lemma {:induction false} DropTrailingPrefix(s: string)
    ensures |DropTrailing(s)| <= |s| && DropTrailing(s) == s[..|DropTrailing(s)|]
    ensures forall k :: |DropTrailing(s)| <= k < |s| ==> IsSafeSpace(s[k])
    ensures DropTrailing(s) != [] ==> !IsSafeSpace(DropTrailing(s)[|DropTrailing(s)| - 1])
    decreases |s|
  {
    if s != [] && IsSafeSpace(s[|s| - 1]) {
      var p := s[..|s| - 1];
      DropTrailingPrefix(p);
      forall k | |DropTrailing(s)| <= k < |s|
        ensures IsSafeSpace(s[k])
      {
        if k < |s| - 1 {
          assert s[k] == p[k];
        }
      }
    }
  }

  /** The string trim returns. */
  function Trimmed(s: string): string {
    DropTrailing(DropLeading(s))
  }

  /** How many blanks trim removes from the front of s. */
  function LeadingBlanks(s: string): nat {
    if s != [] && IsSafeSpace(s[0]) then 1 + LeadingBlanks(s[1..]) else 0
  }

  /**
   * Trimmed(s) is the contiguous middle of s left after removing a run of
   * safe-space characters at each end, and it starts and ends with a
   * character that is not safe-space.
   */
  lemma TrimmedIsCore(s: string)
    ensures LeadingBlanks(s) + |Trimmed(s)| <= |s|
    ensures Trimmed(s) == s[LeadingBlanks(s)..LeadingBlanks(s) + |Trimmed(s)|]
    ensures forall k :: 0 <= k < LeadingBlanks(s) ==> IsSafeSpace(s[k])
    ensures forall k :: LeadingBlanks(s) + |Trimmed(s)| <= k < |s| ==> IsSafeSpace(s[k])
    ensures Trimmed(s) != [] ==> !IsSafeSpace(Trimmed(s)[0]) && !IsSafeSpace(Trimmed(s)[|Trimmed(s)| - 1])
  {
    var lead := DropLeading(s);
    DropLeadingSuffix(s);
    DropTrailingPrefix(lead);
    LeadingBlanksCount(s);
    var r := DropTrailing(lead);
    var i := |s| - |lead|;
    assert r == s[i..i + |r|];
    forall k | i + |r| <= k < |s|
      ensures IsSafeSpace(s[k])
    {
      assert s[k] == lead[k - i];
    }
  }

  lemma {:induction false} LeadingBlanksCount(s: string)
    ensures LeadingBlanks(s) + |DropLeading(s)| == |s|
    decreases |s|
  {
    if s != [] && IsSafeSpace(s[0]) {
      LeadingBlanksCount(s[1..]);
    }
  }

  /** trim is idempotent. */
  lemma TrimIdempotent(s: string)
    ensures Trimmed(Trimmed(s)) == Trimmed(s)
  {
    var r := Trimmed(s);
    TrimmedIsCore(s);
    assert DropLeading(r) == r;
    assert DropTrailing(r) == r;
  }

  /** trim: erase safe-space characters at the front, then at the back. */
  method Trim(s: string) returns (r: string)
    ensures r == Trimmed(s)
  {
    r := s;
    while r != [] && IsSafeSpace(r[0])
      invariant DropLeading(r) == DropLeading(s)
      decreases |r|
    {
      r := r[1..];
    }
    assert DropLeading(r) == r;
    ghost var lead := r;
    while r != [] && IsSafeSpace(r[|r| - 1])
      invariant DropTrailing(r) == DropTrailing(lead)
      decreases |r|
    {
      r := r[..|r| - 1];
    }
  }

  // ---------------------------------------------------------------------
  // tokenize
  // ---------------------------------------------------------------------

  /** A token: non-empty and free of separator characters. */
  predicate IsWord(w: string, isSep: char -> bool) {
    w != [] && forall k :: 0 <= k < |w| ==> !isSep(w[k])
  }

  /** Length of the longest prefix of s that holds no separator. */
  function WordLength(s: string, isSep: char -> bool): (n: nat)
    ensures n <= |s|
    ensures forall k :: 0 <= k < n ==> !isSep(s[k])
    ensures n < |s| ==> isSep(s[n])
  {
    if s == [] || isSep(s[0]) then 0 else 1 + WordLength(s[1..], isSep)
  }

  /** The maximal separator-free runs of s, left to right. */
  function Split(s: string, isSep: char -> bool): seq<string>
    decreases |s|
  {
    if s == [] then []
    else if isSep(s[0]) then Split(s[1..], isSep)
    else
      var n := WordLength(s, isSep);
      [s[..n]] + Split(s[n..], isSep)
  }

  /** The tokens tokenize produces: runs between safe-space characters. */
  function Tokens(s: string): seq<string> {
    Split(s, IsSafeSpace)
  }

  /** s with every character of the given class deleted. */
  function Delete(s: string, drop: char -> bool): string {
    if s == [] then [] else (if drop(s[0]) then [] else [s[0]]) + Delete(s[1..], drop)
  }

  /** The strings of ts joined with nothing between them. */
  function Concat(ts: seq<string>): string {
    if ts == [] then [] else ts[0] + Concat(ts[1..])
  }

  lemma {:induction false} DeleteAppend(a: string, b: string, drop: char -> bool)
    ensures Delete(a + b, drop) == Delete(a, drop) + Delete(b, drop)
    decreases |a|
  {
    if a != [] {
      assert (a + b)[1..] == a[1..] + b;
      DeleteAppend(a[1..], b, drop);
    } else {
      assert a + b == b;
    }
  }

  lemma {:induction false} DeleteKeepsWord(w: string, drop: char -> bool)
    requires forall k :: 0 <= k < |w| ==> !drop(w[k])
    ensures Delete(w, drop) == w
    decreases |w|
  {
    if w != [] {
      DeleteKeepsWord(w[1..], drop);
    }
  }

  lemma {:induction false} WordLengthOfWord(w: string, rest: string, isSep: char -> bool)
    requires forall k :: 0 <= k < |w| ==> !isSep(w[k])
    requires rest == [] || isSep(rest[0])
    ensures WordLength(w + rest, isSep) == |w|
    decreases |w|
  {
    if w == [] {
      assert w + rest == rest;
    } else {
      assert (w + rest)[1..] == w[1..] + rest;
      WordLengthOfWord(w[1..], rest, isSep);
    }
  }

  /** A word followed by a separator (or the end) is split off as one token. */
  lemma WordThenSeparator(w: string, rest: string, isSep: char -> bool)
    requires IsWord(w, isSep)
    requires rest == [] || isSep(rest[0])
    ensures Split(w + rest, isSep) == [w] + Split(rest, isSep)
  {
    WordLengthOfWord(w, rest, isSep);
    var s := w + rest;
    assert s[0] == w[0];
    assert s[..|w|] == w;
    assert s[|w|..] == rest;
  }

  /** Every token is non-empty and holds no separator character. */
  lemma {:induction false} SplitYieldsWords(s: string, isSep: char -> bool)
    ensures forall i :: 0 <= i < |Split(s, isSep)| ==> IsWord(Split(s, isSep)[i], isSep)
    decreases |s|
  {
    if s == [] {
    } else if isSep(s[0]) {
      SplitYieldsWords(s[1..], isSep);
    } else {
      var n := WordLength(s, isSep);
      SplitYieldsWords(s[n..], isSep);
      var ts := Split(s, isSep);
      forall i | 0 <= i < |ts|
        ensures IsWord(ts[i], isSep)
      {
        if i > 0 {
          assert ts[i] == Split(s[n..], isSep)[i - 1];
        }
      }
    }
  }

  /** Joining the tokens in order gives s with all separators deleted. */
  lemma {:induction false} SplitConcat(s: string, isSep: char -> bool)
    ensures Concat(Split(s, isSep)) == Delete(s, isSep)
    decreases |s|
  {
    if s == [] {
    } else if isSep(s[0]) {
      SplitConcat(s[1..], isSep);
    } else {
      var n := WordLength(s, isSep);
      var ts := Split(s, isSep);
      SplitConcat(s[n..], isSep);
      assert ts[0] == s[..n] && ts[1..] == Split(s[n..], isSep);
      assert s == s[..n] + s[n..];
      DeleteAppend(s[..n], s[n..], isSep);
      DeleteKeepsWord(s[..n], isSep);
    }
  }

  /** There are no tokens exactly when every character is a separator. */
  lemma {:induction false} SplitEmptyIffBlank(s: string, isSep: char -> bool)
    ensures Split(s, isSep) == [] <==> forall k :: 0 <= k < |s| ==> isSep(s[k])
    decreases |s|
  {
    if s != [] && isSep(s[0]) {
      SplitEmptyIffBlank(s[1..], isSep);
      assert forall k :: 1 <= k < |s| ==> s[k] == s[1..][k - 1];
    }
  }

  /** A leading separator contributes no token. */
  lemma SplitSkipsSeparator(c: char, rest: string, isSep: char -> bool)
    requires isSep(c)
    ensures Split([c] + rest, isSep) == Split(rest, isSep)
  {
    assert ([c] + rest)[1..] == rest;
  }

  /** No character of the token is a blank. */
  predicate Unbroken(token: string) {
    forall k :: 0 <= k < |token| ==> !IsSafeSpace(token[k])
  }

  /** A blank ends the current token, which joins the list. */
  lemma TokenizeBlankEndsToken(tokens: seq<string>, token: string, s: string, i: nat)
    requires Unbroken(token)
    requires i < |s| && IsSafeSpace(s[i]) && token != []
    ensures tokens + Split(token + s[i..], IsSafeSpace) == (tokens + [token]) + Split([] + s[i + 1..], IsSafeSpace)
  {
    WordThenSeparator(token, s[i..], IsSafeSpace);
    assert s[i..][1..] == s[i + 1..];
    assert [] + s[i + 1..] == s[i + 1..];
  }

  /** A blank outside a token is skipped. */
  lemma TokenizeBlankSkipped(tokens: seq<string>, s: string, i: nat)
    requires i < |s| && IsSafeSpace(s[i])
    ensures tokens + Split([] + s[i..], IsSafeSpace) == tokens + Split([] + s[i + 1..], IsSafeSpace)
  {
    assert s[i..] == [s[i]] + s[i + 1..];
    SplitSkipsSeparator(s[i], s[i + 1..], IsSafeSpace);
    assert [] + s[i..] == s[i..];
    assert [] + s[i + 1..] == s[i + 1..];
  }

  /** Any other character extends the current token. */
  lemma TokenizeWordChar(token: string, s: string, i: nat)
    requires i < |s| && Unbroken(token) && !IsSafeSpace(s[i])
    ensures token + s[i..] == (token + [s[i]]) + s[i + 1..]
    ensures Unbroken(token + [s[i]])
  {
    assert s[i..] == [s[i]] + s[i + 1..];
  }

  /** The token left over when the input ends is the last one. */
  lemma TokenizeFlush(tokens: seq<string>, token: string)
    requires Unbroken(token)
    ensures token != [] ==> tokens + Split(token + [], IsSafeSpace) == tokens + [token]
    ensures token == [] ==> tokens + Split(token + [], IsSafeSpace) == tokens
  {
    assert token + [] == token;
    if token != [] {
      WordThenSeparator(token, [], IsSafeSpace);
    }
  }

  /** tokenize: accumulate non-blank characters, flush the token at each blank. */
  method Tokenize(s: string) returns (tokens: seq<string>)
    ensures tokens == Tokens(s)
  {
    tokens := [];
    var token: string := [];
    var inToken := false;
    assert token + s[0..] == s;
    for i := 0 to |s|
      invariant inToken <==> token != []
      invariant Unbroken(token)
      invariant tokens + Split(token + s[i..], IsSafeSpace) == Tokens(s)
    {
      var c := s[i];
      if IsSafeSpace(c) {
        if inToken && token != [] {
          TokenizeBlankEndsToken(tokens, token, s, i);
          tokens := tokens + [token];
          token := [];
          inToken := false;
        } else {
          TokenizeBlankSkipped(tokens, s, i);
        }
      } else {
        TokenizeWordChar(token, s, i);
        token := token + [c];
        inToken := true;
      }
    }
    assert s[|s|..] == [];
    TokenizeFlush(tokens, token);
    if token != [] {
      tokens := tokens + [token];
    }
  }

  // ---------------------------------------------------------------------
  // Standard-library helpers: find, erase-remove, decimal digits
  // ---------------------------------------------------------------------

  /** c occurs nowhere in s[lo..hi]. */
  predicate Absent(s: string, c: char, lo: int, hi: int)
    requires 0 <= lo && hi <= |s|
  {
    forall k :: lo <= k < hi ==> s[k] != c
  }

  /** std::string::find(c, from): the first index at or after from holding c, or |s| for npos. */
  function IndexOf(s: string, c: char, from: nat): (r: nat)
    ensures r <= |s|
    ensures r < |s| ==> from <= r && s[r] == c
    ensures from <= r ==> Absent(s, c, from, r)
    decreases |s| - from
  {
    if from >= |s| then |s| else if s[from] == c then from else IndexOf(s, c, from + 1)
  }

  /** The plain space, the only character TimeParser erases. */
  predicate IsBlank(c: char) {
    c == ' '
  }

  /** The value of a character for which IsDigitAscii holds. */
  function DigitValue(c: char): nat
    requires IsDigitAscii(c)
  {
    c as int - '0' as int
  }

  /** Digits only; the empty string included. */
  predicate AllDigits(s: string) {
    forall i :: 0 <= i < |s| ==> IsDigitAscii(s[i])
  }

  /** The value of a string of decimal digits, most significant first. */
  function DigitsValue(ds: string): nat
    requires AllDigits(ds)
  {
    if ds == [] then 0 else 10 * DigitsValue(ds[..|ds| - 1]) + DigitValue(ds[|ds| - 1])
  }

  /** The decimal digits of n with no leading zero, as `ss << n` writes them. */
  function NatDecimal(n: nat): (r: string)
    ensures r != [] && AllDigits(r)
  {
    if n < 10 then [('0' as int + n) as char]
    else NatDecimal(n / 10) + [('0' as int + n % 10) as char]
  }

  /** `ss << n` for an int: a '-' before the digits of a negative value. */
  function IntDecimal(n: int): string {
    if n < 0 then "-" + NatDecimal(-n) else NatDecimal(n)
  }

  /** Only digits and a leading '-' are ever written for an int. */
  lemma IntDecimalChars(n: int)
    ensures forall i :: 0 <= i < |IntDecimal(n)| ==> IsDigitAscii(IntDecimal(n)[i]) || IntDecimal(n)[i] == '-'
  {
    var r := NatDecimal(if n < 0 then -n else n);
    if n < 0 {
      assert forall i :: 1 <= i < |IntDecimal(n)| ==> IntDecimal(n)[i] == r[i - 1];
    }
  }

  /** Reading the written digits back gives the number again. */
  lemma {:induction false} NatDecimalRoundTrip(n: nat)
    ensures DigitsValue(NatDecimal(n)) == n
  {
    var r := NatDecimal(n);
    if n >= 10 {
      NatDecimalRoundTrip(n / 10);
      assert r[..|r| - 1] == NatDecimal(n / 10);
    }
  }
}
