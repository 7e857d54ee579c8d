/** The C string routines add_employee relies on, over byte strings: strtok
    with the delimiter ",", strncpy into a zeroed fixed-width field, and atoi. */
module Text {
  import opened Bytes

  const COMMA: uint8 := 44
  const PLUS: uint8 := 43
  const MINUS: uint8 := 45

  /** A C string: no byte of it is the terminating zero. */
  predicate NoNul(s: seq<uint8>) {
    forall i :: 0 <= i < |s| ==> s[i] != 0
  }

  // ---------------------------------------------------------------------------
  // strtok(s, ",")

  /** The first position at or after `i` that is not a comma. */
  function SkipCommas(s: seq<uint8>, i: nat): (j: nat)
    requires i <= |s|
    ensures i <= j <= |s|
    ensures j < |s| ==> s[j] != COMMA
    ensures forall k :: i <= k < j ==> s[k] == COMMA
    decreases |s| - i
  {
    if i < |s| && s[i] == COMMA then SkipCommas(s, i + 1) else i
  }

  /** The first position at or after `i` that is a comma, or the end. */
  function TokenEnd(s: seq<uint8>, i: nat): (j: nat)
    requires i <= |s|
    ensures i <= j <= |s|
    ensures j < |s| ==> s[j] == COMMA
    ensures forall k :: i <= k < j ==> s[k] != COMMA
    decreases |s| - i
  {
    if i < |s| && s[i] != COMMA then TokenEnd(s, i + 1) else i
  }

  /** One call of strtok with delimiter "," resuming at position `i`, the
      position strtok saved from the previous call: skip commas; at the end
      there is no token; otherwise the token runs to the next comma, which is
      consumed. */
  function StrTok(s: seq<uint8>, i: nat): (r: Option<(seq<uint8>, nat)>)
    requires i <= |s|
    ensures r.Some? ==> r.value.0 != [] && i < r.value.1 <= |s|
    ensures r.Some? ==> forall k :: 0 <= k < |r.value.0| ==> r.value.0[k] != COMMA
  {
    var b := SkipCommas(s, i);
    if b == |s| then None
    else
      var e := TokenEnd(s, b);
      Some((s[b..e], if e < |s| then e + 1 else e))
  }

  /** The comma-separated fields of `s`, empty ones included: "a,,b" has three. */
  function Split(s: seq<uint8>): (parts: seq<seq<uint8>>)
    ensures |parts| >= 1
  {
    if s == [] then [[]]
    else
      var rest := Split(s[1..]);
      if s[0] == COMMA then [[]] + rest else [[s[0]] + rest[0]] + rest[1..]
  }

  function NonEmpty(parts: seq<seq<uint8>>): seq<seq<uint8>> {
    if parts == [] then []
    else (if parts[0] == [] then [] else [parts[0]]) + NonEmpty(parts[1..])
  }

  /** What repeated strtok calls return: the non-empty comma-separated fields. */
  function Tokens(s: seq<uint8>): seq<seq<uint8>> {
    NonEmpty(Split(s))
  }

  /** Splitting at a position inside a comma-free run glues the run onto the
      first field of the remainder. */
  lemma {:induction false} SplitRun(s: seq<uint8>, i: nat, e: nat)
    requires i <= e <= |s|
    requires forall k :: i <= k < e ==> s[k] != COMMA
    ensures Split(s[i..]) == [s[i..e] + Split(s[e..])[0]] + Split(s[e..])[1..]
    decreases e - i
  {
    if i == e {
      var t := Split(s[e..]);
      assert s[i..e] + t[0] == t[0];
      assert [t[0]] + t[1..] == t;
    } else {
      SplitRun(s, i + 1, e);
      var r := Split(s[i + 1..]);
      var t := Split(s[e..]);
      assert s[i..][1..] == s[i + 1..];
      assert Split(s[i..]) == [[s[i]] + r[0]] + r[1..];
      assert r[0] == s[i + 1..e] + t[0] && r[1..] == t[1..];
      assert s[i..e] == [s[i]] + s[i + 1..e];
      assert [s[i]] + r[0] == s[i..e] + t[0];
    }
  }

  /** A leading comma only closes an empty field, which is not a token. */
  lemma TokensAfterComma(s: seq<uint8>, i: nat)
    requires i < |s| && s[i] == COMMA
    ensures Tokens(s[i..]) == Tokens(s[i + 1..])
  {
    var rest := Split(s[i + 1..]);
    assert s[i..][1..] == s[i + 1..];
    assert Split(s[i..]) == [[]] + rest;
    assert ([[]] + rest)[1..] == rest;
  }

  /** A leading run of non-commas is the first token; the remainder starts
      after the comma that ends it. */
  lemma TokensAfterRun(s: seq<uint8>, i: nat)
    requires i < |s| && s[i] != COMMA
    ensures var e := TokenEnd(s, i);
      Tokens(s[i..]) == [s[i..e]] + Tokens(s[if e < |s| then e + 1 else e..])
  {
    var e := TokenEnd(s, i);
    SplitRun(s, i, e);
    var tail := Split(s[e..]);
    if e == |s| {
      assert s[e..] == [];
      assert s[i..e] + tail[0] == s[i..e];
      assert Split(s[i..]) == [s[i..e]];
      assert [s[i..e]][1..] == [];
    } else {
      assert s[e..][1..] == s[e + 1..];
      assert tail == [[]] + Split(s[e + 1..]);
      assert s[i..e] + tail[0] == s[i..e];
      assert Split(s[i..]) == [s[i..e]] + Split(s[e + 1..]);
      assert ([s[i..e]] + Split(s[e + 1..]))[1..] == Split(s[e + 1..]);
    }
  }

  /** strtok resumed at `i` returns the first of the remaining tokens and
      resumes after it at the rest; it returns NULL exactly when none remain. */
  lemma {:induction false} StrTokIsNextToken(s: seq<uint8>, i: nat)
    requires i <= |s|
    ensures StrTok(s, i).None? <==> Tokens(s[i..]) == []
    ensures StrTok(s, i).Some? ==>
      Tokens(s[i..]) == [StrTok(s, i).value.0] + Tokens(s[StrTok(s, i).value.1..])
    decreases |s| - i
  {
    if i == |s| {
      assert s[i..] == [];
    } else if s[i] == COMMA {
      StrTokIsNextToken(s, i + 1);
      TokensAfterComma(s, i);
    } else {
      TokensAfterRun(s, i);
    }
  }

  predicate NoComma(t: seq<uint8>) {
    forall k :: 0 <= k < |t| ==> t[k] != COMMA
  }

  predicate AllCommas(t: seq<uint8>) {
    forall k :: 0 <= k < |t| ==> t[k] == COMMA
  }

  lemma {:induction false} SkipCommasOver(s: seq<uint8>, i: nat, b: nat)
    requires i <= b <= |s| && AllCommas(s[i..b]) && (b < |s| ==> s[b] != COMMA)
    ensures SkipCommas(s, i) == b
    decreases b - i
  {
    if i < b {
      assert s[i] == s[i..b][0];
      assert s[i + 1..b] == s[i..b][1..];
      SkipCommasOver(s, i + 1, b);
    }
  }

  lemma {:induction false} TokenEndOver(s: seq<uint8>, b: nat, e: nat)
    requires b <= e <= |s| && NoComma(s[b..e]) && (e < |s| ==> s[e] == COMMA)
    ensures TokenEnd(s, b) == e
    decreases e - b
  {
    if b < e {
      assert s[b] == s[b..e][0];
      assert s[b + 1..e] == s[b..e][1..];
      TokenEndOver(s, b + 1, e);
    }
  }

  /** strtok resumed at `i` skips the commas up to `b` and returns the run
      up to the next comma or the end, resuming after that comma. */
  lemma StrTokFinds(s: seq<uint8>, i: nat, b: nat, e: nat)
    requires i <= b < e <= |s|
    requires AllCommas(s[i..b]) && NoComma(s[b..e]) && (e < |s| ==> s[e] == COMMA)
    ensures StrTok(s, i) == Some((s[b..e], if e < |s| then e + 1 else e))
  {
    assert s[b] == s[b..e][0];
    SkipCommasOver(s, i, b);
    TokenEndOver(s, b, e);
  }

  /** strtok resumed where only commas remain returns NULL. */
  lemma StrTokExhausted(s: seq<uint8>, i: nat)
    requires i <= |s| && AllCommas(s[i..])
    ensures StrTok(s, i).None?
  {
    SkipCommasOver(s, i, |s|);
  }

  /** A token of a C string is a C string. */
  lemma StrTokKeepsNoNul(s: seq<uint8>, i: nat)
    requires i <= |s| && NoNul(s)
    ensures StrTok(s, i).Some? ==> NoNul(StrTok(s, i).value.0)
  {
    var b := SkipCommas(s, i);
    if b < |s| {
      var e := TokenEnd(s, b);
      assert forall k :: 0 <= k < e - b ==> s[b..e][k] == s[b + k];
    }
  }

  /** The first three strtok calls of add_employee. */
  lemma ThreeCalls(s: seq<uint8>)
    ensures StrTok(s, 0).None? <==> |Tokens(s)| == 0
    ensures StrTok(s, 0).Some? ==>
      StrTok(s, 0).value.0 == Tokens(s)[0] &&
      (StrTok(s, StrTok(s, 0).value.1).None? <==> |Tokens(s)| == 1)
    ensures StrTok(s, 0).Some? && StrTok(s, StrTok(s, 0).value.1).Some? ==>
      var p := StrTok(s, StrTok(s, 0).value.1).value;
      p.0 == Tokens(s)[1] && (StrTok(s, p.1).None? <==> |Tokens(s)| == 2) &&
      (StrTok(s, p.1).Some? ==> StrTok(s, p.1).value.0 == Tokens(s)[2])
  {
    assert s[0..] == s;
    StrTokIsNextToken(s, 0);
    if StrTok(s, 0).Some? {
      var p1 := StrTok(s, 0).value.1;
      StrTokIsNextToken(s, p1);
      if StrTok(s, p1).Some? {
        StrTokIsNextToken(s, StrTok(s, p1).value.1);
      }
    }
  }

  // ---------------------------------------------------------------------------
  // strncpy(field, token, width - 1) into a field zeroed by memset

  /** The field holds the first width - 1 bytes of the token at most, and zeros after. */
  function CopyField(token: seq<uint8>, width: nat): (f: seq<uint8>)
    requires width >= 1
    ensures |f| == width
    ensures f[..Min(|token|, width - 1)] == token[..Min(|token|, width - 1)]
    ensures forall k :: Min(|token|, width - 1) <= k < width ==> f[k] == 0
  {
    var n := Min(|token|, width - 1);
    token[..n] + Zeros(width - n)
  }

  /** The text a C routine sees in a field: the bytes before the first zero. */
  function CStr(s: seq<uint8>): seq<uint8> {
    if s == [] || s[0] == 0 then [] else [s[0]] + CStr(s[1..])
  }

  lemma {:induction false} CStrOfPadded(t: seq<uint8>, z: seq<uint8>)
    requires NoNul(t) && z != [] && z[0] == 0
    ensures CStr(t + z) == t
  {
    if t != [] {
      CStrOfPadded(t[1..], z);
      assert (t + z)[1..] == t[1..] + z;
    }
  }

  /** The stored field always ends in a zero byte, and as a C string it is
      the token truncated to width - 1 bytes. */
  lemma CopyFieldTruncates(token: seq<uint8>, width: nat)
    requires width >= 1 && NoNul(token)
    ensures CopyField(token, width)[width - 1] == 0
    ensures CStr(CopyField(token, width)) == token[..Min(|token|, width - 1)]
    ensures |token| < width ==> CStr(CopyField(token, width)) == token
  {
    var n := Min(|token|, width - 1);
    assert NoNul(token[..n]);
    CStrOfPadded(token[..n], Zeros(width - n));
  }

  // ---------------------------------------------------------------------------
  // atoi

  /** isspace in the C locale: space, \t, \n, \v, \f, \r. */
  predicate IsSpace(c: uint8) {
    c == 32 || 9 <= c <= 13
  }

  predicate IsDigit(c: uint8) {
    48 <= c <= 57
  }

  /** The first position at or after `i` that is not white space. */
  function SkipSpace(s: seq<uint8>, i: nat): (j: nat)
    requires i <= |s|
    ensures i <= j <= |s|
    ensures j < |s| ==> !IsSpace(s[j])
    decreases |s| - i
  {
    if i < |s| && IsSpace(s[i]) then SkipSpace(s, i + 1) else i
  }

  /** The longest prefix of decimal digits. */
  function DigitRun(s: seq<uint8>): (d: seq<uint8>)
    ensures |d| <= |s| && d == s[..|d|]
    ensures forall k :: 0 <= k < |d| ==> IsDigit(d[k])
    ensures |d| < |s| ==> !IsDigit(s[|d|])
  {
    if s != [] && IsDigit(s[0]) then [s[0]] + DigitRun(s[1..]) else []
  }

  /** The value of a string of decimal digits, most significant first. */
  function DecimalValue(d: seq<uint8>): nat
    requires forall k :: 0 <= k < |d| ==> IsDigit(d[k])
  {
    if d == [] then 0
    else
      assert IsDigit(d[|d| - 1]);
      DecimalValue(d[..|d| - 1]) * 10 + (d[|d| - 1] - 48)
  }

  /** atoi: optional white space, an optional sign, then digits up to the
      first non-digit; no digits gives 0. The value is the mathematical one:
      whether it fits an int is left to the caller. */
  function Atoi(s: seq<uint8>): (v: int) {
    var i := SkipSpace(s, 0);
    if i < |s| && s[i] == MINUS then -(DecimalValue(DigitRun(s[i + 1..])) as int)
    else if i < |s| && s[i] == PLUS then DecimalValue(DigitRun(s[i + 1..]))
    else DecimalValue(DigitRun(s[i..]))
  }

  /** (unsigned int) of an int: reduction modulo 2^32. */
  function ToUnsigned(v: int): (u: uint32) {
    v % 0x1_0000_0000
  }

  /** The decimal text of `n`, as printf("%u") writes it. */
  function Decimal(n: nat): (d: seq<uint8>)
    ensures d != [] && forall k :: 0 <= k < |d| ==> IsDigit(d[k])
  {
    if n < 10 then [48 + n] else Decimal(n / 10) + [48 + n % 10]
  }

  lemma {:induction false} DecimalValueOfDecimal(n: nat)
    ensures DecimalValue(Decimal(n)) == n
  {
    if n >= 10 {
      DecimalValueOfDecimal(n / 10);
      var d := Decimal(n);
      assert d[..|d| - 1] == Decimal(n / 10);
    }
  }

  lemma {:induction false} DigitRunOfDigits(d: seq<uint8>, rest: seq<uint8>)
    requires forall k :: 0 <= k < |d| ==> IsDigit(d[k])
    requires rest == [] || !IsDigit(rest[0])
    ensures DigitRun(d + rest) == d
  {
    if d != [] {
      DigitRunOfDigits(d[1..], rest);
      assert (d + rest)[1..] == d[1..] + rest;
    }
  }

  /** atoi reads back the decimal text of a number, whatever non-digit
      text follows it. */
  lemma AtoiOfDecimal(n: nat, rest: seq<uint8>)
    requires rest == [] || !IsDigit(rest[0])
    ensures Atoi(Decimal(n) + rest) == n
  {
    var s := Decimal(n) + rest;
    assert s[0] == Decimal(n)[0];
    assert SkipSpace(s, 0) == 0;
    assert s[0..] == s;
    DigitRunOfDigits(Decimal(n), rest);
    DecimalValueOfDecimal(n);
  }

  /** Text that does not start with white space, a sign or a digit reads as 0. */
  lemma AtoiOfNonNumeric(s: seq<uint8>)
    requires s != [] && !IsSpace(s[0]) && !IsDigit(s[0]) && s[0] != PLUS && s[0] != MINUS
    ensures Atoi(s) == 0
  {
    assert SkipSpace(s, 0) == 0;
    assert s[0..] == s;
  }

  /** A negative number is stored as its two's-complement 32-bit pattern. */
  lemma AtoiNegative(n: nat, rest: seq<uint8>)
    requires 0 < n <= 0x8000_0000 && (rest == [] || !IsDigit(rest[0]))
    ensures ToUnsigned(Atoi([MINUS] + Decimal(n) + rest)) == 0x1_0000_0000 - n
  {
    AtoiOfMinus(Decimal(n), rest);
    DecimalValueOfDecimal(n);
    ToUnsignedOfNegative(n);
  }

  /** The unsigned pattern of -n is 2^32 - n. */
  lemma ToUnsignedOfNegative(n: nat)
    requires 0 < n <= 0x1_0000_0000
    ensures ToUnsigned(-(n as int)) == 0x1_0000_0000 - n
  {
    var m := 0x1_0000_0000 - n;
    assert -(n as int) == -1 * 0x1_0000_0000 + m && 0 <= m < 0x1_0000_0000;
  }

  /** atoi of "-" followed by digits is the negated value of the digits. */
  lemma AtoiOfMinus(d: seq<uint8>, rest: seq<uint8>)
    requires forall k :: 0 <= k < |d| ==> IsDigit(d[k])
    requires rest == [] || !IsDigit(rest[0])
    ensures Atoi([MINUS] + d + rest) == -(DecimalValue(d) as int)
  {
    var s := [MINUS] + (d + rest);
    assert [MINUS] + d + rest == s;
    assert s[0] == MINUS && s[1..] == d + rest;
    assert SkipSpace(s, 0) == 0;
    DigitRunOfDigits(d, rest);
    assert DigitRun(s[1..]) == d;
    assert Atoi(s) == -(DecimalValue(DigitRun(s[1..])) as int);
  }
}
