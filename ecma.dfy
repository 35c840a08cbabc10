/** The ECMAScript built-ins the server and the contact form rely on:
    the decimal rendering of a non-negative integer (`Number#toString()` and
    template interpolation), `parseInt` called without a radix, and
    `encodeURIComponent`, together with `decodeURIComponent`, its inverse.
    Strings are sequences of Unicode scalar values. */
module EcmaScript {
  import opened Wrappers

  type Byte = x: int | 0 <= x < 256

  // ---------------------------------------------------------------------
  // Digits

  /** The value of `c` as a digit in radixes up to 36 (0-9, then a-z or
      A-Z for 10..35); 36 when `c` is no digit at all. */
  function DigitValue(c: char): (d: nat)
    ensures d <= 36
  {
    if '0' <= c <= '9' then c as int - '0' as int
    else if 'a' <= c <= 'z' then c as int - 'a' as int + 10
    else if 'A' <= c <= 'Z' then c as int - 'A' as int + 10
    else 36
  }

  predicate IsDecimalDigit(c: char) {
    '0' <= c <= '9'
  }

  predicate IsHexDigit(c: char) {
    IsDecimalDigit(c) || 'a' <= c <= 'f' || 'A' <= c <= 'F'
  }

  function DigitChar(d: nat): (c: char)
    requires d < 10
    ensures IsDecimalDigit(c) && DigitValue(c) == d
  {
    ('0' as int + d) as char
  }

  /** 2^53: every integer up to it is a Number, and `String` writes it in
      plain decimal (exponent notation starts only at 1e21). */
  const MaxExactInteger: nat := 0x20_0000_0000_0000

  /** The decimal rendering of `n`, as `String(n)` gives it for an integral
      Number: most significant digit first, no sign, no leading zero. */
  function DecimalString(n: nat): (s: string)
    requires n <= MaxExactInteger
    ensures |s| >= 1
    ensures forall i :: 0 <= i < |s| ==> IsDecimalDigit(s[i])
    ensures s[0] == '0' ==> n == 0
    decreases n
  {
    if n < 10 then [DigitChar(n)] else DecimalString(n / 10) + [DigitChar(n % 10)]
  }

  /** The integer the digits `ds` denote in `radix`, most significant first. */
  function DigitsValue(ds: string, radix: nat): nat
  {
    if ds == [] then 0
    else DigitsValue(ds[..|ds| - 1], radix) * radix + DigitValue(ds[|ds| - 1])
  }

  /** The longest prefix of `s` made of digits of `radix`. */
  function DigitPrefix(s: string, radix: nat): (z: string)
    ensures |z| <= |s| && z == s[..|z|]
    ensures forall i :: 0 <= i < |z| ==> DigitValue(z[i]) < radix
    ensures |z| < |s| ==> DigitValue(s[|z|]) >= radix
  {
    if s == [] || DigitValue(s[0]) >= radix then []
    else [s[0]] + DigitPrefix(s[1..], radix)
  }

  // ---------------------------------------------------------------------
  // indexOf

  /** `s.indexOf(c)` for a one-character `c`, with `|s|` in place of -1. */
  function IndexOf(s: string, c: char): (k: nat)
    ensures k <= |s|
    ensures forall i :: 0 <= i < k ==> s[i] != c
    ensures k < |s| ==> s[k] == c
  {
    if s == [] || s[0] == c then 0 else 1 + IndexOf(s[1..], c)
  }

  // ---------------------------------------------------------------------
  // parseInt

  /** StrWhiteSpaceChar: the white space and line terminators that
      `parseInt` skips before the number. */
  predicate IsStrWhiteSpace(c: char) {
    var n := c as int;
    n == 0x09 || n == 0x0A || n == 0x0B || n == 0x0C || n == 0x0D || n == 0x20
    || n == 0xA0 || n == 0x1680 || (0x2000 <= n <= 0x200A) || n == 0x2028
    || n == 0x2029 || n == 0x202F || n == 0x205F || n == 0x3000 || n == 0xFEFF
  }

  function TrimStart(s: string): (t: string)
    ensures |t| <= |s| && t == s[|s| - |t|..]
    ensures t == [] || !IsStrWhiteSpace(t[0])
  {
    if s != [] && IsStrWhiteSpace(s[0]) then TrimStart(s[1..]) else s
  }

  /** `parseInt(s)` with the radix left undefined, as in section 15.1.2.2
      of ECMA-262 5.1: skip leading white space, take an optional sign, read
      hexadecimal after a `0x` or `0X` prefix and decimal otherwise, and
      convert the longest run of digits; `None` stands for NaN. The
      Number's rounding of very long digit runs is not modelled. */
  function ParseInt(s: string): (r: Option<int>)
    // NaN exactly when, after the white space and at most one sign, there
    // is neither a decimal digit nor `0x` or `0X` and a hexadecimal digit.
    ensures r.None? <==>
      var u := ParseIntBody(s);
      if HasHexPrefix(u) then |u| == 2 || !IsHexDigit(u[2]) else u == [] || !IsDecimalDigit(u[0])
    ensures r.Some? ==> (r.value < 0 ==> ParseIntNegated(s)) && (ParseIntNegated(s) ==> r.value <= 0)
  {
    match ParseUnsigned(ParseIntBody(s))
    case None => None
    case Some(v) => Some(if ParseIntNegated(s) then -(v as int) else v)
  }

  /** What is left of `s` after the white space and the sign. */
  function ParseIntBody(s: string): string {
    var t := TrimStart(s);
    if t != [] && (t[0] == '-' || t[0] == '+') then t[1..] else t
  }

  predicate ParseIntNegated(s: string) {
    var t := TrimStart(s);
    t != [] && t[0] == '-'
  }

  predicate HasHexPrefix(u: string) {
    |u| >= 2 && u[0] == '0' && (u[1] == 'x' || u[1] == 'X')
  }

  /** The number after the sign: hexadecimal digits after `0x`, decimal
      digits otherwise; `None` when there is no digit. */
  function ParseUnsigned(u: string): Option<nat> {
    if HasHexPrefix(u) then DigitRunValue(u[2..], 16) else DigitRunValue(u, 10)
  }

  function DigitRunValue(u: string, radix: nat): Option<nat> {
    var z := DigitPrefix(u, radix);
    if z == [] then None else Some(DigitsValue(z, radix))
  }

  lemma {:induction false} DigitPrefixOfDigits(ds: string, rest: string, radix: nat)
    requires forall i :: 0 <= i < |ds| ==> DigitValue(ds[i]) < radix
    requires rest == [] || DigitValue(rest[0]) >= radix
    ensures DigitPrefix(ds + rest, radix) == ds
  {
    if ds != [] {
      assert (ds + rest)[1..] == ds[1..] + rest;
      DigitPrefixOfDigits(ds[1..], rest, radix);
    } else {
      assert ds + rest == rest;
    }
  }

  lemma {:induction false} DecimalStringValue(n: nat)
    requires n <= MaxExactInteger
    ensures DigitsValue(DecimalString(n), 10) == n
    decreases n
  {
    var s := DecimalString(n);
    if n < 10 {
      assert s[..0] == [];
    } else {
      DecimalStringValue(n / 10);
      assert s[..|s| - 1] == DecimalString(n / 10);
    }
  }

  /** The decimal rendering followed by text that continues no digit run
      and makes no `0x` prefix. */
  predicate EndsDigits(n: nat, rest: string) {
    (rest == [] || !IsDecimalDigit(rest[0]))
    && (n == 0 && rest != [] ==> rest[0] != 'x' && rest[0] != 'X')
  }

  /** The unsigned reading of the decimal rendering gives the number back. */
  lemma ParseUnsignedDecimal(n: nat, rest: string)
    requires n <= MaxExactInteger && EndsDigits(n, rest)
    ensures var u := DecimalString(n) + rest;
      u != [] && IsDecimalDigit(u[0]) && ParseUnsigned(u) == Some(n)
  {
    var ds := DecimalString(n);
    var u := ds + rest;
    assert u[0] == ds[0];
    assert n == 0 ==> ds == "0" && (|u| >= 2 ==> u[1] == rest[0]);
    ParseUnsignedDigits(ds, rest);
    DecimalStringValue(n);
  }

  /** Without a `0x` prefix, the unsigned reading is the value of the
      leading decimal digits, leading zeros included. */
  lemma ParseUnsignedDigits(ds: string, rest: string)
    requires ds != [] && forall i :: 0 <= i < |ds| ==> IsDecimalDigit(ds[i])
    requires rest == [] || !IsDecimalDigit(rest[0])
    requires !HasHexPrefix(ds + rest)
    ensures ParseUnsigned(ds + rest) == Some(DigitsValue(ds, 10))
  {
    DigitPrefixOfDigits(ds, rest, 10);
  }

  /** `parseInt` of a run of decimal digits, leading zeros included, followed
      by text that does not continue the run and with no `0x` prefix, is
      the value of the run (`parseInt("007")` is 7). */
  lemma ParseIntDigits(ds: string, rest: string)
    requires ds != [] && forall i :: 0 <= i < |ds| ==> IsDecimalDigit(ds[i])
    requires rest == [] || !IsDecimalDigit(rest[0])
    requires !HasHexPrefix(ds + rest)
    ensures ParseInt(ds + rest) == Some(DigitsValue(ds, 10))
  {
    assert (ds + rest)[0] == ds[0];
    ParseIntBodyOfDigit(ds + rest);
    ParseUnsignedDigits(ds, rest);
  }

  lemma ParseIntLeadingZeros()
    ensures ParseInt("007") == Some(7)
  {
    var ds := "007";
    ParseIntDigits(ds, "");
    assert ds + "" == ds;
    assert ds[..2] == "00" && "00"[..1] == "0" && "0"[..0] == [];
    assert DigitsValue(ds, 10) == 7;
  }

  /** Text that starts with a decimal digit is its own body. */
  lemma ParseIntBodyOfDigit(s: string)
    requires s != [] && IsDecimalDigit(s[0])
    ensures ParseIntBody(s) == s && !ParseIntNegated(s)
  {
    assert !IsStrWhiteSpace(s[0]);
    assert TrimStart(s) == s;
  }

  /** After a minus sign the body is the rest. */
  lemma ParseIntBodyOfMinus(u: string)
    ensures ParseIntBody("-" + u) == u && ParseIntNegated("-" + u)
  {
    var s := "-" + u;
    assert s[0] == '-' && !IsStrWhiteSpace(s[0]);
    assert TrimStart(s) == s;
    assert s[1..] == u;
  }

  /** `parseInt` reads back what the decimal rendering wrote, also when other
      text follows that does not start with a digit (`parseInt("7x")` is 7).
      After a lone `0` the text must not start with `x` or `X`, which would
      make a hexadecimal prefix. */
  lemma ParseIntDecimal(n: nat, rest: string)
    requires n <= MaxExactInteger && EndsDigits(n, rest)
    ensures ParseInt(DecimalString(n) + rest) == Some(n)
  {
    var ds := DecimalString(n);
    assert n == 0 ==> ds == "0" && (|ds + rest| >= 2 ==> (ds + rest)[1] == rest[0]);
    ParseIntDigits(ds, rest);
    DecimalStringValue(n);
  }

  /** A minus sign before the decimal rendering negates the result. */
  lemma ParseIntNegative(n: nat, rest: string)
    requires n <= MaxExactInteger && EndsDigits(n, rest)
    ensures ParseInt("-" + (DecimalString(n) + rest)) == Some(-(n as int))
  {
    ParseUnsignedDecimal(n, rest);
    ParseIntBodyOfMinus(DecimalString(n) + rest);
  }

  /** `parseInt` yields NaN when the text, after white space, starts with
      neither a sign nor a decimal digit (`parseInt("abc")`). */
  lemma ParseIntNoDigit(s: string)
    requires s != [] && !IsStrWhiteSpace(s[0]) && s[0] != '-' && s[0] != '+'
    requires !IsDecimalDigit(s[0])
    ensures ParseInt(s) == None
  {
    assert TrimStart(s) == s;
    assert ParseIntBody(s) == s;
    assert DigitValue(s[0]) >= 10;
  }

  /** White space before the text changes nothing. */
  lemma ParseIntWhiteSpace(w: string, s: string)
    requires forall i :: 0 <= i < |w| ==> IsStrWhiteSpace(w[i])
    ensures ParseInt(w + s) == ParseInt(s)
  {
    TrimStartWhiteSpace(w, s);
    ParseIntOfParts(w + s, s);
  }

  /** `parseInt` depends on the text only through its body and its sign. */
  lemma ParseIntOfParts(s: string, t: string)
    requires ParseIntBody(s) == ParseIntBody(t) && ParseIntNegated(s) == ParseIntNegated(t)
    ensures ParseInt(s) == ParseInt(t)
  {
  }

  lemma {:induction false} TrimStartWhiteSpace(w: string, s: string)
    requires forall i :: 0 <= i < |w| ==> IsStrWhiteSpace(w[i])
    ensures TrimStart(w + s) == TrimStart(s)
  {
    if w != [] {
      assert (w + s)[0] == w[0] && (w + s)[1..] == w[1..] + s;
      TrimStartWhiteSpace(w[1..], s);
    } else {
      assert w + s == s;
    }
  }

  /** A sign before text that starts with neither white space nor a sign:
      `-` negates the number, `+` keeps it, and NaN stays NaN. */
  lemma ParseIntSign(u: string)
    requires u == [] || (!IsStrWhiteSpace(u[0]) && u[0] != '-' && u[0] != '+')
    ensures ParseInt("+" + u) == ParseInt(u)
    ensures ParseInt("-" + u) == if ParseInt(u).None? then None else Some(-ParseInt(u).value)
  {
    ParseIntBodyOfUnsigned(u);
    ParseIntBodyOfPlus(u);
    ParseIntBodyOfMinus(u);
  }

  lemma ParseIntBodyOfUnsigned(u: string)
    requires u == [] || (!IsStrWhiteSpace(u[0]) && u[0] != '-' && u[0] != '+')
    ensures ParseIntBody(u) == u && !ParseIntNegated(u)
  {
    assert TrimStart(u) == u;
  }

  /** After a plus sign the body is the rest. */
  lemma ParseIntBodyOfPlus(u: string)
    ensures ParseIntBody("+" + u) == u && !ParseIntNegated("+" + u)
  {
    var s := "+" + u;
    assert s[0] == '+' && !IsStrWhiteSpace(s[0]);
    assert TrimStart(s) == s;
    assert s[1..] == u;
  }

  /** After `0x` or `0X`, `parseInt` reads the hexadecimal digits that
      follow, up to the first character that is no hexadecimal digit. */
  lemma ParseIntHex(x: char, ds: string, rest: string)
    requires x == 'x' || x == 'X'
    requires ds != [] && forall i :: 0 <= i < |ds| ==> IsHexDigit(ds[i])
    requires rest == [] || !IsHexDigit(rest[0])
    ensures ParseInt(['0', x] + ds + rest) == Some(DigitsValue(ds, 16))
  {
    var s := ['0', x] + ds + rest;
    ParseIntBodyOfDigit(s);
    ParseUnsignedHex(x, ds, rest);
  }

  lemma ParseUnsignedHex(x: char, ds: string, rest: string)
    requires x == 'x' || x == 'X'
    requires ds != [] && forall i :: 0 <= i < |ds| ==> IsHexDigit(ds[i])
    requires rest == [] || !IsHexDigit(rest[0])
    ensures ParseUnsigned(['0', x] + ds + rest) == Some(DigitsValue(ds, 16))
  {
    var s := ['0', x] + ds + rest;
    var u := ds + rest;
    assert s == ['0', x] + u;
    assert HasHexPrefix(s) && s[2..] == u;
    HexDigitsPrefix(ds, rest);
    assert DigitRunValue(u, 16) == Some(DigitsValue(ds, 16));
  }

  lemma HexDigitsPrefix(ds: string, rest: string)
    requires forall i :: 0 <= i < |ds| ==> IsHexDigit(ds[i])
    requires rest == [] || !IsHexDigit(rest[0])
    ensures DigitPrefix(ds + rest, 16) == ds
  {
    forall i | 0 <= i < |ds| ensures DigitValue(ds[i]) < 16 {
      HexDigitValue(ds[i]);
    }
    if rest != [] {
      HexDigitValue(rest[0]);
    }
    DigitPrefixOfDigits(ds, rest, 16);
  }

  lemma ParseIntHexExample()
    ensures ParseInt("0x1F") == Some(31)
  {
    var ds := "1F";
    ParseIntHex('x', ds, "");
    assert ['0', 'x'] + ds + "" == "0x1F";
    assert ds[..1] == "1" && "1"[..0] == [];
    assert DigitsValue(ds, 16) == 31;
  }

  lemma HexDigitValue(c: char)
    ensures IsHexDigit(c) <==> DigitValue(c) < 16
  {
  }

  lemma ParseIntLetters()
    ensures ParseInt("abc") == None
  {
    ParseIntNoDigit("abc");
  }

  lemma ParseIntDigitPrefix()
    ensures ParseInt("7x") == Some(7)
  {
    ParseIntDecimal(7, "x");
    assert DecimalString(7) + "x" == "7x";
  }

  // ---------------------------------------------------------------------
  // encodeURIComponent

  /** The characters `encodeURIComponent` leaves as they are: letters, digits
      and `- _ . ! ~ * ' ( )` (uriUnescaped in section 15.1.3 of ECMA-262
      5.1, slightly wider than the unreserved set of RFC 3986). */
  predicate IsUnescaped(c: char) {
    'A' <= c <= 'Z' || 'a' <= c <= 'z' || '0' <= c <= '9'
    || c == '-' || c == '_' || c == '.' || c == '!' || c == '~'
    || c == '*' || c == '\'' || c == '(' || c == ')'
  }

  /** The UTF-8 encoding of one scalar value (section 3 of RFC 3629). */
  function Utf8(c: char): (bs: seq<Byte>)
    ensures 1 <= |bs| <= 4
    ensures (|bs| == 1) == (c as int < 0x80)
  {
    var n := c as int;
    if n < 0x80 then [n]
    else if n < 0x800 then [0xC0 + n / 64, 0x80 + n % 64]
    else if n < 0x10000 then [0xE0 + n / 4096, 0x80 + n / 64 % 64, 0x80 + n % 64]
    else [0xF0 + n / 262144, 0x80 + n / 4096 % 64, 0x80 + n / 64 % 64, 0x80 + n % 64]
  }

  function HexDigit(d: nat): (c: char)
    requires d < 16
    ensures DigitValue(c) == d && IsUnescaped(c)
  {
    if d < 10 then ('0' as int + d) as char else ('A' as int + d - 10) as char
  }

  /** `%XY` for every byte, with upper-case hexadecimal digits. */
  function PercentBytes(bs: seq<Byte>): (e: string)
    ensures |e| == 3 * |bs|
    ensures forall i :: 0 <= i < |e| ==> e[i] == '%' || IsUnescaped(e[i])
  {
    if bs == [] then [] else ['%', HexDigit(bs[0] / 16), HexDigit(bs[0] % 16)] + PercentBytes(bs[1..])
  }

  function EncodeChar(c: char): string {
    if IsUnescaped(c) then [c] else PercentBytes(Utf8(c))
  }

  /** `encodeURIComponent(s)`: every character outside the unescaped set is
      replaced by the percent-encoded bytes of its UTF-8 encoding. The
      result holds nothing but unescaped characters and `%`, so in
      particular no `&`, `=`, `?` or `#` that would split a URI. */
  function EncodeURIComponent(s: string): (r: string)
    ensures forall i :: 0 <= i < |r| ==> r[i] == '%' || IsUnescaped(r[i])
    ensures |r| >= |s|
  {
    if s == [] then [] else EncodeChar(s[0]) + EncodeURIComponent(s[1..])
  }

  // ---------------------------------------------------------------------
  // decodeURIComponent

  /** The byte written as `%XY` at position `k` of `s`, if there is one. */
  function EscapedByte(s: string, k: nat): Option<Byte> {
    if k + 3 <= |s| && s[k] == '%' && DigitValue(s[k + 1]) < 16 && DigitValue(s[k + 2]) < 16
    then Some(DigitValue(s[k + 1]) * 16 + DigitValue(s[k + 2]))
    else None
  }

  /** The six payload bits of the `j`-th escaped byte of `s`, when that byte
      is a UTF-8 continuation byte (`10xxxxxx`). */
  function Continuation(s: string, j: nat): Option<int> {
    match EscapedByte(s, 3 * j)
    case Some(b) => if 0x80 <= b < 0xC0 then Some(b - 0x80) else None
    case None => None
  }

  /** The scalar value `cp`, decoded from `len` characters, when it is a
      valid UTF-8 result: at least `least` (no overlong form), no surrogate,
      at most U+10FFFF. */
  function Scalar(cp: int, least: nat, len: nat): Option<(char, nat)> {
    if least <= cp < 0x110000 && !(0xD800 <= cp < 0xE000) then Some((cp as char, len)) else None
  }

  /** One escape sequence at the head of `s`: the character it decodes to
      and the number of characters it spans, or `None` for a URIError. */
  function DecodeEscape(s: string): (r: Option<(char, nat)>)
    ensures r.Some? ==> 3 <= r.value.1 <= |s|
  {
    match EscapedByte(s, 0)
    case None => None
    case Some(b0) =>
      if b0 < 0x80 then Some((b0 as char, 3))
      else if 0xC0 <= b0 < 0xE0 then DecodeTwo(s, b0)
      else if 0xE0 <= b0 < 0xF0 then DecodeThree(s, b0)
      else if 0xF0 <= b0 < 0xF8 then DecodeFour(s, b0)
      else None
  }

  function DecodeTwo(s: string, b0: int): (r: Option<(char, nat)>)
    ensures r.Some? ==> r.value.1 == 6 <= |s|
  {
    match Continuation(s, 1)
    case Some(x1) => Scalar((b0 - 0xC0) * 64 + x1, 0x80, 6)
    case None => None
  }

  function DecodeThree(s: string, b0: int): (r: Option<(char, nat)>)
    ensures r.Some? ==> r.value.1 == 9 <= |s|
  {
    match Continuation(s, 1)
    case None => None
    case Some(x1) =>
      match Continuation(s, 2)
      case None => None
      case Some(x2) => Scalar((b0 - 0xE0) * 4096 + x1 * 64 + x2, 0x800, 9)
  }

  function DecodeFour(s: string, b0: int): (r: Option<(char, nat)>)
    ensures r.Some? ==> r.value.1 == 12 <= |s|
  {
    match Continuation(s, 1)
    case None => None
    case Some(x1) =>
      match Continuation(s, 2)
      case None => None
      case Some(x2) =>
        match Continuation(s, 3)
        case None => None
        case Some(x3) => Scalar((b0 - 0xF0) * 262144 + x1 * 4096 + x2 * 64 + x3, 0x10000, 12)
  }

  /** `decodeURIComponent(s)`, as in section 15.1.3.2 of ECMA-262 5.1 with an
      empty reserved set; `None` stands for a URIError. */
  function DecodeURIComponent(s: string): Option<string>
    decreases |s|
  {
    if s == [] then Some([])
    else
      var (c, n) := if s[0] != '%' then (s[0], 1) else
        match DecodeEscape(s) case Some(p) => p case None => (s[0], 0);
      if n == 0 then None
      else match DecodeURIComponent(s[n..])
        case None => None
        case Some(t) => Some([c] + t)
  }

  lemma {:induction false} PercentBytesChars(bs: seq<Byte>, i: nat)
    requires i < |bs|
    ensures PercentBytes(bs)[3 * i] == '%'
    ensures PercentBytes(bs)[3 * i + 1] == HexDigit(bs[i] / 16)
    ensures PercentBytes(bs)[3 * i + 2] == HexDigit(bs[i] % 16)
  {
    var e := PercentBytes(bs);
    var head := ['%', HexDigit(bs[0] / 16), HexDigit(bs[0] % 16)];
    var tail := PercentBytes(bs[1..]);
    assert e == head + tail;
    if i > 0 {
      PercentBytesChars(bs[1..], i - 1);
      var k := 3 * (i - 1);
      assert e[k + 3] == tail[k] && e[k + 4] == tail[k + 1] && e[k + 5] == tail[k + 2];
    }
  }

  lemma EscapedByteOf(s: string, k: nat, b: Byte)
    requires k + 3 <= |s| && s[k] == '%'
    requires s[k + 1] == HexDigit(b / 16) && s[k + 2] == HexDigit(b % 16)
    ensures EscapedByte(s, k) == Some(b)
  {
    var h1, h2 := DigitValue(s[k + 1]), DigitValue(s[k + 2]);
    assert h1 == b / 16 && h2 == b % 16;
  }

  /** An escape lies wholly inside `e`, so what follows does not change it. */
  lemma EscapedByteInPrefix(e: string, rest: string, k: nat)
    requires k + 3 <= |e|
    ensures EscapedByte(e + rest, k) == EscapedByte(e, k)
  {
    var s := e + rest;
    assert s[k] == e[k] && s[k + 1] == e[k + 1] && s[k + 2] == e[k + 2];
  }

  lemma PercentBytesAt(bs: seq<Byte>, rest: string, i: nat)
    requires i < |bs|
    ensures EscapedByte(PercentBytes(bs) + rest, 3 * i) == Some(bs[i])
  {
    var e := PercentBytes(bs);
    PercentBytesChars(bs, i);
    EscapedByteOf(e, 3 * i, bs[i]);
    EscapedByteInPrefix(e, rest, 3 * i);
  }

  lemma Utf8Two(n: int)
    requires 0x80 <= n < 0x800
    ensures 0xC0 <= 0xC0 + n / 64 < 0xE0
    ensures (n / 64) * 64 + n % 64 == n
  {
  }

  lemma Utf8Three(n: int)
    requires 0x800 <= n < 0x10000
    ensures 0 <= n / 4096 < 16
    ensures (n / 4096) * 4096 + (n / 64 % 64) * 64 + n % 64 == n
  {
    var q := n / 64;
    assert n == q * 64 + n % 64;
    assert q == (q / 64) * 64 + q % 64;
    assert q / 64 == n / 4096;
  }

  lemma Utf8Four(n: int)
    requires 0x10000 <= n < 0x110000
    ensures 0 <= n / 262144 < 8
    ensures (n / 262144) * 262144 + (n / 4096 % 64) * 4096 + (n / 64 % 64) * 64 + n % 64 == n
  {
    var q := n / 64;
    var p := q / 64;
    assert n == q * 64 + n % 64;
    assert q == p * 64 + q % 64;
    assert p == (p / 64) * 64 + p % 64;
    assert p == n / 4096;
    assert p / 64 == n / 262144;
  }

  lemma DecodeOneOf(s: string, b0: Byte)
    requires EscapedByte(s, 0) == Some(b0) && b0 < 0x80
    ensures DecodeEscape(s) == Some((b0 as char, 3))
  {
  }

  lemma DecodeTwoOf(s: string, b0: Byte, b1: Byte)
    requires EscapedByte(s, 0) == Some(b0) && EscapedByte(s, 3) == Some(b1)
    requires 0xC0 <= b0 < 0xE0 && 0x80 <= b1 < 0xC0
    ensures DecodeEscape(s) == Scalar((b0 - 0xC0) * 64 + (b1 - 0x80), 0x80, 6)
  {
    assert Continuation(s, 1) == Some(b1 - 0x80);
  }

  lemma DecodeThreeOf(s: string, b0: Byte, b1: Byte, b2: Byte)
    requires EscapedByte(s, 0) == Some(b0) && EscapedByte(s, 3) == Some(b1) && EscapedByte(s, 6) == Some(b2)
    requires 0xE0 <= b0 < 0xF0 && 0x80 <= b1 < 0xC0 && 0x80 <= b2 < 0xC0
    ensures DecodeEscape(s) == Scalar((b0 - 0xE0) * 4096 + (b1 - 0x80) * 64 + (b2 - 0x80), 0x800, 9)
  {
    assert Continuation(s, 1) == Some(b1 - 0x80);
    assert Continuation(s, 2) == Some(b2 - 0x80);
  }

  lemma DecodeFourOf(s: string, b0: Byte, b1: Byte, b2: Byte, b3: Byte)
    requires EscapedByte(s, 0) == Some(b0) && EscapedByte(s, 3) == Some(b1)
    requires EscapedByte(s, 6) == Some(b2) && EscapedByte(s, 9) == Some(b3)
    requires 0xF0 <= b0 < 0xF8 && 0x80 <= b1 < 0xC0 && 0x80 <= b2 < 0xC0 && 0x80 <= b3 < 0xC0
    ensures DecodeEscape(s)
         == Scalar((b0 - 0xF0) * 262144 + (b1 - 0x80) * 4096 + (b2 - 0x80) * 64 + (b3 - 0x80), 0x10000, 12)
  {
    assert Continuation(s, 1) == Some(b1 - 0x80);
    assert Continuation(s, 2) == Some(b2 - 0x80);
    assert Continuation(s, 3) == Some(b3 - 0x80);
  }

  lemma DecodeEscapeTwo(c: char, rest: string)
    requires 0x80 <= c as int < 0x800
    ensures DecodeEscape(PercentBytes(Utf8(c)) + rest) == Some((c, 6))
  {
    var n, bs := c as int, Utf8(c);
    var s := PercentBytes(bs) + rest;
    Utf8Two(n);
    assert bs[0] == 0xC0 + n / 64 && bs[1] == 0x80 + n % 64;
    PercentBytesAt(bs, rest, 0);
    PercentBytesAt(bs, rest, 1);
    DecodeTwoOf(s, bs[0], bs[1]);
  }

  lemma DecodeEscapeThree(c: char, rest: string)
    requires 0x800 <= c as int < 0x10000
    ensures DecodeEscape(PercentBytes(Utf8(c)) + rest) == Some((c, 9))
  {
    var n, bs := c as int, Utf8(c);
    var s := PercentBytes(bs) + rest;
    Utf8Three(n);
    assert bs[0] == 0xE0 + n / 4096 && bs[1] == 0x80 + n / 64 % 64 && bs[2] == 0x80 + n % 64;
    PercentBytesAt(bs, rest, 0);
    PercentBytesAt(bs, rest, 1);
    PercentBytesAt(bs, rest, 2);
    DecodeThreeOf(s, bs[0], bs[1], bs[2]);
  }

  lemma DecodeEscapeFour(c: char, rest: string)
    requires 0x10000 <= c as int
    ensures DecodeEscape(PercentBytes(Utf8(c)) + rest) == Some((c, 12))
  {
    var n, bs := c as int, Utf8(c);
    var s := PercentBytes(bs) + rest;
    Utf8Four(n);
    assert bs[0] == 0xF0 + n / 262144 && bs[1] == 0x80 + n / 4096 % 64;
    assert bs[2] == 0x80 + n / 64 % 64 && bs[3] == 0x80 + n % 64;
    PercentBytesAt(bs, rest, 0);
    PercentBytesAt(bs, rest, 1);
    PercentBytesAt(bs, rest, 2);
    PercentBytesAt(bs, rest, 3);
    DecodeFourOf(s, bs[0], bs[1], bs[2], bs[3]);
  }

  /** Decoding the escapes `encodeURIComponent` writes for one character
      gives that character back and consumes exactly those escapes. */
  lemma DecodeEscapeOfChar(c: char, rest: string)
    ensures DecodeEscape(PercentBytes(Utf8(c)) + rest) == Some((c, 3 * |Utf8(c)|))
  {
    var n := c as int;
    if n < 0x80 {
      PercentBytesAt(Utf8(c), rest, 0);
      DecodeOneOf(PercentBytes(Utf8(c)) + rest, n);
    } else if n < 0x800 {
      DecodeEscapeTwo(c, rest);
    } else if n < 0x10000 {
      DecodeEscapeThree(c, rest);
    } else {
      DecodeEscapeFour(c, rest);
    }
  }

  /** `decodeURIComponent` undoes `encodeURIComponent`: the round trip gives
      back every string, whatever characters it holds. */
  lemma {:induction false} DecodeEncode(s: string)
    ensures DecodeURIComponent(EncodeURIComponent(s)) == Some(s)
  {
    if s != [] {
      var c := s[0];
      var e := EncodeChar(c);
      var tail := EncodeURIComponent(s[1..]);
      var t := e + tail;
      assert EncodeURIComponent(s) == t;
      DecodeEncode(s[1..]);
      if IsUnescaped(c) {
        assert t[0] == c && c != '%';
        assert t[1..] == tail;
      } else {
        DecodeEscapeOfChar(c, tail);
        assert t[0] == '%';
        assert t[|e|..] == tail;
      }
      assert s == [c] + s[1..];
    }
  }
}
