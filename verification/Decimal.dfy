/** Decimal numbers as std::to_string writes them and std::stoi and std::stoul read them. */
module Decimal {
  import opened Wrappers

  predicate IsDigit(c: char) { '0' <= c <= '9' }

  predicate AllDigits(s: string) { forall c :: c in s ==> IsDigit(c) }

  function DigitValue(c: char): nat
    requires IsDigit(c)
  {
    (c as int) - ('0' as int)
  }

  function DigitChar(d: nat): (c: char)
    requires d < 10
    ensures IsDigit(c) && DigitValue(c) == d
  {
    (d + '0' as int) as char
  }

  function ToString(n: nat): (s: string)
    ensures s != "" && AllDigits(s)
  {
    if n < 10 then [DigitChar(n)] else ToString(n / 10) + [DigitChar(n % 10)]
  }

  /** The texts of several numbers. */
  function Texts(numbers: seq<nat>): (texts: seq<string>)
    ensures |texts| == |numbers| && forall i :: 0 <= i < |texts| ==> texts[i] == ToString(numbers[i])
  {
    seq(|numbers|, i requires 0 <= i < |numbers| => ToString(numbers[i]))
  }

  function ValueOf(digits: string): nat
    requires AllDigits(digits)
  {
    if digits == "" then 0
    else
      var last := digits[|digits| - 1];
      assert last in digits;
      10 * ValueOf(digits[..|digits| - 1]) + DigitValue(last)
  }

  lemma {:induction false} ValueOfToString(n: nat)
    ensures ValueOf(ToString(n)) == n
  {
    var s := ToString(n);
    if n < 10 {
      assert s[..|s| - 1] == "";
    } else {
      ValueOfToString(n / 10);
      assert s[..|s| - 1] == ToString(n / 10);
    }
  }

  /** No number but zero starts with a zero. */
  lemma {:induction false} NoLeadingZero(n: nat)
    requires n > 0
    ensures ToString(n)[0] != '0'
  {
    if n >= 10 {
      NoLeadingZero(n / 10);
    }
  }

  /** Different numbers have different texts. */
  lemma ToStringInjective(m: nat, n: nat)
    requires ToString(m) == ToString(n)
    ensures m == n
  {
    ValueOfToString(m);
    ValueOfToString(n);
  }

  predicate IsSpace(c: char) { c == ' ' || '\t' <= c <= '\r' }

  function SkipSpaces(s: string): string {
    if s != "" && IsSpace(s[0]) then SkipSpaces(s[1..]) else s
  }

  /** The leading digits; what follows them is ignored, as strtol does. */
  function LeadingDigits(s: string): (d: string)
    ensures AllDigits(d)
  {
    if s != "" && IsDigit(s[0]) then [s[0]] + LeadingDigits(s[1..]) else ""
  }

  /** Digits are read up to the first character that is none. */
  lemma {:induction false} LeadingDigitsThen(digits: string, rest: string)
    requires AllDigits(digits) && (rest == "" || !IsDigit(rest[0]))
    ensures LeadingDigits(digits + rest) == digits
  {
    if digits == "" {
      assert digits + rest == rest;
    } else {
      assert digits[0] in digits;
      LeadingDigitsThen(digits[1..], rest);
      assert (digits + rest)[1..] == digits[1..] + rest;
    }
  }

  lemma {:induction false} SkipSpacesThen(spaces: string, rest: string)
    requires (forall c :: c in spaces ==> IsSpace(c)) && (rest == "" || !IsSpace(rest[0]))
    ensures SkipSpaces(spaces + rest) == rest
  {
    if spaces == "" {
      assert spaces + rest == rest;
    } else {
      assert spaces[0] in spaces;
      SkipSpacesThen(spaces[1..], rest);
      assert (spaces + rest)[1..] == spaces[1..] + rest;
    }
  }

  datatype NumberError = InvalidArgument | OutOfRange

  const INT_MAX: int := 0x7fff_ffff
  const ULONG_SIZE: int := 0x1_0000_0000_0000_0000
  const UID_SIZE: int := 0x1_0000_0000

  /** An optional sign and digits: whether negative, and the value. */
  function SignedDigits(t: string): Result<(bool, nat), NumberError> {
    var negative := t != "" && t[0] == '-';
    var digits := LeadingDigits(if t != "" && (t[0] == '-' || t[0] == '+') then t[1..] else t);
    if digits == "" then Failure(InvalidArgument) else Success((negative, ValueOf(digits)))
  }

  function Magnitude(s: string): Result<(bool, nat), NumberError> { SignedDigits(SkipSpaces(s)) }

  function Stoi(s: string): Result<int, NumberError> {
    var m := Magnitude(s);
    if m.Failure? then Failure(m.error)
    else
      var v: int := if m.value.0 then 0 - m.value.1 else m.value.1;
      if -INT_MAX - 1 <= v <= INT_MAX then Success(v) else Failure(OutOfRange)
  }

  /** std::stoul, whose 64-bit result negates modulo 2^64 after a minus sign. */
  function Stoul(s: string): Result<nat, NumberError> {
    var m := Magnitude(s);
    if m.Failure? then Failure(m.error)
    else if m.value.1 >= ULONG_SIZE then Failure(OutOfRange)
    else Success(if m.value.0 && m.value.1 != 0 then ULONG_SIZE - m.value.1 else m.value.1)
  }

  /** Blanks, tabs, newlines, vertical tabs, form feeds and carriage returns, whose codes are 32 and 9 to 13. */
  predicate AllBlank(spaces: string) { forall c :: c in spaces ==> c as int == 32 || 9 <= c as int <= 13 }

  /** A sign as a number may have it. */
  predicate IsSign(sign: string) { |sign| <= 1 && (sign != "" ==> sign[0] == '+' || sign[0] == '-') }

  predicate IsMinus(sign: string) { sign != "" && sign[0] == '-' }

  lemma SignedDigitsOf(sign: string, digits: string, rest: string)
    requires IsSign(sign) && AllDigits(digits) && digits != "" && (rest == "" || !IsDigit(rest[0]))
    ensures SignedDigits(sign + digits + rest) == Success((IsMinus(sign), ValueOf(digits)))
  {
    var body := digits + rest;
    assert digits[0] in digits && body[0] == digits[0];
    LeadingDigitsThen(digits, rest);
    if sign == "" {
      assert sign + digits + rest == body;
      Unsigned(body);
    } else {
      SignInFront(sign, digits, rest);
      AfterSign(sign[0], body);
    }
  }

  lemma SignInFront(sign: string, digits: string, rest: string)
    requires |sign| == 1
    ensures sign + digits + rest == [sign[0]] + (digits + rest)
  {
  }

  lemma Unsigned(body: string)
    requires body != "" && IsDigit(body[0])
    ensures SignedDigits(body) == Success((false, ValueOf(LeadingDigits(body))))
  {
  }

  lemma AfterSign(sign: char, body: string)
    requires (sign == '+' || sign == '-') && body != "" && IsDigit(body[0])
    ensures SignedDigits([sign] + body) == Success((sign == '-', ValueOf(LeadingDigits(body))))
  {
    assert ([sign] + body)[1..] == body;
  }

  /** Spaces, a sign, digits, and anything that is no digit: the digits are read, the rest is ignored. */
  lemma MagnitudeOf(spaces: string, sign: string, digits: string, rest: string)
    requires AllBlank(spaces) && IsSign(sign)
    requires AllDigits(digits) && digits != "" && (rest == "" || !IsDigit(rest[0]))
    ensures Magnitude(spaces + sign + digits + rest) == Success((IsMinus(sign), ValueOf(digits)))
  {
    var t := sign + digits + rest;
    assert digits[0] in digits;
    assert spaces + sign + digits + rest == spaces + t;
    SkipSpacesThen(spaces, t);
    SignedDigitsOf(sign, digits, rest);
  }

  /** Without a digit where the number should start there is no number. */
  lemma NoMagnitude(spaces: string, sign: string, rest: string)
    requires AllBlank(spaces) && IsSign(sign)
    requires rest == "" || (!IsDigit(rest[0]) && (sign == "" ==> !IsSpace(rest[0]) && rest[0] != '+' && rest[0] != '-'))
    ensures Magnitude(spaces + sign + rest) == Failure(InvalidArgument)
  {
    var s, t := spaces + sign + rest, sign + rest;
    assert s == spaces + t;
    SkipSpacesThen(spaces, t);
    assert sign != "" ==> t[1..] == rest;
  }

  /** std::stoi: the signed value, or out of range outside 32 bits. */
  lemma StoiOf(spaces: string, sign: string, n: nat, rest: string)
    requires AllBlank(spaces) && IsSign(sign) && (rest == "" || !IsDigit(rest[0]))
    ensures var v: int, read := if IsMinus(sign) then 0 - n else n, Stoi(spaces + sign + ToString(n) + rest);
      if -0x8000_0000 <= v <= 0x7fff_ffff then read == Success(v) else read == Failure(OutOfRange)
  {
    var digits := ToString(n);
    ValueOfToString(n);
    MagnitudeOf(spaces, sign, digits, rest);
  }

  lemma StoiOfToString(n: nat)
    ensures Stoi(ToString(n)) == if n <= 0x7fff_ffff then Success(n) else Failure(OutOfRange)
  {
    var digits := ToString(n);
    assert "" + "" + digits + "" == digits;
    StoiOf("", "", n, "");
  }

  lemma StoiOfNegative(n: nat)
    ensures var read := Stoi("-" + ToString(n));
      if n <= 0x8000_0000 then read.Success? && read.value == 0 - n else read == Failure(OutOfRange)
  {
    var digits := ToString(n);
    assert "" + "-" + digits + "" == "-" + digits;
    StoiOf("", "-", n, "");
  }

  /** std::stoul: the value modulo 2^64 with its sign, or out of range from 2^64 on. */
  lemma StoulOf(spaces: string, sign: string, n: nat, rest: string)
    requires AllBlank(spaces) && IsSign(sign) && (rest == "" || !IsDigit(rest[0]))
    ensures Stoul(spaces + sign + ToString(n) + rest) ==
      if n >= 0x1_0000_0000_0000_0000 then Failure(OutOfRange)
      else if IsMinus(sign) && n > 0 then Success(0x1_0000_0000_0000_0000 - n)
      else Success(n)
  {
    var digits := ToString(n);
    ValueOfToString(n);
    MagnitudeOf(spaces, sign, digits, rest);
  }

  /** A user or group identifier. */
  newtype Id = x: int | 0 <= x < UID_SIZE

  /** std::stoul stored in a 32-bit identifier. */
  function StoulToId(s: string): Result<Id, NumberError> {
    var n := Stoul(s);
    if n.Failure? then Failure(n.error) else Success((n.value % UID_SIZE) as Id)
  }

  /** The identifier is the number modulo 2^32. */
  lemma StoulToIdOf(n: nat)
    ensures StoulToId(ToString(n)) ==
      if n >= 0x1_0000_0000_0000_0000 then Failure(OutOfRange) else Success((n % 0x1_0000_0000) as Id)
  {
    var digits := ToString(n);
    assert "" + "" + digits + "" == digits;
    StoulOf("", "", n, "");
  }

  lemma StoulToIdOfToString(id: Id)
    ensures StoulToId(ToString(id as nat)) == Success(id)
  {
    var n: nat := id as nat;
    StoulToIdOf(n);
    SmallModulo(id);
  }

  lemma SmallModulo(id: Id)
    ensures ((id as nat) % 0x1_0000_0000) as Id == id
  {
  }
}
