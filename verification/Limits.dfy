/**
 The `limit` query parameter as each service reads it: Go through `Sscanf`
 with `%d`, Node through `parseInt` with radix 10.
 */
module Limits {
  import opened Text
  import opened Uuids

  function Clamp(n: int): (r: nat)
    ensures 1 <= r <= 10_000
  {
    if n < 1 then 1 else if n > 10_000 then 10_000 else n
  }

  predicate IsDigit(c: char) {
    '0' <= c <= '9'
  }

  function LeadingDigits(s: string): (r: nat)
    ensures r <= |s| && forall i :: 0 <= i < r ==> IsDigit(s[i])
  {
    if s != "" && IsDigit(s[0]) then 1 + LeadingDigits(s[1..]) else 0
  }

  function NatValue(digits: string): nat
    requires forall i :: 0 <= i < |digits| ==> IsDigit(digits[i])
  {
    if digits == "" then 0
    else
      assert IsDigit(digits[|digits| - 1]);
      10 * NatValue(digits[..|digits| - 1]) + (digits[|digits| - 1] - '0') as nat
  }

  /** The number at the front, if there is a digit; whatever follows it is ignored by both parsers. */
  function ScanDigits(s: string): Option<nat> {
    var n := LeadingDigits(s);
    if n == 0 then None else Some(NatValue(s[..n]))
  }

  /** The same with an optional sign. */
  function ScanInt(s: string): Option<int> {
    var signed := s != "" && (s[0] == '-' || s[0] == '+');
    match ScanDigits(if signed then s[1..] else s)
    case None => None
    case Some(value) =>
      var number: int := value;
      Some(if signed && s[0] == '-' then -number else number)
  }

  /** White space in Go's scanner. */
  predicate GoSpace(c: char) {
    || '\t' <= c <= '\r' || c == ' ' || c == '\U{85}' || c == '\U{A0}' || c == '\U{1680}'
    || '\U{2000}' <= c <= '\U{200A}' || c == '\U{2028}' || c == '\U{2029}'
    || c == '\U{202F}' || c == '\U{205F}' || c == '\U{3000}'
  }

  /** The services agree on what is white space but for two characters, one on either side. */
  lemma SpacesDiffer(c: char)
    ensures GoSpace(c) && !IsSpace(c) <==> c == '\U{85}'
    ensures IsSpace(c) && !GoSpace(c) <==> c == '\U{FEFF}'
  {
  }

  /** `Sscanf` skips white space, but a newline there is an error. */
  function GoSkip(s: string): Option<string> {
    if s == "" || !GoSpace(s[0]) then Some(s)
    else if s[0] == '\n' then None
    else GoSkip(s[1..])
  }

  predicate Int64(n: int) {
    -0x8000_0000_0000_0000 <= n < 0x8000_0000_0000_0000
  }

  function GoScan(s: string): Option<int> {
    match GoSkip(s)
    case None => None
    case Some(rest) =>
      match ScanInt(rest)
      case None => None
      case Some(n) => if Int64(n) then Some(n) else None
  }

  /** `parseLimit`: 50 if the parameter is missing, empty, or cannot be scanned. */
  method GoLimit(raw: Option<string>) returns (limit: int)
    ensures limit == GoLimitOf(raw) && 1 <= limit <= 10_000
  {
    if raw.None? || raw.value == "" {
      return 50;
    }
    var scanned := GoScan(raw.value);
    if scanned.None? {
      return 50;
    }
    if scanned.value < 1 {
      return 1;
    }
    if scanned.value > 10_000 {
      return 10_000;
    }
    return scanned.value;
  }

  function GoLimitOf(raw: Option<string>): int {
    if raw.None? || GoScan(raw.value).None? then 50 else Clamp(GoScan(raw.value).value)
  }

  /** `parseInt`, which skips white space and reads as far as it can. */
  function NodeScan(s: string): Option<int> {
    ScanInt(TrimStart(s))
  }

  /** `_parseLimit`: 50 only if the parameter is missing; 1 if there is no number in it. */
  function NodeLimitOf(raw: Option<string>): int {
    if raw.None? then 50
    else
      match NodeScan(raw.value)
      case None => 1
      case Some(n) => if n < 1 then 1 else if n < 10_000 then n else 10_000
  }

  /** Texts that both parsers can read they read alike. */
  lemma {:induction false} SameNumber(s: string)
    requires GoScan(s).Some? && NodeScan(s).Some?
    ensures GoScan(s) == NodeScan(s)
  {
    if s == "" || !GoSpace(s[0]) {
      assert !IsSpace(s[0]);
    } else {
      assert IsSpace(s[0]);
      SameNumber(s[1..]);
    }
  }

  /**
   Given any parameter, the services use the same limit exactly if both can
   read it, or only Go can and reads at most 1, or only Node can and reads 50.
   */
  lemma LimitsAgree(raw: string)
    ensures GoLimitOf(Some(raw)) == NodeLimitOf(Some(raw)) <==>
              match (GoScan(raw), NodeScan(raw))
              case (Some(_), Some(_)) => true
              case (Some(n), None) => n <= 1
              case (None, Some(n)) => n == 50
              case (None, None) => false
    ensures GoLimitOf(None) == NodeLimitOf(None)
  {
    if GoScan(raw).Some? && NodeScan(raw).Some? {
      SameNumber(raw);
    }
  }

  /** White space at the front that both parsers skip. */
  predicate PlainFront(s: string) {
    if s != "" && (GoSpace(s[0]) || IsSpace(s[0])) then GoSpace(s[0]) && IsSpace(s[0]) && s[0] != '\n' && PlainFront(s[1..])
    else true
  }

  lemma {:induction false} SkipsAgree(s: string)
    requires PlainFront(s)
    ensures GoSkip(s) == Some(TrimStart(s))
  {
    if s == "" || !GoSpace(s[0]) {
    } else {
      SkipsAgree(s[1..]);
    }
  }

  /**
   Unless the parameter begins with white space that only one of them skips,
   the services use the same limit exactly if Go can read it.
   */
  lemma PlainLimitsAgree(raw: string)
    requires PlainFront(raw)
    ensures GoLimitOf(Some(raw)) == NodeLimitOf(Some(raw)) <==> GoScan(raw).Some?
  {
    SkipsAgree(raw);
  }

  /** After a newline only Node reads on, after U+0085 only Go. */
  lemma OneSidedSpace()
    ensures GoScan("\n50") == None && NodeScan("\n50") == Some(50)
    ensures GoLimitOf(Some("\n50")) == NodeLimitOf(Some("\n50")) == 50
    ensures GoScan("\U{85}5") == Some(5) && NodeScan("\U{85}5") == None
    ensures GoLimitOf(Some("\U{85}5")) == 5 && NodeLimitOf(Some("\U{85}5")) == 1
  {
    var fifty, five := "50", "5";
    DigitsThenRest(fifty, "");
    DigitsThenRest(five, "");
    assert fifty + "" == fifty && five + "" == five;
    assert "\n50"[1..] == fifty && "\U{85}5"[1..] == five && fifty[..2] == fifty && five[..1] == five;
    assert fifty[..1] == five;
    assert NatValue(five) == 5 by { assert five[..0] == ""; }
    assert NatValue(fifty) == 50;
  }

  /** Without the parameter both answer 50; with an empty one Go does, and Node answers 1. */
  lemma NoParameter()
    ensures GoLimitOf(None) == NodeLimitOf(None) == 50
    ensures GoLimitOf(Some("")) == 50 && NodeLimitOf(Some("")) == 1
  {
  }

  // ---------- Decimal texts ----------

  function DecimalNat(n: nat): (s: string)
    ensures s != "" && forall i :: 0 <= i < |s| ==> IsDigit(s[i])
    ensures NatValue(s) == n
  {
    var last := [('0' + (n % 10) as char)];
    if n < 10 then last
    else
      var s := DecimalNat(n / 10) + last;
      assert s[..|s| - 1] == DecimalNat(n / 10);
      s
  }

  /** The decimal text of an integer. */
  function Decimal(n: int): string {
    if n < 0 then "-" + DecimalNat(-n) else DecimalNat(n)
  }

  lemma {:induction false} DigitsThenRest(digits: string, rest: string)
    requires forall i :: 0 <= i < |digits| ==> IsDigit(digits[i])
    requires rest == "" || !IsDigit(rest[0])
    ensures LeadingDigits(digits + rest) == |digits|
  {
    if digits == "" {
      assert digits + rest == rest;
    } else {
      assert (digits + rest)[1..] == digits[1..] + rest;
      DigitsThenRest(digits[1..], rest);
    }
  }

  lemma ScanFront(body: string, rest: string)
    requires body != "" && (forall i :: 0 <= i < |body| ==> IsDigit(body[i])) && (rest == "" || !IsDigit(rest[0]))
    ensures ScanDigits(body + rest) == Some(NatValue(body))
    ensures (body + rest)[0] != '-' && (body + rest)[0] != '+'
  {
    DigitsThenRest(body, rest);
    hide LeadingDigits, NatValue;
    assert (body + rest)[..|body|] == body;
    assert IsDigit(body[0]) && (body + rest)[0] == body[0];
  }

  lemma ScanSigned(sign: char, tail: string)
    requires (sign == '-' || sign == '+') && ScanDigits(tail).Some?
    ensures var number: int := ScanDigits(tail).value;
            ScanInt([sign] + tail) == Some(if sign == '-' then -number else number)
  {
    hide ScanDigits;
    assert ([sign] + tail)[1..] == tail;
  }

  lemma ScanPlain(s: string)
    requires s != "" && s[0] != '-' && s[0] != '+' && ScanDigits(s).Some?
    ensures ScanInt(s) == Some(ScanDigits(s).value)
  {
    hide ScanDigits;
  }

  lemma NegativeThenText(n: int, rest: string)
    requires n < 0 && (rest == "" || !IsDigit(rest[0]))
    ensures ScanInt(Decimal(n) + rest) == Some(n)
  {
    var body := DecimalNat(-n);
    ScanFront(body, rest);
    hide ScanDigits, ScanInt, NatValue, IsDigit, DecimalNat;
    ScanSigned('-', body + rest);
    assert Decimal(n) + rest == ['-'] + (body + rest);
  }

  lemma NaturalThenText(n: nat, rest: string)
    requires rest == "" || !IsDigit(rest[0])
    ensures ScanInt(Decimal(n) + rest) == ScanInt("+" + Decimal(n) + rest) == Some(n)
  {
    var body := DecimalNat(n);
    ScanFront(body, rest);
    hide ScanDigits, ScanInt, NatValue, IsDigit, DecimalNat;
    ScanPlain(body + rest);
    ScanSigned('+', body + rest);
    assert "+" + Decimal(n) + rest == ['+'] + (body + rest);
  }

  /** Both read as far as the number goes: a plus sign before it and any text after it change nothing. */
  lemma NumberThenText(n: int, rest: string)
    requires rest == "" || !IsDigit(rest[0])
    ensures ScanInt(Decimal(n) + rest) == Some(n)
    ensures n >= 0 ==> ScanInt("+" + Decimal(n) + rest) == Some(n)
  {
    if n < 0 {
      NegativeThenText(n, rest);
    } else {
      NaturalThenText(n, rest);
    }
  }

  lemma ScanDecimal(n: int)
    ensures ScanInt(Decimal(n)) == Some(n)
  {
    NumberThenText(n, "");
    assert Decimal(n) + "" == Decimal(n);
  }

  /** On every decimal text of a 64-bit integer both services clamp the number to 1..10000. */
  lemma DecimalLimits(n: int)
    requires Int64(n)
    ensures GoLimitOf(Some(Decimal(n))) == NodeLimitOf(Some(Decimal(n)))
         == if n <= 1 then 1 else if n >= 10_000 then 10_000 else n
  {
    ScanDecimal(n);
    var s := Decimal(n);
    assert !GoSpace(s[0]) && !IsSpace(s[0]);
  }

  /** Past that range they part: Go answers with 50 traces, Node with 10000 or with 1. */
  lemma HugeLimits(n: int)
    requires !Int64(n)
    ensures GoLimitOf(Some(Decimal(n))) == 50
    ensures NodeLimitOf(Some(Decimal(n))) == if n < 0 then 1 else 10_000
  {
    ScanDecimal(n);
    var s := Decimal(n);
    assert !GoSpace(s[0]) && !IsSpace(s[0]);
  }
}
