/**
 Device identifiers in their three roles: the version-4 UUIDs the Go service
 generates, the texts Postgres accepts for its `uuid` column, and the texts
 the Node service's pattern accepts.
 */
module Uuids {

  type Nibble = n: nat | n < 16

  type Digits32 = s: seq<Nibble> | |s| == 32 witness seq(32, _ => 0)

  /** 128 bits as 32 hexadecimal digits. */
  datatype Uuid = Uuid(digits: Digits32)

  datatype Option<+T> = None | Some(value: T)

  /** Version 4, variant 10 (section 5.4 of RFC 9562). */
  predicate IsV4(u: Uuid) {
    u.digits[12] == 4 && 8 <= u.digits[16] < 12
  }

  /** `uuid.New`: random digits with the version and variant bits overwritten. */
  function NewV4(random: Uuid): (u: Uuid)
    ensures IsV4(u)
    ensures forall i :: 0 <= i < 32 && i != 12 && i != 16 ==> u.digits[i] == random.digits[i]
    ensures u.digits[16] % 4 == random.digits[16] % 4
  {
    Uuid(random.digits[12 := 4][16 := 8 + random.digits[16] % 4])
  }

  // ---------- Text form ----------

  function HexChar(n: Nibble): char {
    if n < 10 then '0' + n as char else 'a' + (n - 10) as char
  }

  predicate IsHex(c: char) {
    '0' <= c <= '9' || 'a' <= c <= 'f' || 'A' <= c <= 'F'
  }

  function HexValue(c: char): Nibble
    requires IsHex(c)
  {
    if c <= '9' then (c - '0') as nat
    else if c <= 'F' then (c - 'A') as nat + 10
    else (c - 'a') as nat + 10
  }

  function LowerHex(c: char): char {
    if 'A' <= c <= 'Z' then c - 'A' + 'a' else c
  }

  /** ASCII lower case. */
  function Lower(s: string): string {
    seq(|s|, i requires 0 <= i < |s| => LowerHex(s[i]))
  }

  predicate IsDash(i: nat) {
    i == 8 || i == 13 || i == 18 || i == 23
  }

  /** Where digit `k` stands in the 8-4-4-4-12 form. */
  function Column(k: nat): nat {
    k + (if k < 8 then 0 else if k < 12 then 1 else if k < 16 then 2 else if k < 20 then 3 else 4)
  }

  /** Which digit stands at column `i`; dashes share the digit that follows. */
  function DigitAt(i: nat): (k: nat)
    ensures !IsDash(i) ==> Column(k) == i
  {
    i - (if i <= 8 then 0 else if i <= 13 then 1 else if i <= 18 then 2 else if i <= 23 then 3 else 4)
  }

  /** `UUID.String`: lower-case digits in the 8-4-4-4-12 form. */
  function Print(u: Uuid): (s: string)
    ensures |s| == 36
  {
    seq(36, i requires 0 <= i < 36 => if IsDash(i) then '-' else HexChar(u.digits[DigitAt(i)]))
  }

  /** The 8-4-4-4-12 form, digits of either case. */
  predicate Hyphenated(s: string) {
    |s| == 36 && forall i :: 0 <= i < 36 ==> if IsDash(i) then s[i] == '-' else IsHex(s[i])
  }

  function DigitsOf(s: string): Uuid
    requires Hyphenated(s)
  {
    Uuid(seq(32, k requires 0 <= k < 32 => HexValue(s[Column(k)])))
  }

  /** The Node service's version-4 pattern, matched without regard to case. */
  predicate MatchesV4(s: string) {
    && Hyphenated(s)
    && s[14] == '4'
    && s[19] in {'8', '9', 'a', 'b', 'A', 'B'}
  }

  /** Texts in the hyphenated form that spell `u` are those that lower-case to its printed form. */
  lemma HyphenatedSpelling(s: string, u: Uuid)
    ensures Hyphenated(s) && DigitsOf(s) == u <==> Lower(s) == Print(u)
  {
    if Lower(s) == Print(u) {
      assert |s| == |Lower(s)| == 36;
      forall i | 0 <= i < 36
        ensures if IsDash(i) then s[i] == '-' else IsHex(s[i]) && HexValue(s[i]) == u.digits[DigitAt(i)]
      {
        assert Lower(s)[i] == LowerHex(s[i]) == Print(u)[i];
      }
      forall k | 0 <= k < 32 ensures DigitsOf(s).digits[k] == u.digits[k] {
        assert DigitAt(Column(k)) == k && !IsDash(Column(k));
      }
    }
    if Hyphenated(s) && DigitsOf(s) == u {
      forall i | 0 <= i < 36 ensures Lower(s)[i] == Print(u)[i] {
        if !IsDash(i) {
          assert DigitsOf(s).digits[DigitAt(i)] == HexValue(s[Column(DigitAt(i))]);
        }
      }
    }
  }

  /** A spelling of `u` passes the Node pattern exactly when `u` is version 4 and it is hyphenated. */
  lemma PatternAccepts(s: string, u: Uuid)
    requires Hyphenated(s) && DigitsOf(s) == u
    ensures MatchesV4(s) <==> IsV4(u)
  {
    assert u.digits[12] == HexValue(s[14]) && u.digits[16] == HexValue(s[19]);
  }

  /** Every printed version-4 UUID matches the pattern, and no other printed UUID does. */
  lemma PrintedMatchesIffV4(u: Uuid)
    ensures MatchesV4(Print(u)) <==> IsV4(u)
    ensures Hyphenated(Print(u)) && DigitsOf(Print(u)) == u
  {
    assert Lower(Print(u)) == Print(u);
    HyphenatedSpelling(Print(u), u);
    PatternAccepts(Print(u), u);
  }

  /** The printed form, column by column; version and variant show in columns 14 and 19. */
  lemma PrintLayout(u: Uuid, k: nat)
    requires k < 32
    ensures var s := Print(u);
            && s[8] == s[13] == s[18] == s[23] == '-'
            && s[if k < 8 then k else if k < 12 then k + 1 else if k < 16 then k + 2 else if k < 20 then k + 3 else k + 4]
               == "0123456789abcdef"[u.digits[k]]
            && (IsV4(u) <==> s[14] == '4' && s[19] in {'8', '9', 'a', 'b'})
  {
    assert DigitAt(Column(k)) == k && DigitAt(14) == 12 && DigitAt(19) == 16;
    assert Print(u)[14] == HexChar(u.digits[12]) && Print(u)[19] == HexChar(u.digits[16]);
  }

  // ---------- Postgres input syntax ----------

  /**
   Where byte `i` stands when byte 0 stands at `start`: every byte takes two
   characters, and a hyphen may follow every second byte but the last.
   */
  function ByteAt(s: string, start: nat, i: nat): nat {
    if i == 0 then start
    else
      var p := ByteAt(s, start, i - 1) + 2;
      if i % 2 == 0 && i < 16 && p < |s| && s[p] == '-' then p + 1 else p
  }

  predicate IsByte(s: string, p: nat) {
    p + 2 <= |s| && IsHex(s[p]) && IsHex(s[p + 1])
  }

  /** Sixteen bytes from `start` on, up to `end`. */
  predicate SixteenBytes(s: string, start: nat, end: nat) {
    (forall i :: 0 <= i < 16 ==> IsByte(s, ByteAt(s, start, i))) && ByteAt(s, start, 16) == end
  }

  function BytesFrom(s: string, start: nat): Uuid
    requires forall i :: 0 <= i < 16 ==> IsByte(s, ByteAt(s, start, i))
  {
    Uuid(seq(32, k requires 0 <= k < 32 =>
      assert IsByte(s, ByteAt(s, start, k / 2)); HexValue(s[ByteAt(s, start, k / 2) + k % 2])))
  }

  /** What Postgres makes of a text compared with a `uuid` column: a value, or a syntax error. */
  function Resolve(s: string): Option<Uuid> {
    if s != "" && s[0] == '{' then
      if SixteenBytes(s, 1, |s| - 1) && s[|s| - 1] == '}' then Some(BytesFrom(s, 1)) else None
    else
      if SixteenBytes(s, 0, |s|) then Some(BytesFrom(s, 0)) else None
  }

  /** `t` shows the hyphenated text `h` at offset `o`. */
  predicate ShowsAt(t: string, o: nat, h: string) {
    Hyphenated(h) && o + 36 <= |t| && forall i :: 0 <= i < 36 ==> t[o + i] == h[i]
  }

  lemma {:induction false} ByteColumn(t: string, o: nat, h: string, i: nat)
    requires ShowsAt(t, o, h) && i <= 16
    ensures ByteAt(t, o, i) == o + Column(2 * i)
  {
    if i == 0 {
    } else {
      ByteColumn(t, o, h, i - 1);
      var c := Column(2 * i - 2) + 2;
      if i < 16 {
        assert t[o + c] == h[c];
        assert h[c] == '-' <==> IsDash(c);
      }
    }
  }

  /** A shown hyphenated text is read as sixteen bytes, the digits it shows. */
  lemma ReadsShown(t: string, o: nat, h: string)
    requires ShowsAt(t, o, h)
    ensures SixteenBytes(t, o, o + 36) && BytesFrom(t, o) == DigitsOf(h)
  {
    ByteColumn(t, o, h, 16);
    forall k | 0 <= k < 32
      ensures var p := ByteAt(t, o, k / 2) + k % 2;
              p < |t| && t[p] == h[Column(k)] && IsHex(t[p])
    {
      ByteColumn(t, o, h, k / 2);
      assert Column(k) == Column(2 * (k / 2)) + k % 2 < 36 && !IsDash(Column(k));
      assert t[o + Column(k)] == h[Column(k)];
    }
    forall i | 0 <= i < 16 ensures IsByte(t, ByteAt(t, o, i)) {
      assert (2 * i) / 2 == i && (2 * i + 1) / 2 == i;
      ByteColumn(t, o, h, i);
    }
    assert BytesFrom(t, o).digits == DigitsOf(h).digits;
  }

  /** Postgres reads every hyphenated text, and reads the digits it shows. */
  lemma ResolveHyphenated(s: string)
    requires Hyphenated(s)
    ensures Resolve(s) == Some(DigitsOf(s))
  {
    ReadsShown(s, 0, s);
    assert !IsDash(0) && IsHex(s[0]);
  }

  lemma {:induction false} CompactBytes(s: string, i: nat)
    requires |s| == 32 && (forall k :: 0 <= k < 32 ==> IsHex(s[k])) && i <= 16
    ensures ByteAt(s, 0, i) == 2 * i
  {
    if i == 0 {
    } else {
      CompactBytes(s, i - 1);
      assert i < 16 ==> IsHex(s[2 * i]);
    }
  }

  /** The digits alone are read too, but a hyphen after the second one is not. */
  lemma ResolveCompact(s: string)
    requires |s| == 32 && forall k :: 0 <= k < 32 ==> IsHex(s[k])
    ensures Resolve(s).Some? && forall k :: 0 <= k < 32 ==> Resolve(s).value.digits[k] == HexValue(s[k])
    ensures Resolve(s[..2] + "-" + s[2..]) == None && !MatchesV4(s)
  {
    forall i | 0 <= i <= 16 ensures ByteAt(s, 0, i) == 2 * i {
      CompactBytes(s, i);
    }
    assert IsHex(s[0]);
    forall k | 0 <= k < 32 ensures ByteAt(s, 0, k / 2) + k % 2 == k {
    }
    var t := s[..2] + "-" + s[2..];
    assert t[0] == s[0] && t[2] == '-' && ByteAt(t, 0, 1) == 2;
    assert !IsByte(t, ByteAt(t, 0, 1));
  }

  /** In braces the same digits are read. */
  lemma ResolveBraced(s: string)
    requires Hyphenated(s)
    ensures Resolve("{" + s + "}") == Some(DigitsOf(s)) && !MatchesV4("{" + s + "}")
  {
    ReadsShown("{" + s + "}", 1, s);
  }

  /** Round trip: the text Go sends back is the row's own identifier. */
  lemma ResolvePrinted(u: Uuid)
    ensures Resolve(Print(u)) == Some(u)
  {
    PrintedMatchesIffV4(u);
    ResolveHyphenated(Print(u));
  }

  /**
   Of all the texts by which a request may address row `u`, the Node pattern
   accepts exactly those that differ from the printed form in letter case only.
   */
  lemma AcceptedSpellings(s: string, u: Uuid)
    requires Resolve(s) == Some(u) && IsV4(u)
    ensures MatchesV4(s) <==> Lower(s) == Print(u)
  {
    HyphenatedSpelling(s, u);
    if Hyphenated(s) {
      ResolveHyphenated(s);
      PatternAccepts(s, u);
    }
  }

  /**
   Every UUID with a letter digit has another spelling, differing in the case
   of that digit, which addresses the same row and passes the Node pattern.
   */
  lemma OtherCaseSpelling(u: Uuid, k: nat)
    requires k < 32 && u.digits[k] >= 10 && IsV4(u)
    ensures var text := Print(u)[Column(k) := 'A' + (u.digits[k] - 10) as char];
            text != Print(u) && Resolve(text) == Some(u) && MatchesV4(text)
  {
    var p := Print(u);
    var text := p[Column(k) := 'A' + (u.digits[k] - 10) as char];
    PrintedMatchesIffV4(u);
    assert DigitAt(Column(k)) == k && !IsDash(Column(k));
    assert p[Column(k)] == HexChar(u.digits[k]) != text[Column(k)];
    assert Lower(text) == p by {
      forall i | 0 <= i < 36 ensures Lower(text)[i] == p[i] {
        assert i != Column(k) ==> text[i] == p[i];
      }
    }
    HyphenatedSpelling(text, u);
    ResolveHyphenated(text);
    PatternAccepts(text, u);
  }
}
