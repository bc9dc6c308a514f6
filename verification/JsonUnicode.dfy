/** The escapes of section 7 of RFC 8259 against UTF-16 (RFC 2781) and UTF-8 (RFC 3629). */
module JsonUnicode {
  import opened Basics
  import opened JsonText
  import opened JsonParse

  predicate Scalar(cp: nat) { cp <= 0x10_FFFF && !HighSurrogate(cp) && !LowSurrogate(cp) }

  /** Section 2.1 of RFC 2781: the UTF-16 code units of a code point. */
  function Utf16Units(cp: nat): seq<nat>
    requires Scalar(cp)
  {
    if cp < 0x1_0000 then [cp]
    else
      var u := cp - 0x1_0000;
      [0xD800 + u / 0x400, 0xDC00 + u % 0x400]
  }

  const LOWER_HEX := "0123456789abcdef"
  const UPPER_HEX := "0123456789ABCDEF"

  /** The byte is the hex digit of n, in either case. */
  predicate HexDigitIs(b: byte, n: nat) {
    n < 16 && (b == LOWER_HEX[n] as int || b == UPPER_HEX[n] as int)
  }

  /** The four bytes at i are the hex digits of u. */
  predicate HexAt(c: bytes, i: nat, u: nat) {
    i + 4 <= |c| && HexDigitIs(c[i], u / 4096) && HexDigitIs(c[i + 1], u / 256 % 16)
    && HexDigitIs(c[i + 2], u / 16 % 16) && HexDigitIs(c[i + 3], u % 16)
  }

  /** The six bytes at p escape the code unit u. */
  predicate UnitAt(c: bytes, p: nat, u: nat) {
    p + 6 <= |c| && c[p] == BACKSLASH && c[p + 1] == LOWER_U && HexAt(c, p + 2, u)
  }

  lemma HexExactly(b: byte, n: nat)
    ensures HexValue(b) == Some(n) <==> HexDigitIs(b, n)
  {
    assert forall k :: 0 <= k < 10 ==> LOWER_HEX[k] as int == UPPER_HEX[k] as int == 48 + k;
    assert forall k :: 10 <= k < 16 ==> LOWER_HEX[k] as int == 87 + k && UPPER_HEX[k] as int == 55 + k;
  }

  /** Four hex digits are read as the number they write, and only they are read as anything but 0. */
  lemma Hex4Exactly(c: bytes, i: nat, u: nat)
    requires i + 4 <= |c|
    ensures HexAt(c, i, u) ==> Hex4(c, i) == u
    ensures Hex4(c, i) == u && u != 0 ==> HexAt(c, i, u)
  {
    hide HexValue, HexDigitIs;
    HexExactly(c[i], u / 4096);
    HexExactly(c[i + 1], u / 256 % 16);
    HexExactly(c[i + 2], u / 16 % 16);
    HexExactly(c[i + 3], u % 16);
    HexDigitsOf(u);
    var a, b, d, f := HexValue(c[i]), HexValue(c[i + 1]), HexValue(c[i + 2]), HexValue(c[i + 3]);
    if a.Some? && b.Some? && d.Some? && f.Some? {
      HexQuotients(a.value, b.value, d.value, f.value);
    }
  }

  lemma UnitRead(c: bytes, p: nat, u: nat)
    requires UnitAt(c, p, u)
    ensures p + 6 <= |c| && c[p] == BACKSLASH && c[p + 1] == LOWER_U && Hex4(c, p + 2) == u && u < 0x1_0000
  {
    hide HexAt, Hex4;
    Hex4Exactly(c, p + 2, u);
  }

  lemma HexDigitsOf(u: nat)
    ensures u == u / 4096 * 4096 + u / 256 % 16 * 256 + u / 16 % 16 * 16 + u % 16
  {
    assert u / 256 == u / 16 / 16 && u / 4096 == u / 256 / 16;
  }

  /** The escapes of a code point's UTF-16 code units are read as that code point, in 6 or 12 bytes. */
  lemma EscapesDecode(c: bytes, p: nat, e: nat, cp: nat)
    requires Scalar(cp) && p + 6 * |Utf16Units(cp)| <= e < |c|
    requires forall k :: 0 <= k < |Utf16Units(cp)| ==> UnitAt(c, p + 6 * k, Utf16Units(cp)[k])
    ensures Utf16Escape(c, p, e) == Some(Escaped(cp, 6 * |Utf16Units(cp)|))
  {
    hide UnitAt, Hex4, HexValue;
    var units := Utf16Units(cp);
    assert UnitAt(c, p + 6 * 0, units[0]);
    UnitRead(c, p, units[0]);
    if cp >= 0x1_0000 {
      assert UnitAt(c, p + 6 * 1, units[1]);
      UnitRead(c, p + 6, units[1]);
      SurrogatesCombine(cp - 0x1_0000);
    }
  }

  lemma SurrogatesCombine(u: nat)
    requires u < 0x10_0000
    ensures (0xD800 + u / 0x400) % 0x400 == u / 0x400 && (0xDC00 + u % 0x400) % 0x400 == u % 0x400
    ensures u / 0x400 * 0x400 + u % 0x400 == u
  {
  }

  /** Among well-formed code unit escapes, exactly those that open no valid pair are refused. */
  lemma LoneSurrogatesRefused(c: bytes, p: nat, e: nat, first: nat)
    requires p + 6 <= e < |c| && first < 0x1_0000 && UnitAt(c, p, first)
    ensures Utf16Escape(c, p, e).None? <==>
      LowSurrogate(first)
      || (HighSurrogate(first)
          && !(p + 12 <= e && exists second {:trigger UnitAt(c, p + 6, second)} ::
                LowSurrogate(second) && UnitAt(c, p + 6, second)))
  {
    UnitRead(c, p, first);
    if p + 12 <= e && c[p + 6] == BACKSLASH && c[p + 7] == LOWER_U {
      var second := Hex4(c, p + 8);
      if LowSurrogate(second) {
        NonzeroHex(c, p + 6);
        assert UnitAt(c, p + 6, second);
      }
    }
    forall second | p + 12 <= e && LowSurrogate(second) && UnitAt(c, p + 6, second)
      ensures Hex4(c, p + 8) == second
    {
      UnitRead(c, p + 6, second);
    }
  }

  lemma NonzeroHex(c: bytes, p: nat)
    requires p + 6 <= |c| && c[p] == BACKSLASH && c[p + 1] == LOWER_U && Hex4(c, p + 2) != 0
    ensures UnitAt(c, p, Hex4(c, p + 2))
  {
    hide HexAt, Hex4;
    Hex4Exactly(c, p + 2, Hex4(c, p + 2));
  }

  lemma HexQuotients(a: nat, b: nat, d: nat, f: nat)
    requires a < 16 && b < 16 && d < 16 && f < 16
    ensures var u := a * 4096 + b * 256 + d * 16 + f;
            u / 4096 == a && u / 256 % 16 == b && u / 16 % 16 == d && u % 16 == f
  {
    var u := a * 4096 + b * 256 + d * 16 + f;
    LastDigit(a * 256 + b * 16 + d, f);
    LastDigit(a * 16 + b, d);
    LastDigit(a, b);
    assert u / 256 == u / 16 / 16 && u / 4096 == u / 256 / 16;
  }

  lemma LastDigit(x: nat, f: nat)
    requires f < 16
    ensures (x * 16 + f) / 16 == x && (x * 16 + f) % 16 == f
  {
  }

  /** A byte of the form 10xxxxxx. */
  predicate Tail(b: byte) { 0x80 <= b <= 0xBF }

  /**
   * Section 4 of RFC 3629: the code point at the start of a UTF-8 string and the bytes it takes, for
   * the well-formed sequences of the UTF8-2, UTF8-3 and UTF8-4 productions only.
   */
  function Utf8Decode(s: bytes): Option<Escaped> {
    if |s| >= 1 && s[0] <= 0x7F then Some(Escaped(s[0], 1))
    else if |s| >= 2 && 0xC2 <= s[0] <= 0xDF && Tail(s[1]) then
      Some(Escaped((s[0] as int - 0xC0) * 64 + (s[1] as int - 0x80), 2))
    else if |s| >= 3 && Tail(s[1]) && Tail(s[2])
            && ((s[0] == 0xE0 && s[1] >= 0xA0) || 0xE1 <= s[0] <= 0xEC
                || (s[0] == 0xED && s[1] <= 0x9F) || 0xEE <= s[0] <= 0xEF) then
      Some(Escaped((s[0] as int - 0xE0) * 4096 + (s[1] as int - 0x80) * 64 + (s[2] as int - 0x80), 3))
    else if |s| >= 4 && Tail(s[1]) && Tail(s[2]) && Tail(s[3])
            && ((s[0] == 0xF0 && s[1] >= 0x90) || 0xF1 <= s[0] <= 0xF3
                || (s[0] == 0xF4 && s[1] <= 0x8F)) then
      Some(Escaped((s[0] as int - 0xF0) * 262144 + (s[1] as int - 0x80) * 4096 + (s[2] as int - 0x80) * 64
                   + (s[3] as int - 0x80), 4))
    else None
  }

  lemma ThreeDigits(cp: nat)
    ensures cp == cp / 4096 * 4096 + cp / 64 % 64 * 64 + cp % 64
  {
    var a := cp / 64;
    assert cp == a * 64 + cp % 64 && a == a / 64 * 64 + a % 64 && a / 64 == cp / 4096;
  }

  lemma ThreeBytes(cp: nat, s: bytes)
    requires Scalar(cp) && 0x800 <= cp < 0x1_0000 && |s| >= 3
    requires s[0] == 0xE0 + cp / 4096 && s[1] == 0x80 + cp / 64 % 64 && s[2] == 0x80 + cp % 64
    ensures Utf8Decode(s) == Some(Escaped(cp, 3))
  {
    ThreeDigits(cp);
  }

  /** The digits of cp in base 64. */
  lemma FourDigits(cp: nat)
    ensures cp == cp / 262144 * 262144 + cp / 4096 % 64 * 4096 + cp / 64 % 64 * 64 + cp % 64
  {
    var a := cp / 64;
    var b := a / 64;
    assert b == cp / 4096 && b / 64 == cp / 262144;
    assert cp == a * 64 + cp % 64 && a == b * 64 + a % 64 && b == b / 64 * 64 + b % 64;
  }

  /** The first two bytes of a four-byte sequence are in their ranges. */
  lemma FourRanges(cp: nat)
    requires 0x1_0000 <= cp <= 0x10_FFFF
    ensures cp / 262144 <= 4
    ensures cp / 262144 == 0 ==> cp / 4096 % 64 >= 0x10
    ensures cp / 262144 == 4 ==> cp / 4096 % 64 <= 0x0F
  {
    assert cp / 262144 == cp / 4096 / 64;
  }

  lemma FourBytes(cp: nat, s: bytes)
    requires Scalar(cp) && cp >= 0x1_0000 && |s| >= 4
    requires s[0] == 0xF0 + cp / 262144 && s[1] == 0x80 + cp / 4096 % 64
    requires s[2] == 0x80 + cp / 64 % 64 && s[3] == 0x80 + cp % 64
    ensures Utf8Decode(s) == Some(Escaped(cp, 4))
  {
    FourDigits(cp);
    FourRanges(cp);
  }

  /** What is written for a code point is well-formed UTF-8 and decodes to exactly that code point. */
  lemma Utf8Correct(cp: nat, rest: bytes)
    requires Scalar(cp)
    ensures Utf8Decode(Utf8(cp) + rest) == Some(Escaped(cp, |Utf8(cp)|))
  {
    var u := Utf8(cp);
    var s := u + rest;
    assert |s| >= |u| && s[0] == u[0];
    if cp >= 0x80 {
      assert s[1] == u[1];
    }
    if 0x800 <= cp < 0x1_0000 {
      assert s[2] == u[2];
      ThreeBytes(cp, s);
    } else if cp >= 0x1_0000 {
      assert s[2] == u[2] && s[3] == u[3];
      FourBytes(cp, s);
    }
  }
}
