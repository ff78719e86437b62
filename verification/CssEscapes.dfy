/** Hexadecimal escapes of section 4.3.7 of CSS Syntax Level 3, and the UTF-8 bytes they stand for. */
module CssEscapes {
  import opened Ascii
  import opened CssBalance
  import opened CssStrings

  // ---- hexadecimal numbers ------------------------------------------------------------------------

  const DIGITS := "0123456789abcdef"

  /** The number in hexadecimal, without leading zeros. */
  function HexText(n: nat): (s: string)
    ensures s != ""
  {
    if n < 16 then [DIGITS[n]] else HexText(n / 16) + [DIGITS[n % 16]]
  }

  lemma DigitIs(v: nat)
    requires v < 16
    ensures IsHexDigit(DIGITS[v])
    ensures forall s: string :: HexValue(s + [DIGITS[v]]) == 16 * HexValue(s) + v
  {
    forall s: string ensures HexValue(s + [DIGITS[v]]) == 16 * HexValue(s) + v {
      var t := s + [DIGITS[v]];
      assert t[..|t| - 1] == s && t[|t| - 1] == DIGITS[v];
    }
  }

  lemma {:induction false} HexTextReads(n: nat)
    ensures HexValue(HexText(n)) == n && forall k :: 0 <= k < |HexText(n)| ==> IsHexDigit(HexText(n)[k])
    decreases n
  {
    hide HexValue;
    assert HexValue("") == 0 by { NoDigits(); }
    if n < 16 {
      DigitIs(n);
      assert "" + [DIGITS[n]] == [DIGITS[n]];
    } else {
      HexTextReads(n / 16);
      DigitIs(n % 16);
    }
  }

  lemma NoDigits()
    ensures HexValue("") == 0
  {}

  lemma {:induction false} HexTextSize(n: nat, w: nat, bound: nat)
    requires 0 < w && n < bound && bound == Power16(w)
    ensures |HexText(n)| <= w
    decreases w
  {
    if n >= 16 {
      assert Power16(1) == 16 by { assert Power16(0) == 1; }
      HexTextSize(n / 16, w - 1, Power16(w - 1));
    }
  }

  function Power16(w: nat): nat {
    if w == 0 then 1 else 16 * Power16(w - 1)
  }

  lemma SixDigits(cp: nat)
    requires cp < 0x100_0000
    ensures |HexText(cp)| <= 6
  {
    assert Power16(2) == 256 && Power16(4) == 65536 && Power16(6) == 0x100_0000;
    HexTextSize(cp, 6, 0x100_0000);
  }

  // ---- what an escape denotes -----------------------------------------------------------------------

  lemma {:induction false} HexEndIs(t: string, i: nat, left: nat, n: nat)
    requires i <= n <= |t| && n - i <= left && (forall k :: i <= k < n ==> IsHexDigit(t[k]))
    requires n < |t| ==> !IsHexDigit(t[n])
    ensures HexEnd(t, i, left) == n
    decreases left
  {
    if i < n { HexEndIs(t, i + 1, left - 1, n); }
  }

  /** A hexadecimal escape, ended by a space, denotes its code point; the space belongs to it. */
  lemma EscapeDenotes(cp: nat, rest: string)
    requires cp < 0x100_0000
    ensures ConsumeEscape(HexText(cp) + (" " + rest))
            == Read(Utf8(if cp == 0 || 0xD800 <= cp < 0xE000 || cp >= 0x110000 then 0xFFFD else cp), rest)
  {
    hide HexText, HexValue, Utf8;
    var h := HexText(cp);
    var t := h + (" " + rest);
    HexTextReads(cp);
    SixDigits(cp);
    assert forall k :: 0 <= k < |h| ==> t[k] == h[k];
    assert t[|h|] == ' ';
    HexEndIs(t, 0, 6, |h|);
    assert t[..|h|] == h && t[|h| + 1..] == rest;
    assert AfterHex(t, |h|) == |h| + 1;
  }

  // ---- UTF-8 ------------------------------------------------------------------------------------------

  /** The value a byte adds to a code point: its bits without the marker. */
  function Bits(c: char, marker: nat): int {
    c as int - marker
  }

  predicate IsTail(c: char) {
    0x80 <= c as int <= 0xBF
  }

  /** The bytes are the shortest UTF-8 form of the code point, as section 3 of RFC 3629 defines it. */
  lemma Utf8Is(cp: nat)
    requires cp < 0x110000
    ensures var u := Utf8(cp);
            && (cp < 0x80 ==> |u| == 1 && u[0] as int == cp)
            && (0x80 <= cp < 0x800 ==>
                  && |u| == 2 && 0xC2 <= u[0] as int <= 0xDF && IsTail(u[1])
                  && cp == Bits(u[0], 0xC0) * 64 + Bits(u[1], 0x80))
            && (0x800 <= cp < 0x10000 ==>
                  && |u| == 3 && 0xE0 <= u[0] as int <= 0xEF && IsTail(u[1]) && IsTail(u[2])
                  && cp == Bits(u[0], 0xE0) * 4096 + Bits(u[1], 0x80) * 64 + Bits(u[2], 0x80))
            && (0x10000 <= cp ==>
                  && |u| == 4 && 0xF0 <= u[0] as int <= 0xF4 && IsTail(u[1]) && IsTail(u[2]) && IsTail(u[3])
                  && cp == Bits(u[0], 0xF0) * 262144 + Bits(u[1], 0x80) * 4096
                           + Bits(u[2], 0x80) * 64 + Bits(u[3], 0x80))
  {
    assert cp == cp / 64 * 64 + cp % 64;
    assert cp / 64 == cp / 4096 * 64 + cp / 64 % 64;
    assert cp / 4096 == cp / 262144 * 64 + cp / 4096 % 64;
  }

  /** A byte that continues a sequence is one whose two highest bits are 10. */
  lemma ContinuationIs(c: char)
    requires c as int < 256
    ensures IsContinuation(c) <==> c as int / 64 == 2
  {}
}
