/** What a delta-seconds value reads as: any number of digits, with or without quotes, cut at 32 bits. */
module DeltaSeconds {
  import opened Ascii
  import opened HttpText
  import opened CacheControl

  predicate AllDigits(d: string) {
    forall k :: 0 <= k < |d| ==> IsDigit(d[k])
  }

  function DigitValue(d: string): nat
    requires AllDigits(d)
  {
    if d == "" then 0
    else
      assert IsDigit(d[|d| - 1]);
      10 * DigitValue(d[..|d| - 1]) + (d[|d| - 1] - '0') as nat
  }

  function Min(a: nat, b: nat): nat { if a < b then a else b }

  /** More digits never make a number smaller. */
  lemma {:induction false} ValueGrows(d: string, k: nat)
    requires AllDigits(d) && k <= |d|
    ensures DigitValue(d[..k]) <= DigitValue(d)
    decreases |d|
  {
    if k == |d| {
      assert d[..k] == d;
    } else {
      ValueGrows(d[..|d| - 1], k);
      assert d[..|d| - 1][..k] == d[..k];
    }
  }

  lemma {:induction false} SaturatingFrom(d: string, i: nat)
    requires AllDigits(d) && i <= |d| && DigitValue(d[..i]) <= 4294967295
    ensures Saturating(d, i, DigitValue(d[..i])) == Min(DigitValue(d), 4294967295)
    decreases |d| - i
  {
    if i == |d| {
      assert d[..i] == d;
    } else {
      assert d[..i + 1][..i] == d[..i];
      if DigitValue(d[..i + 1]) <= 4294967295 {
        SaturatingFrom(d, i + 1);
      } else {
        ValueGrows(d, i + 1);
      }
    }
  }

  lemma SecondsOf(d: string)
    requires AllDigits(d) && d != ""
    ensures Saturating(d, 0, 0) == Min(DigitValue(d), 4294967295)
  {
    assert d[..0] == "";
    SaturatingFrom(d, 0);
  }

  lemma DigitsAreSolid(d: string)
    requires AllDigits(d) && d != ""
    ensures Solid(d) && d[0] != '"' && d[|d| - 1] != '"'
  {}

  /** A number reads as itself, whatever blanks stand around it, and no larger than 32 bits hold. */
  lemma NumberIsRead(a: string, d: string, b: string)
    requires Blank(a) && Blank(b) && AllDigits(d) && d != ""
    ensures Seconds(a + d + b) == Min(DigitValue(d), 4294967295)
  {
    hide Trim, Saturating;
    DigitsAreSolid(d);
    TrimPadded(a, d, b);
    TrimPadded("", d, "");
    assert "" + d + "" == d;
    SecondsOf(d);
  }

  /** So does a number in quotes. */
  lemma QuotedNumberIsRead(a: string, x: string, d: string, y: string, b: string)
    requires Blank(a) && Blank(x) && Blank(y) && Blank(b) && AllDigits(d) && d != ""
    ensures Seconds(a + ("\"" + (x + d + y) + "\"") + b) == Min(DigitValue(d), 4294967295)
  {
    hide Trim, Saturating;
    var inner := x + d + y;
    var q := "\"" + inner + "\"";
    assert Solid(q);
    TrimPadded(a, q, b);
    assert q[1..] == inner + "\"" && (inner + "\"")[..|inner|] == inner;
    assert Unquoted(q) == inner;
    DigitsAreSolid(d);
    TrimPadded(x, d, y);
    SecondsOf(d);
  }

  lemma {:induction false} StopsAtOther(v: string, i: nat, k: nat)
    requires i <= k < |v| && AllDigits(v[..k]) && !IsDigit(v[k]) && DigitValue(v[..k]) <= 4294967295
    ensures AllDigits(v[..i]) && DigitValue(v[..i]) <= 4294967295 && Saturating(v, i, DigitValue(v[..i])) == 0
    decreases k - i
  {
    assert v[..k][..i] == v[..i];
    ValueGrows(v[..k], i);
    if i < k {
      assert v[..i + 1][..i] == v[..i] && v[..k][i] == v[i];
      StopsAtOther(v, i + 1, k);
    }
  }

  /** Anything else reads as 0: nothing at all, or a character that is no digit after a number that fits. */
  lemma OtherIsZero(v: string, k: nat)
    requires Solid(v) && v[0] != '"' && v[|v| - 1] != '"'
    requires k < |v| && AllDigits(v[..k]) && !IsDigit(v[k]) && DigitValue(v[..k]) <= 4294967295
    ensures Seconds(v) == 0 && Seconds("") == 0
  {
    hide Trim, Saturating;
    TrimPadded("", v, "");
    assert "" + v + "" == v && v[..0] == "";
    StopsAtOther(v, 0, k);
    assert Trim("") == "" by { NothingTrimmed(); }
  }

  lemma NothingTrimmed()
    ensures Trim("") == ""
  {}
}
