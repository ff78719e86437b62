/** Text helpers shared by the header parsers: optional whitespace, digits, case. */
module HttpText {
  import opened Options
  import opened Ascii

  predicate IsOws(c: char) {
    c == ' ' || c == '\t'
  }

  ghost predicate Blank(s: string) {
    forall c | c in s :: IsOws(c)
  }

  function TrimStart(s: string): (r: string)
    ensures |r| <= |s|
  {
    if s != "" && IsOws(s[0]) then TrimStart(s[1..]) else s
  }

  function TrimEnd(s: string): (r: string)
    ensures |r| <= |s|
  {
    if s != "" && IsOws(s[|s| - 1]) then TrimEnd(s[..|s| - 1]) else s
  }

  /** A field value without the optional whitespace around it. */
  function Trim(s: string): (r: string)
    ensures |r| <= |s|
  {
    TrimEnd(TrimStart(s))
  }

  method TrimOws(s: string) returns (r: string)
    ensures r == Trim(s)
  {
    r := s;
    while r != "" && IsOws(r[0])
      invariant TrimStart(r) == TrimStart(s)
      decreases |r|
    {
      r := r[1..];
    }
    while r != "" && IsOws(r[|r| - 1])
      invariant TrimEnd(r) == Trim(s)
      decreases |r|
    {
      r := r[..|r| - 1];
    }
  }

  /** A text that starts and ends with something else. */
  predicate Solid(s: string) {
    s != "" && !IsOws(s[0]) && !IsOws(s[|s| - 1])
  }

  lemma {:induction false} TrimStartPadded(before: string, s: string)
    requires Blank(before) && (s == "" || !IsOws(s[0]))
    ensures TrimStart(before + s) == s
  {
    if before == "" {
      assert before + s == s;
    } else {
      assert before[0] in before;
      assert (before + s)[1..] == before[1..] + s;
      TrimStartPadded(before[1..], s);
    }
  }

  lemma {:induction false} TrimEndPadded(s: string, after: string)
    requires Blank(after) && (s == "" || !IsOws(s[|s| - 1]))
    ensures TrimEnd(s + after) == s
    decreases |after|
  {
    if after == "" {
      assert s + after == s;
    } else {
      var shorter := after[..|after| - 1];
      assert after[|after| - 1] in after;
      assert (s + after)[..|s + after| - 1] == s + shorter;
      TrimEndPadded(s, shorter);
    }
  }

  lemma TrimPadded(before: string, s: string, after: string)
    requires Blank(before) && Blank(after) && Solid(s)
    ensures Trim(before + s + after) == s
  {
    assert before + s + after == before + (s + after);
    TrimStartPadded(before, s + after);
    TrimEndPadded(s, after);
  }

  lemma {:induction false} TrimStartBlank(a: string, x: string)
    requires Blank(a)
    ensures TrimStart(a + x) == TrimStart(x)
  {
    if a == "" {
      assert a + x == x;
    } else {
      assert a[0] in a;
      assert (a + x)[1..] == a[1..] + x;
      TrimStartBlank(a[1..], x);
    }
  }

  lemma {:induction false} TrimEndBlank(x: string, b: string)
    requires Blank(b)
    ensures TrimEnd(x + b) == TrimEnd(x)
    decreases |b|
  {
    if b == "" {
      assert x + b == x;
    } else {
      assert b[|b| - 1] in b;
      assert (x + b)[..|x + b| - 1] == x + b[..|b| - 1];
      TrimEndBlank(x, b[..|b| - 1]);
    }
  }

  /** What is trimmed away at the start. */
  lemma {:induction false} TrimStartSplit(s: string) returns (a: string)
    ensures s == a + TrimStart(s) && Blank(a) && (TrimStart(s) == "" || !IsOws(TrimStart(s)[0]))
  {
    if s != "" && IsOws(s[0]) {
      a := TrimStartSplit(s[1..]);
      a := [s[0]] + a;
    } else {
      a := "";
    }
  }

  lemma {:induction false} TrimEndSplit(s: string) returns (b: string)
    ensures s == TrimEnd(s) + b && Blank(b) && (TrimEnd(s) == "" || !IsOws(TrimEnd(s)[|TrimEnd(s)| - 1]))
    decreases |s|
  {
    if s != "" && IsOws(s[|s| - 1]) {
      b := TrimEndSplit(s[..|s| - 1]);
      b := b + [s[|s| - 1]];
      assert s == s[..|s| - 1] + [s[|s| - 1]];
    } else {
      b := "";
    }
  }

  /** A text is its trimmed core between blanks. */
  lemma TrimSplit(s: string) returns (a: string, b: string)
    ensures s == a + Trim(s) + b && Blank(a) && Blank(b) && (Trim(s) == "" || Solid(Trim(s)))
  {
    a := TrimStartSplit(s);
    b := TrimEndSplit(TrimStart(s));
    assert a + (Trim(s) + b) == a + Trim(s) + b;
    if Trim(s) != "" { assert TrimStart(s)[0] == Trim(s)[0]; }
  }

  lemma TrimAround(a: string, x: string, b: string)
    requires Blank(a) && Blank(b)
    ensures Trim(a + x) == Trim(x) && Trim(x + b) == Trim(x)
  {
    TrimStartBlank(a, x);
    var p := TrimStartSplit(x);
    var y := TrimStart(x);
    assert x + b == p + (y + b);
    TrimStartBlank(p, y + b);
    if y == "" {
      assert y + b == b + "";
      TrimStartBlank(b, "");
    } else {
      assert TrimStart(y + b) == y + b;
      TrimEndBlank(y, b);
    }
  }

  // ---- case ----------------------------------------------------------------------------------

  function Lower(s: string): (r: string)
    ensures |r| == |s| && forall i | 0 <= i < |s| :: r[i] == LowerChar(s[i])
  {
    if s == "" then "" else [LowerChar(s[0])] + Lower(s[1..])
  }

  lemma LowerAlready(s: string)
    requires forall k | 0 <= k < |s| :: !('A' <= s[k] <= 'Z')
    ensures Lower(s) == s
  {
    hide Lower;
  }

  // ---- searching -------------------------------------------------------------------------

  /** Position of the first `c` at or after `i`, or the length. */
  function Find(s: string, c: char, i: nat): (k: nat)
    requires i <= |s|
    ensures i <= k <= |s| && (k < |s| ==> s[k] == c) && forall j | i <= j < k :: s[j] != c
    decreases |s| - i
  {
    if i == |s| || s[i] == c then i else Find(s, c, i + 1)
  }

  lemma {:induction false} FindIn(s: string, c: char, k: nat, i: nat)
    requires i <= k <= |s| && (k < |s| ==> s[k] == c) && forall j | i <= j < k :: s[j] != c
    ensures Find(s, c, i) == k
    decreases k - i
  {}

  // ---- digits -------------------------------------------------------------------------

  function Digit(n: nat): char
    requires n < 10
  {
    '0' + n as char
  }

  /** The number a text of digits writes; none when another character stands in it. */
  function ParseDigits(s: string): Option<nat> {
    if s == "" then Some(0)
    else
      var front := ParseDigits(s[..|s| - 1]);
      if front.None? || !IsDigit(s[|s| - 1]) then None else Some(10 * front.value + (s[|s| - 1] - '0') as nat)
  }

  function Two(n: nat): (s: string)
    requires n < 100
    ensures |s| == 2
  {
    [Digit(n / 10), Digit(n % 10)]
  }

  function Four(n: nat): (s: string)
    requires n < 10000
    ensures |s| == 4
  {
    Two(n / 100) + Two(n % 100)
  }

  lemma {:induction false} ParseSnoc(s: string, c: char)
    ensures ParseDigits(s + [c])
         == if ParseDigits(s).None? || !IsDigit(c) then None else Some(10 * ParseDigits(s).value + (c - '0') as nat)
  {
    assert (s + [c])[..|s + [c]| - 1] == s;
  }

  lemma ParseOne(n: nat)
    requires n < 10
    ensures ParseDigits([Digit(n)]) == Some(n)
  {
    ParseSnoc("", Digit(n));
    assert "" + [Digit(n)] == [Digit(n)];
  }

  lemma ParseTwo(n: nat)
    requires n < 100
    ensures ParseDigits(Two(n)) == Some(n)
  {
    ParseOne(n / 10);
    ParseSnoc([Digit(n / 10)], Digit(n % 10));
    assert [Digit(n / 10)] + [Digit(n % 10)] == Two(n);
  }

  lemma ParseFour(n: nat)
    requires n < 10000
    ensures ParseDigits(Four(n)) == Some(n)
  {
    var a, b := n / 100, n % 100;
    ParseTwo(a);
    ParseSnoc(Two(a), Digit(b / 10));
    ParseSnoc(Two(a) + [Digit(b / 10)], Digit(b % 10));
    assert Two(a) + [Digit(b / 10)] + [Digit(b % 10)] == Four(n);
  }

  /** Two digits write one number only. */
  lemma TwoDigits(s: string)
    requires |s| == 2 && ParseDigits(s).Some?
    ensures ParseDigits(s).value < 100 && s == Two(ParseDigits(s).value)
  {
    var front := s[..1];
    assert s == front + [s[1]] && front == "" + [s[0]];
    ParseSnoc(front, s[1]);
    ParseSnoc("", s[0]);
  }

  lemma OneDigit(s: string)
    requires |s| == 1 && ParseDigits(s).Some?
    ensures ParseDigits(s).value < 10 && s == [Digit(ParseDigits(s).value)]
  {
    assert s == "" + [s[0]];
    ParseSnoc("", s[0]);
  }

  lemma FourDigits(s: string)
    requires |s| == 4 && ParseDigits(s).Some?
    ensures ParseDigits(s).value < 10000 && s == Four(ParseDigits(s).value)
  {
    var a, b := s[..2], s[..3];
    assert s == b + [s[3]] && b == a + [s[2]];
    ParseSnoc(b, s[3]);
    ParseSnoc(a, s[2]);
    TwoDigits(a);
    var n := ParseDigits(s).value;
    assert n / 100 == ParseDigits(a).value;
    assert s == a + [s[2], s[3]];
  }
}
