/**
 A "url" that is spelled with escapes: whichever of its letters are escaped, and
 however, the balance scan finds the url function and refuses the text.
 */
module CssHiddenUrl {
  import opened Options
  import opened Ascii
  import opened CssBalance
  import T = CssBalanceTree

  /** How a letter is written: as it is, behind a backslash, or by its code, with the blank that ends it. */
  datatype Spelling = Plainly(c: char) | Pair(c: char) | Code(zeros: string, digits: string, gap: string)
  {
    function Text(): (t: string)
      ensures t != ""
    {
      match this
      case Plainly(c) => [c]
      case Pair(c) => ['\\', c]
      case Code(zeros, digits, gap) => "\\" + (zeros + digits + gap)
    }

    /** Up to six digits, and at most one blank, where a carriage return and line feed count as one. */
    predicate Fits(letters: string, codes: set<string>) {
      match this
      case Plainly(c) => c in letters
      case Pair(c) => c in letters
      case Code(zeros, digits, gap) =>
        && digits in codes && |zeros| <= 4 && (forall k :: 0 <= k < |zeros| ==> zeros[k] == '0')
        && OneBlank(gap)
    }
  }

  predicate OneBlank(gap: string) {
    gap == "" || gap == "\r\n" || (|gap| == 1 && (gap[0] == ' ' || 9 <= gap[0] as int <= 13))
  }

  predicate SpellsUrl(u: Spelling, r: Spelling, l: Spelling) {
    u.Fits("uU", {"75", "55"}) && r.Fits("rR", {"72", "52"}) && l.Fits("lL", {"6c", "6C", "4c", "4C"})
  }

  /** What may follow a spelled letter: another one, or the '('. */
  predicate Follows(c: char) {
    c in "rRlL\\("
  }

  // ---- one letter --------------------------------------------------------------------------------

  lemma {:induction false} HexEndIs(s: string, i: nat, d: string, left: nat)
    requires T.Reads(s, i, d) && |d| <= left && (forall k :: 0 <= k < |d| ==> IsHexDigit(d[k]))
    requires i + |d| < |s| && !IsHexDigit(s[i + |d|])
    ensures HexEnd(s, i, left) == i + |d|
    decreases |d|
  {
    if d != "" {
      assert s[i + 0] == d[0];
      assert d == [d[0]] + d[1..];
      T.ReadsSplit(s, i, [d[0]], d[1..]);
      HexEndIs(s, i + 1, d[1..], left - 1);
    }
  }

  lemma {:induction false} ZerosCountNothing(zeros: string, digits: string)
    requires forall k :: 0 <= k < |zeros| ==> zeros[k] == '0'
    ensures HexValue(zeros + digits) == HexValue(digits)
    decreases |digits| + |zeros|
  {
    var x := zeros + digits;
    if digits != "" {
      ZerosCountNothing(zeros, digits[..|digits| - 1]);
      assert x[..|x| - 1] == zeros + digits[..|digits| - 1];
    } else if zeros != "" {
      ZerosCountNothing(zeros[..|zeros| - 1], "");
      assert x[..|x| - 1] == zeros[..|zeros| - 1] + "";
    }
  }

  lemma CodeEnds(s: string, i: nat, d: string, gap: string)
    requires T.Reads(s, i, d + gap) && 1 <= |d| <= 6 && (forall k :: 0 <= k < |d| ==> IsHexDigit(d[k]))
    requires OneBlank(gap)
    requires i + |d + gap| < |s| && Follows(s[i + |d + gap|])
    ensures HexEnd(s, i, 6) == i + |d| && AfterHexSpace(s, i + |d|) == i + |d + gap| && s[i..i + |d|] == d
  {
    T.ReadsSplit(s, i, d, gap);
    assert gap != "" ==> s[i + |d| + 0] == gap[0];
    assert gap == "\r\n" ==> s[i + |d| + 1] == gap[1];
    HexEndIs(s, i, d, 6);
  }

  lemma CodeIsRead(s: string, i: nat, name: string, p: Spelling, low: char)
    requires p.Code? && T.Reads(s, i, p.Text()) && i + |p.Text()| < |s| && Follows(s[i + |p.Text()|]) && |name| < 8
    requires OneBlank(p.gap) && 1 <= |p.zeros + p.digits| <= 6
    requires (forall k :: 0 <= k < |p.digits| ==> IsHexDigit(p.digits[k]))
    requires forall k :: 0 <= k < |p.zeros| ==> p.zeros[k] == '0'
    requires HexValue(p.digits) < 0x80 && LowerChar(HexValue(p.digits) as char) == low
    ensures IsUrlName(s, i, name) == IsUrlName(s, i + |p.Text()|, name + [low])
  {
    hide HexEnd, AfterHexSpace, HexValue, OneBlank;
    var d := p.zeros + p.digits;
    forall k | 0 <= k < |d| ensures IsHexDigit(d[k]) {}
    T.ReadsSplit(s, i, "\\", d + p.gap);
    assert s[i + 0] == "\\"[0] && s[i + 1 + 0] == (d + p.gap)[0] == d[0];
    CodeEnds(s, i + 1, d, p.gap);
    ZerosCountNothing(p.zeros, p.digits);
  }

  /** Two hexadecimal digits that stand for `low`, in either case. */
  predicate CodeOf(x: string, low: char) {
    |x| == 2 && IsHexDigit(x[0]) && IsHexDigit(x[1]) && HexValue(x) < 0x80 && LowerChar(HexValue(x) as char) == low
  }

  /** The letters and the codes all stand for `low`. */
  ghost predicate Mean(letters: string, codes: set<string>, low: char) {
    && (forall c :: c in letters ==> LowerChar(c) == low && 'g' <= low <= 'z')
    && (forall x :: x in codes ==> CodeOf(x, low))
  }

  lemma CodeIs(x: string, v: nat, w: nat)
    requires |x| == 2 && HexValue([x[0]]) == v && HexValue([x[1]]) == w
    ensures HexValue(x) == 16 * v + w
  {
    assert x[..1] == [x[0]] && [x[1]][..0] == "";
  }

  lemma UMeans()
    ensures Mean("uU", {"75", "55"}, 'u')
  {
    CodeIs("75", 7, 5);
    CodeIs("55", 5, 5);
    assert CodeOf("75", 'u') && CodeOf("55", 'u');
  }

  lemma RMeans()
    ensures Mean("rR", {"72", "52"}, 'r')
  {
    CodeIs("72", 7, 2);
    CodeIs("52", 5, 2);
    assert CodeOf("72", 'r') && CodeOf("52", 'r');
  }

  lemma LMeans()
    ensures Mean("lL", {"6c", "6C", "4c", "4C"}, 'l')
  {
    CodeIs("6c", 6, 12);
    CodeIs("6C", 6, 12);
    assert CodeOf("6c", 'l') && CodeOf("6C", 'l');
    CodeIs("4c", 4, 12);
    CodeIs("4C", 4, 12);
    assert CodeOf("4c", 'l') && CodeOf("4C", 'l');
  }

  /** A letter, however spelled, is decoded as itself in lower case. */
  lemma LetterIsRead(s: string, i: nat, name: string, p: Spelling, letters: string, codes: set<string>, low: char)
    requires p.Fits(letters, codes) && T.Reads(s, i, p.Text()) && |name| < 8
    requires i + |p.Text()| < |s| && Follows(s[i + |p.Text()|])
    requires Mean(letters, codes, low)
    ensures IsUrlName(s, i, name) == IsUrlName(s, i + |p.Text()|, name + [low])
  {
    hide HexEnd, AfterHexSpace, HexValue;
    assert p.Code? ==> CodeOf(p.digits, low);
    match p
    case Plainly(c) => assert s[i + 0] == [c][0];
    case Pair(c) => assert s[i + 0] == ['\\', c][0] && s[i + 1] == ['\\', c][1];
    case Code(zeros, digits, gap) => CodeIsRead(s, i, name, p, low);
  }

  // ---- the whole word -------------------------------------------------------------------------------

  function Word(u: Spelling, r: Spelling, l: Spelling): string {
    u.Text() + (r.Text() + (l.Text() + "("))
  }

  /** Where the letters of the word stand. */
  lemma LettersStand(s: string, i: nat, u: Spelling, r: Spelling, l: Spelling)
    requires SpellsUrl(u, r, l) && T.Reads(s, i, Word(u, r, l))
    ensures var j := i + |u.Text()|;
            var k := j + |r.Text()|;
            var e := k + |l.Text()|;
            && T.Reads(s, i, u.Text()) && T.Reads(s, j, r.Text()) && T.Reads(s, k, l.Text())
            && i < j < k < e < |s| && s[e] == '(' && Follows(s[j]) && Follows(s[k]) && Follows(s[e])
            && s[i] == u.Text()[0] && s[j] == r.Text()[0] && s[k] == l.Text()[0]
  {
    hide Spelling.Text, Spelling.Fits, T.Reads;
    var x, y, z := u.Text(), r.Text(), l.Text();
    T.ReadsSplit(s, i, x, y + (z + "("));
    T.ReadsSplit(s, i + |x|, y, z + "(");
    T.ReadsSplit(s, i + |x| + |y|, z, "(");
    FirstChar(s, i, x);
    FirstChar(s, i + |x|, y);
    FirstChar(s, i + |x| + |y|, z);
    FirstChar(s, i + |x| + |y| + |z|, "(");
    FirstFollows(r, l);
  }

  lemma FirstChar(s: string, i: nat, x: string)
    requires T.Reads(s, i, x) && x != ""
    ensures i + |x| <= |s| && s[i] == x[0]
  {
    assert s[i + 0] == x[0];
  }

  lemma FirstFollows(r: Spelling, l: Spelling)
    requires r.Fits("rR", {"72", "52"}) && l.Fits("lL", {"6c", "6C", "4c", "4C"})
    ensures Follows(r.Text()[0]) && Follows(l.Text()[0]) && Follows('(')
  {}

  lemma WordIsUrl(s: string, i: nat, u: Spelling, r: Spelling, l: Spelling)
    requires SpellsUrl(u, r, l) && T.Reads(s, i, Word(u, r, l))
    ensures IsUrlName(s, i, "")
  {
    hide IsUrlName, T.Reads, Mean, Follows, Spelling.Fits, Spelling.Text;
    LettersStand(s, i, u, r, l);
    UMeans();
    RMeans();
    LMeans();
    var j := i + |u.Text()|;
    var k := j + |r.Text()|;
    var e := k + |l.Text()|;
    LetterIsRead(s, i, "", u, "uU", {"75", "55"}, 'u');
    LetterIsRead(s, j, "u", r, "rR", {"72", "52"}, 'r');
    LetterIsRead(s, k, "ur", l, "lL", {"6c", "6C", "4c", "4C"}, 'l');
    assert "" + ['u'] == "u" && "u" + ['r'] == "ur" && "ur" + ['l'] == "url";
    assert IsUrlName(s, e, "url") by { NameEnds(s, e); }
  }

  lemma NameEnds(s: string, e: nat)
    requires e < |s| && s[e] == '('
    ensures IsUrlName(s, e, "url")
  {}

  /** The scan stops at the first escape of the word. */
  lemma HiddenAt(s: string, i: nat, depth: nat, u: Spelling, r: Spelling, l: Spelling)
    requires SpellsUrl(u, r, l) && T.Reads(s, i, Word(u, r, l)) && !(u.Plainly? && r.Plainly? && l.Plainly?)
    requires i == 0 || !IsIdentContinue(s[i - 1])
    ensures WalkTo(s, i, depth, 0, |s|) == None
  {
    hide WalkTo, IsUrlName, T.Reads, UrlTokenAt, Follows, IsIdentContinue, Spelling.Text, Spelling.Fits;
    LettersStand(s, i, u, r, l);
    Begins(u, "uU", {"75", "55"});
    Begins(r, "rR", {"72", "52"});
    Begins(l, "lL", {"6c", "6C", "4c", "4C"});
    WordIsUrl(s, i, u, r, l);
    var j := i + |u.Text()|;
    var k := j + |r.Text()|;
    if !u.Plainly? {
      EscapeStops(s, i, i, depth);
    } else if !r.Plainly? {
      NoUrlToken(s, i, i + 1);
      PlainStep(s, i, depth);
      EscapeStops(s, i, j, depth);
    } else {
      NoUrlToken(s, i, i + 2);
      PlainStep(s, i, depth);
      NotAtR(s, j);
      PlainStep(s, j, depth);
      EscapeStops(s, i, k, depth);
    }
  }

  /** A spelling is its letter, or begins with a backslash. */
  lemma Begins(p: Spelling, letters: string, codes: set<string>)
    requires p.Fits(letters, codes)
    ensures if p.Plainly? then |p.Text()| == 1 && p.Text()[0] in letters else p.Text()[0] == '\\'
    ensures IsIdentContinue('u') && IsIdentContinue('U') && IsIdentContinue('r') && IsIdentContinue('R')
  {}

  lemma NoUrlToken(s: string, i: nat, esc: nat)
    requires i < esc <= i + 2 && esc < |s| && s[esc] == '\\'
    ensures !UrlTokenAt(s, i)
  {}

  lemma NotAtR(s: string, i: nat)
    requires i < |s| && s[i] in "rR"
    ensures !UrlTokenAt(s, i)
  {}

  /** An escape one or two letters into an identifier that is "url". */
  lemma EscapeStops(s: string, i: nat, esc: nat, depth: nat)
    requires i <= esc <= i + 2 && esc < |s| && s[esc] == '\\' && (i == 0 || !IsIdentContinue(s[i - 1]))
    requires (forall m :: i <= m < esc ==> IsIdentContinue(s[m])) && IsUrlName(s, i, "")
    ensures WalkTo(s, esc, depth, 0, |s|) == None
  {
    hide IsUrlName;
    assert IdentStart(s, esc, i) == Some(i);
    if esc > i { assert IdentStart(s, esc, i + 1) == Some(i); }
    if esc > i + 1 { assert IdentStart(s, esc, i + 2) == Some(i); }
    assert Next(s, esc) == None;
  }

  lemma PlainStep(s: string, i: nat, depth: nat)
    requires i < |s| && s[i] in "uUrR" && !UrlTokenAt(s, i)
    ensures WalkTo(s, i, depth, 0, |s|) == WalkTo(s, i + 1, depth, 0, |s|)
  {}

  /** A url function whose name is spelled with an escape is refused, at the start of a text and inside its blocks. */
  lemma HiddenUrlIsRefused(t: T.Tokens, u: Spelling, r: Spelling, l: Spelling, rest: string)
    requires SpellsUrl(u, r, l) && !(u.Plainly? && r.Plainly? && l.Plainly?) && T.Fits(' ', t)
    ensures !Balanced(Word(u, r, l) + rest)
    ensures !Balanced(T.Text(t) + ("{" + (Word(u, r, l) + rest)))
  {
    hide WalkTo, T.Fits, SpellsUrl;
    var w := Word(u, r, l);
    HiddenAt(w + rest, 0, 0, u, r, l);
    var more := "{" + (w + rest);
    var s, n := T.Text(t) + more, |T.Text(t)|;
    T.Whole(t, more);
    T.TokensWalk(s, 0, 0, t);
    assert s[n] == '{';
    T.BraceWalk(s, n, 0);
    forall k | 0 <= k < |w| ensures s[n + 1 + k] == w[k] { assert s[n + (1 + k)] == more[1 + k]; }
    HiddenAt(s, n + 1, 1, u, r, l);
  }
}
