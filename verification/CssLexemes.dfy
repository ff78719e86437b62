/**
 Lexemes of CSS text, defined by their characters alone: bodies of strings and
 url(), identifiers that end in an escape, the places where a number can start.
 The scanners are measured against these.
 */
module CssLexemes {
  import opened Ascii
  import opened CssChars

  /** Whitespace: tab, line feed, form feed, carriage return, space. */
  predicate IsBlank(c: char) {
    c as int == 9 || c as int == 10 || c as int == 12 || c as int == 13 || c as int == 32
  }

  // ---- strings and url() --------------------------------------------------------------------

  /** Escape pairs, and characters other than a backslash and `close`. */
  predicate Body(x: string, close: char) {
    if x == "" then true
    else if x[0] == '\\' then |x| >= 2 && Body(x[2..], close)
    else x[0] != close && Body(x[1..], close)
  }

  /** Escape pairs and single characters: no backslash is left without its partner. */
  predicate Whole(x: string) {
    if x == "" then true
    else if x[0] == '\\' then |x| >= 2 && Whole(x[2..])
    else Whole(x[1..])
  }

  predicate EndsInUrl(r: string) {
    var n := |r|;
    && n >= 3
    && (r[n - 3] == 'u' || r[n - 3] == 'U') && (r[n - 2] == 'r' || r[n - 2] == 'R')
    && (r[n - 1] == 'l' || r[n - 1] == 'L')
  }

  lemma EndsInUrlIff(r: string)
    ensures EndsWithUrl(r) == EndsInUrl(r)
  {}

  /** A body is passed over exactly to its closing character. */
  lemma {:induction false} CloseEndOf(s: string, j: nat, x: string, close: char)
    requires close != '\\' && Body(x, close) && j + |x| < |s|
    requires s[j + |x|] == close && forall k :: 0 <= k < |x| ==> s[j + k] == x[k]
    ensures CloseEnd(s, j, close) == j + |x| + 1
    decreases |x|
  {
    if x != "" {
      assert s[j] == x[0];
      var n := if x[0] == '\\' then 2 else 1;
      forall k | 0 <= k < |x[n..]| ensures s[j + n + k] == x[n..][k] {
        assert s[j + (n + k)] == x[n + k];
      }
      CloseEndOf(s, j + n, x[n..], close);
    }
  }

  // ---- whole text -----------------------------------------------------------------------------

  lemma {:induction false} WholeConcat(a: string, b: string)
    requires Whole(a) && Whole(b)
    ensures Whole(a + b)
    decreases |a|
  {
    if a == "" {
      assert a + b == b;
    } else {
      var n := if a[0] == '\\' then 2 else 1;
      WholeConcat(a[n..], b);
      assert (a + b)[n..] == a[n..] + b;
    }
  }

  /** One more character: it completes a dangling backslash, or is not itself one. */
  lemma {:induction false} WholeOneMore(p: string, c: char)
    ensures Whole(p + [c]) == (!Whole(p) || c != '\\')
    decreases |p|
  {
    if p == "" {
      assert p + [c] == [c] && [c][1..] == "";
    } else if p[0] != '\\' {
      WholeOneMore(p[1..], c);
      assert (p + [c])[1..] == p[1..] + [c];
    } else if |p| == 1 {
      assert (p + [c])[2..] == "";
    } else {
      WholeOneMore(p[2..], c);
      assert (p + [c])[2..] == p[2..] + [c];
    }
  }

  // ---- identifiers and numbers ----------------------------------------------------------------

  /** `r` ends in an escape: a pair, or one to six hexadecimal digits and the whitespace that ends them. */
  ghost predicate EndsInEscape(r: string) {
    exists k :: 0 <= k && k + 2 <= |r| && EscapeFrom(r, k)
  }

  ghost predicate EscapeFrom(r: string, k: nat)
    requires k + 2 <= |r|
  {
    && r[k] == '\\' && Whole(r[..k])
    && (k + 2 == |r|
        || (&& k + 3 <= |r| <= k + 8 && IsBlank(r[|r| - 1])
            && forall m :: k < m < |r| - 1 ==> IsHexDigit(r[m])))
  }

  /** An identifier, or a number, goes on after `r`. */
  ghost predicate EndsInName(r: string) {
    && r != ""
    && var c := r[|r| - 1];
    || 'a' <= c <= 'z' || 'A' <= c <= 'Z' || '0' <= c <= '9' || c == '_' || c as int >= 0x80
    || EndsInEscape(r)
  }

  /** A number can start after `r`, with a sign already read when `r` ends in a '-' of its own. */
  ghost predicate NumberCanStart(r: string) {
    || r == ""
    || var n := |r|;
       && !EndsInName(r) && r[n - 1] != '.'
       && (r[n - 1] == '-' && n >= 2 ==> r[n - 2] != '-' && !EndsInName(r[..n - 1]))
  }
}
