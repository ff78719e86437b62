/**
 Balanced texts side by side: when no token runs from one into the next, and where a
 sheet can be cut so that its stretches are balanced.
 */
module CssSeams {
  import opened Options
  import opened Ascii
  import opened CssBalance
  import opened CssEmbed

  // ---- texts side by side -----------------------------------------------------------------

  ghost predicate Spaces(s: string) {
    forall i :: 0 <= i < |s| ==> IsSpace(s[i])
  }

  /** A token of `n` characters that nothing can continue, a comment or one character, and then whitespace. */
  ghost predicate Lid(y: string, n: nat) {
    && 0 < n <= |y| && Spaces(y[n..])
    && if y[0] == '/' then |y| > 1 && y[1] == '*' && CommentEnd(y, 2) == Some(n)
       else n == 1 && Stops(y[0]) && !IsQuote(y[0])
  }

  ghost predicate SealedAt(a: string, k: nat, n: nat) {
    k <= |a| && WalkTo(a[..k], 0, 0, 0, k).Some? && Lid(a[k..], n)
  }

  /** But for whitespace, the text ends in a token that nothing can continue. */
  ghost predicate Sealed(a: string) {
    Spaces(a) || exists k: nat, n: nat :: SealedAt(a, k, n)
  }

  /** No token runs from the first text into the second. */
  ghost predicate Joins(a: string, b: string) {
    b == "" || Stops(b[0]) || SpaceStops(a, b[0]) || Sealed(a)
  }

  /** A character that is a token by itself, outside identifiers that may be "url". */
  predicate PlainToken(c: char) {
    LowerChar(c) != 'u' && c != '/' && !IsQuote(c) && c != '\\' && c != '{' && c != '}'
  }

  lemma {:induction false} PlainRun(s: string, pos: nat, stop: nat)
    requires pos <= stop <= |s| && forall i | pos <= i < stop :: PlainToken(s[i])
    ensures WalkTo(s, pos, 0, 0, stop) == Some(0)
    decreases stop - pos
  {
    hide Next;
    if pos < stop {
      PlainNext(s, pos);
      PlainRun(s, pos + 1, stop);
    }
  }

  lemma PlainNext(s: string, pos: nat)
    requires pos < |s| && PlainToken(s[pos])
    ensures Next(s, pos) == Some(pos + 1)
  {}

  lemma NothingIsBalanced()
    ensures Balanced("")
  {}

  lemma NothingIsSealed()
    ensures Sealed("")
  {}

  lemma SpaceIsOneToken(s: string, pos: nat)
    requires pos < |s| && IsSpace(s[pos])
    ensures Next(s, pos) == Some(pos + 1)
  {}

  lemma {:induction false} SpacesPass(s: string, pos: nat, depth: nat, floor: nat, stop: nat)
    requires pos <= stop <= |s| && forall i :: pos <= i < stop ==> IsSpace(s[i])
    ensures WalkTo(s, pos, depth, floor, stop) == Some(depth)
    decreases stop - pos
  {
    hide Next;
    if pos < stop {
      SpaceIsOneToken(s, pos);
      SpacesPass(s, pos + 1, depth, floor, stop);
    }
  }

  lemma LidToken(y: string, b: string, n: nat)
    requires Lid(y, n)
    ensures Next(y, 0) == Some(n) && Next(y + b, 0) == Some(n) && !IsIdentContinue(y[|y| - 1])
  {
    if y[0] == '/' {
      CommentEndBefore(y, b, 2);
      CommentCloses(y, 2);
    }
    if n < |y| { assert y[n..][|y| - 1 - n] == y[|y| - 1]; }
  }

  lemma {:induction false} CommentCloses(s: string, p: nat)
    requires CommentEnd(s, p).Some?
    ensures s[CommentEnd(s, p).value - 1] == '/'
    decreases |s| - p
  {
    if !(s[p] == '*' && s[p + 1] == '/') { CommentCloses(s, p + 1); }
  }

  /** The scan passes a lid whatever follows it. */
  lemma LidPasses(y: string, b: string, n: nat, depth: nat)
    requires Lid(y, n) && WalkTo(y, 0, depth, 0, |y|).Some?
    ensures WalkTo(y + b, 0, depth, 0, |y|) == WalkTo(y, 0, depth, 0, |y|)
  {
    hide Next;
    LidToken(y, b, n);
    var inner := if y[0] == '{' then depth + 1 else if y[0] == '}' then depth - 1 else depth;
    forall i | n <= i < |y| ensures IsSpace(y[i]) && IsSpace((y + b)[i]) { assert y[n..][i - n] == y[i]; }
    SpacesPass(y, n, inner, 0, |y|);
    SpacesPass(y + b, n, inner, 0, |y|);
  }

  /** The scan passes a sealed text whatever follows it. */
  lemma SealedPasses(a: string, b: string)
    requires Balanced(a) && Sealed(a)
    ensures WalkTo(a + b, 0, 0, 0, |a|) == Some(0) && Ended(a)
  {
    hide WalkTo, Lid;
    if Spaces(a) {
      SpacesPass(a + b, 0, 0, 0, |a|);
    } else {
      var k: nat, n: nat :| SealedAt(a, k, n);
      LidStands(a, b, k, n);
    }
  }

  lemma LidStands(a: string, b: string, k: nat, n: nat)
    requires Balanced(a) && SealedAt(a, k, n)
    ensures WalkTo(a + b, 0, 0, 0, |a|) == Some(0) && Ended(a)
  {
    hide WalkTo, Lid;
    var x, y, d := a[..k], a[k..], WalkTo(a[..k], 0, 0, 0, k).value;
    assert a == x + y && a + b == x + (y + b);
    LidStops(y, n);
    LidToken(y, b, n);
    WalkBefore(x, y, 0, 0, 0);
    WalkBefore(x, y + b, 0, 0, 0);
    WalkOn(a, 0, 0, 0, k, |a|);
    WalkAfter(x, y, 0, d, 0, |y|);
    LidPasses(y, b, n, d);
    WalkAfter(x, y + b, 0, d, 0, |y|);
    WalkOn(a + b, 0, 0, 0, k, |a|);
  }

  lemma LidStops(y: string, n: nat)
    requires Lid(y, n)
    ensures y != "" && Stops(y[0])
  {}

  /** Balanced texts that do not join stay balanced side by side, and the scan stands between them. */
  lemma JoinIsBalanced(a: string, b: string)
    requires Balanced(a) && Balanced(b) && Joins(a, b)
    ensures Balanced(a + b) && WalkTo(a + b, 0, 0, 0, |a|) == Some(0) && (b == "" || Detached(a, b))
  {
    hide WalkTo, Sealed;
    if b == "" {
      assert a + b == a;
    } else {
      if Stops(b[0]) || SpaceStops(a, b[0]) { WalkBefore(a, b, 0, 0, 0); } else { SealedPasses(a, b); }
      WalkAfter(a, b, 0, 0, 0, |b|);
      WalkOn(a + b, 0, 0, 0, |a|, |a + b|);
    }
  }

  // ---- the stretches of a sheet ------------------------------------------------------------

  /** The scan of the sheet stands between two tokens here, outside every brace. */
  ghost predicate Between(css: string, p: nat) {
    p <= |css| && WalkTo(css, 0, 0, 0, p) == Some(0)
  }

  /** What follows such a place is balanced by itself. */
  lemma RestIsBalanced(css: string, from: nat)
    requires Balanced(css) && Between(css, from) && (from == 0 || css[from - 1] == ';')
    ensures Balanced(css[from..])
  {
    hide WalkTo;
    var a, b := css[..from], css[from..];
    assert css == a + b;
    WalkOn(css, 0, 0, 0, from, |css|);
    WalkAfter(a, b, 0, 0, 0, |b|);
  }

  /** So is what stands between two of them, before an import. */
  lemma GapIsBalanced(css: string, from: nat, to: nat)
    requires Between(css, from) && Between(css, to) && from <= to < |css| && css[to] == '@'
    requires from == 0 || css[from - 1] == ';'
    ensures Balanced(css[from..to])
  {
    hide WalkTo;
    var a, b, gap := css[..from], css[from..], css[from..to];
    assert css == a + b && b == gap + css[to..];
    WalkOn(css, 0, 0, 0, from, to);
    WalkAfter(a, b, 0, 0, 0, |gap|);
    WalkWithin(gap, css[to..], 0, 0, 0, |gap|);
  }

  /** Sealed texts one after the other are sealed. */
  lemma SealedTwice(x: string, g: string)
    requires Balanced(x) && Sealed(x) && Sealed(g)
    ensures Sealed(x + g)
  {
    hide WalkTo, Lid;
    if Spaces(g) {
      if Spaces(x) {
        assert Spaces(x + g);
      } else {
        var k: nat, n: nat :| SealedAt(x, k, n);
        assert (x + g)[..k] == x[..k] && (x + g)[k..] == x[k..] + g;
        LidGrows(x[k..], g, n);
        assert SealedAt(x + g, k, n);
      }
    } else {
      var k: nat, n: nat :| SealedAt(g, k, n);
      var a, m := x + g, |x| + k;
      assert a[..m] == x + g[..k] && a[m..] == g[k..];
      SealedPasses(x, g[..k]);
      WalkAfter(x, g[..k], 0, 0, 0, k);
      WalkOn(x + g[..k], 0, 0, 0, |x|, m);
      assert SealedAt(a, m, n);
    }
  }

  lemma LidGrows(y: string, g: string, n: nat)
    requires Lid(y, n) && Spaces(g)
    ensures Lid(y + g, n)
  {
    if y[0] == '/' { CommentEndBefore(y, g, 2); }
    assert (y + g)[n..] == y[n..] + g;
  }
}
