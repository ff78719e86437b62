/**
 How an emitted shorthand is read back: as one declaration whose value splits
 into exactly the words that were written.
 */
module CssShorthand {
  import opened CssChars
  import opened CssValues
  import opened CssDecls
  import opened CssCollapse

  // ---- as a declaration ---------------------------------------------------------

  /** A place no url() token extends over. */
  ghost predicate Gap(s: string, k: nat) {
    k == |s| || (k < |s| && (s[k] == ' ' || s[k] == ';' || s[k] == ':'))
  }

  lemma NoUrlOver(s: string, p: nat, k: nat)
    requires p < k <= p + 3 && Gap(s, k)
    ensures !UrlAt(s, p)
  {
    hide QuoteAhead;
  }

  lemma NoUrlInside(s: string, i: nat, k: nat)
    requires i <= k <= |s| && Gap(s, k)
    requires forall p :: i <= p < k ==> Inert(s[p])
    ensures forall p :: i <= p < k ==> !UrlAt(s, p)
  {
    hide QuoteAhead;
    forall p | i <= p < k ensures !UrlAt(s, p) {
      if k <= p + 3 { NoUrlOver(s, p, k); }
    }
  }

  lemma {:induction false} ScanInert(s: string, i: nat, j: nat, stack: string, colon: int)
    requires i <= j <= |s| && -1 <= colon < i && (stack == "" || stack == "(")
    requires forall p :: i <= p < j ==> Inert(s[p]) && !UrlAt(s, p)
    ensures Scan(s, Reader(i, Normal, stack, colon)) == Scan(s, Reader(j, Normal, stack, colon))
    decreases j - i
  {
    hide UrlAt, CloseEnd;
    if i < j {
      var rd := Reader(i, Normal, stack, colon);
      assert Next(s, rd) == rd.(i := i + 1);
      ScanInert(s, i + 1, j, stack, colon);
    }
  }

  /** A call is written from `i` to `end`, its '(' at `paren`. */
  ghost predicate CallAt(s: string, i: nat, paren: nat, end: nat) {
    && i + 3 <= paren < end - 1 && end <= |s|
    && s[paren] == '(' && s[end - 1] == ')' && !CiMatch(s[paren - 2], 'r')
    && (forall p :: i <= p < paren ==> Inert(s[p]))
    && (forall p :: paren < p < end - 1 ==> Inert(s[p]))
  }

  lemma CallChars(s: string, i: nat, v: string, open: nat)
    requires i + |v| <= |s| && s[i..i + |v|] == v && IsCall(v, open)
    ensures CallAt(s, i, i + open, i + |v|)
  {
    forall p | i <= p < i + |v| ensures s[p] == v[p - i] {}
    forall p | i <= p < i + open ensures Inert(s[p]) {
      assert v[..open][p - i] == s[p];
    }
  }

  lemma CallHasNoUrl(s: string, i: nat, paren: nat, end: nat)
    requires CallAt(s, i, paren, end) && Gap(s, end)
    ensures forall p :: i <= p < end ==> !UrlAt(s, p)
  {
    hide QuoteAhead;
    forall p | i <= p < end ensures !UrlAt(s, p) {
      if end <= p + 3 { NoUrlOver(s, p, end); }
    }
  }

  lemma ScanCall(s: string, i: nat, paren: nat, end: nat, colon: int)
    requires CallAt(s, i, paren, end) && Gap(s, end) && -1 <= colon < i
    ensures Scan(s, Reader(i, Normal, "", colon)) == Scan(s, Reader(end, Normal, "", colon))
  {
    hide UrlAt, Scan, Inert;
    CallHasNoUrl(s, i, paren, end);
    ScanInert(s, i, paren, "", colon);
    ScanParen(s, paren, colon, "", "(");
    ScanInert(s, paren + 1, end - 1, "(", colon);
    ScanParen(s, end - 1, colon, "(", "");
  }

  lemma ScanParen(s: string, i: nat, colon: int, stack: string, after: string)
    requires i < |s| && -1 <= colon < i && !UrlAt(s, i)
    requires (s[i] == '(' && stack == "" && after == "(") || (s[i] == ')' && stack == "(" && after == "")
    ensures Scan(s, Reader(i, Normal, stack, colon)) == Scan(s, Reader(i + 1, Normal, after, colon))
  {
    hide UrlAt, CloseEnd;
    assert FedStack(stack, s[i]) == after;
    var rd := Reader(i, Normal, stack, colon);
    assert Next(s, rd) == rd.(i := i + 1, stack := after);
  }

  ghost predicate InertAt(s: string, i: nat, end: nat) {
    i <= end <= |s| && forall p :: i <= p < end ==> Inert(s[p])
  }

  /** An atom stands from `i` to `end`, as plain text or as a call with its '(' at `paren`. */
  lemma AtomAt(s: string, i: nat, v: string) returns (call: bool, paren: nat)
    requires i + |v| <= |s| && s[i..i + |v|] == v && Atom(v)
    ensures if call then CallAt(s, i, paren, i + |v|) else InertAt(s, i, i + |v|)
  {
    hide Plain, IsCall, CallAt, InertAt;
    call, paren := false, 0;
    if Plain(v) {
      PlainChars(s, i, v);
    } else {
      var open: nat :| IsCall(v, open);
      CallChars(s, i, v, open);
      call, paren := true, i + open;
    }
  }

  lemma PlainChars(s: string, i: nat, v: string)
    requires i + |v| <= |s| && s[i..i + |v|] == v && Plain(v)
    ensures InertAt(s, i, i + |v|)
  {
    forall p | i <= p < i + |v| ensures Inert(s[p]) {
      assert s[i..i + |v|][p - i] == s[p];
    }
  }

  lemma ScanInertTo(s: string, i: nat, end: nat, colon: int)
    requires InertAt(s, i, end) && Gap(s, end) && -1 <= colon < i
    ensures Scan(s, Reader(i, Normal, "", colon)) == Scan(s, Reader(end, Normal, "", colon))
  {
    hide UrlAt, Scan, Inert, Gap;
    NoUrlInside(s, i, end);
    ScanInert(s, i, end, "", colon);
  }

  lemma ScanAtomAt(s: string, i: nat, end: nat, call: bool, paren: nat, colon: int)
    requires i <= end <= |s| && Gap(s, end) && -1 <= colon < i
    requires if call then CallAt(s, i, paren, end) else InertAt(s, i, end)
    ensures Scan(s, Reader(i, Normal, "", colon)) == Scan(s, Reader(end, Normal, "", colon))
  {
    hide CallAt, InertAt, Scan, Gap;
    if call { ScanCall(s, i, paren, end, colon); } else { ScanInertTo(s, i, end, colon); }
  }

  lemma ScanAtomIn(a: string, v: string, b: string, colon: int)
    requires Atom(v) && Gap(a + v + b, |a| + |v|) && -1 <= colon < |a|
    ensures Scan(a + v + b, Reader(|a|, Normal, "", colon)) == Scan(a + v + b, Reader(|a + v|, Normal, "", colon))
  {
    hide Scan, Atom, CallAt, InertAt, Gap;
    var call, paren := AtomIn(a, v, b);
    ScanAtomAt(a + v + b, |a|, |a| + |v|, call, paren, colon);
  }

  lemma AtomIn(a: string, v: string, b: string) returns (call: bool, paren: nat)
    requires Atom(v)
    ensures var s, end := a + v + b, |a| + |v|;
            if call then CallAt(s, |a|, paren, end) else InertAt(s, |a|, end)
  {
    hide Atom, CallAt, InertAt;
    var s := a + v + b;
    assert s[|a|..|a| + |v|] == v;
    call, paren := AtomAt(s, |a|, v);
  }

  lemma ScanSpaceIn(a: string, b: string, colon: int)
    requires -1 <= colon < |a|
    ensures Scan(a + " " + b, Reader(|a|, Normal, "", colon)) == Scan(a + " " + b, Reader(|a + " "|, Normal, "", colon))
  {
    hide Scan, UrlAt;
    SpaceIsNoUrl(a + " " + b, |a|);
    ScanInert(a + " " + b, |a|, |a| + 1, "", colon);
  }

  /** Reading passes over the words of a value that ends at a gap. */
  lemma {:induction false} ScanWords(a: string, ws: seq<string>, b: string, colon: int)
    requires ws != [] && forall k :: 0 <= k < |ws| ==> Atom(ws[k])
    requires Gap(b, 0) && -1 <= colon < |a|
    ensures var s := a + Spaced(ws) + b;
            Scan(s, Reader(|a|, Normal, "", colon)) == Scan(s, Reader(|a + Spaced(ws)|, Normal, "", colon))
    decreases |ws|
  {
    hide Scan, Atom;
    if |ws| == 1 {
      ScanAtomIn(a, ws[0], b, colon);
    } else {
      var s := a + Spaced(ws) + b;
      var rest := Spaced(ws[1..]) + b;
      assert s == a + ws[0] + (" " + rest);
      ScanAtomIn(a, ws[0], " " + rest, colon);
      assert s == (a + ws[0]) + " " + rest;
      ScanSpaceIn(a + ws[0], rest, colon);
      assert s == (a + ws[0] + " ") + Spaced(ws[1..]) + b;
      ScanWords(a + ws[0] + " ", ws[1..], b, colon);
      assert a + Spaced(ws) == (a + ws[0] + " ") + Spaced(ws[1..]);
    }
  }

  lemma SpaceIsNoUrl(s: string, k: nat)
    requires k < |s| && s[k] == ' '
    ensures !UrlAt(s, k)
  {}

  lemma ScanName(name: string, b: string)
    requires Plain(name) && name != ""
    ensures var s := name + ":" + b;
            Scan(s, FRONT) == Scan(s, Reader(|name| + 1, Normal, "", |name|))
  {
    hide UrlAt, CloseEnd;
    var s := name + ":" + b;
    assert s[0..0 + |name|] == name;
    PlainChars(s, 0, name);
    NoUrlInside(s, 0, |name|);
    ScanInert(s, 0, |name|, "", -1);
    assert !UrlAt(s, |name|) by { ColonIsNoUrl(s, |name|); }
    assert Next(s, Reader(|name|, Normal, "", -1)) == Reader(|name| + 1, Normal, "", |name|);
  }

  lemma ColonIsNoUrl(s: string, k: nat)
    requires k < |s| && s[k] == ':'
    ensures !UrlAt(s, k)
  {}

  lemma ScanStops(s: string, k: nat, colon: int)
    requires k < |s| && s[k] == ';' && -1 <= colon < k
    ensures Scan(s, Reader(k, Normal, "", colon)) == Extent(k, colon)
  {}

  lemma ScanText(name: string, ws: seq<string>)
    requires Plain(name) && name != ""
    requires ws != [] && forall k :: 0 <= k < |ws| ==> Atom(ws[k])
    ensures Scan(name + ":" + Spaced(ws) + ";", FRONT) == Extent(|name + ":" + Spaced(ws)|, |name|)
  {
    hide Scan, Plain, Atom, Spaced;
    var s := name + ":" + Spaced(ws) + ";";
    assert s == name + ":" + (Spaced(ws) + ";");
    ScanName(name, Spaced(ws) + ";");
    ScanWords(name + ":", ws, ";", |name|);
    ScanStops(s, |s| - 1, |name|);
  }

  /** A property name, ':' and words of atoms are one declaration, read back as just that. */
  lemma TextIsClosed(name: string, ws: seq<string>)
    requires Plain(name) && name != ""
    requires ws != [] && forall k :: 0 <= k < |ws| ==> Atom(ws[k])
    ensures var text := name + ":" + Spaced(ws);
            Closed(text) && Of(text) == Decl(name, Spaced(ws), text)
  {
    hide Scan, Plain, Atom, Spaced;
    var text := name + ":" + Spaced(ws);
    ScanText(name, ws);
    ClosedIsWhole(text);
    assert text[..|name|] == name && text[|name| + 1..] == Spaced(ws);
  }

  // ---- as a list of components -----------------------------------------------------

  /** First space outside parentheses at or after `i`, or the end. */
  function WordEnd(s: string, i: nat, depth: nat): (j: nat)
    requires i <= |s|
    ensures i <= j <= |s|
    decreases |s| - i
  {
    if i == |s| || (s[i] == ' ' && depth == 0) then i
    else WordEnd(s, i + 1, if s[i] == '(' then depth + 1 else if s[i] == ')' && depth > 0 then depth - 1 else depth)
  }

  /** The space-separated components of a value. */
  function Components(s: string): seq<string>
    decreases |s|
  {
    var e := WordEnd(s, 0, 0);
    if e == |s| then [s] else [s[..e]] + Components(s[e + 1..])
  }

  lemma {:induction false} WordEndOver(s: string, i: nat, j: nat, depth: nat)
    requires i <= j <= |s|
    requires forall p :: i <= p < j ==> Inert(s[p]) && (depth == 0 ==> s[p] != ' ')
    ensures WordEnd(s, i, depth) == WordEnd(s, j, depth)
    decreases j - i
  {
    if i < j {
      WordEndOver(s, i + 1, j, depth);
    }
  }

  lemma AtomIsOneWord(v: string, b: string)
    requires Atom(v) && (b == "" || b[0] == ' ')
    ensures WordEnd(v + b, 0, 0) == |v|
  {
    var s := v + b;
    if Plain(v) {
      WordEndOver(s, 0, |v|, 0);
    } else {
      var open: nat :| IsCall(v, open);
      assert forall k :: 0 <= k < open ==> v[..open][k] == s[k];
      WordEndOver(s, 0, open, 0);
      WordEndOver(s, open + 1, |v| - 1, 1);
    }
  }

  /** Words written with single spaces between them are read back as those words. */
  lemma {:induction false} ComponentsOfSpaced(ws: seq<string>)
    requires ws != [] && forall k :: 0 <= k < |ws| ==> Atom(ws[k])
    ensures Components(Spaced(ws)) == ws
    decreases |ws|
  {
    hide Atom, WordEnd;
    if |ws| == 1 {
      AtomIsOneWord(ws[0], "");
      assert ws[0] + "" == ws[0];
    } else {
      var rest := Spaced(ws[1..]);
      AtomIsOneWord(ws[0], " " + rest);
      assert Spaced(ws) == ws[0] + (" " + rest);
      assert Spaced(ws)[|ws[0]| + 1..] == rest;
      ComponentsOfSpaced(ws[1..]);
    }
  }
}
