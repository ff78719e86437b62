/** Media conditions by their characters: which are safe to write, which are dropped, which are no media queries. */
module CssEmbedMeaning {
  import opened Options
  import opened Ascii
  import opened CssBalance
  import opened CssEmbed
  import opened CssImports
  import opened CssFlatten
  import L = CssLexemes

  // ---- safe values --------------------------------------------------------------------------------

  function Count(m: string, c: char): nat {
    if m == "" then 0 else Count(m[..|m| - 1], c) + if m[|m| - 1] == c then 1 else 0
  }

  /** No more parentheses closed than opened up to any place, and all closed at the end. */
  ghost predicate Nested(m: string) {
    && (forall k :: 0 <= k <= |m| ==> Count(m[..k], ')') <= Count(m[..k], '('))
    && Count(m, '(') == Count(m, ')')
  }

  predicate NoComment(m: string) {
    forall k :: 0 <= k < |m| - 1 ==> m[k] != '/' || m[k + 1] != '*'
  }

  lemma CountNext(m: string, k: nat, c: char)
    requires k < |m|
    ensures Count(m[..k + 1], c) == Count(m[..k], c) + if m[k] == c then 1 else 0
  {
    assert m[..k + 1][..k] == m[..k] && m[..k + 1][k] == m[k];
  }

  /** From `i` on, the value is safe given the parentheses open there. */
  ghost predicate SafeRest(m: string, i: nat) {
    && (forall k :: i <= k < |m| ==> m[k] !in "{};<>\\'\"@" && (m[k] == '/' && k + 1 < |m| ==> m[k + 1] != '*'))
    && (forall k :: i <= k <= |m| ==> Count(m[..k], ')') <= Count(m[..k], '('))
    && Count(m, '(') == Count(m, ')')
  }

  lemma {:induction false} SafeFromIff(m: string, i: nat, depth: nat)
    requires i <= |m| && Count(m[..i], '(') == Count(m[..i], ')') + depth
    ensures SafeFrom(m, i, depth) <==> SafeRest(m, i)
    decreases |m| - i
  {
    hide Count;
    if i == |m| {
      assert m[..i] == m;
    } else {
      CountNext(m, i, '(');
      CountNext(m, i, ')');
      if m[i] == ')' && depth == 0 {
        assert Count(m[..i + 1], ')') > Count(m[..i + 1], '(');
      } else {
        SafeFromIff(m, i + 1, if m[i] == '(' then depth + 1 else if m[i] == ')' then depth - 1 else depth);
        RestNext(m, i);
      }
    }
  }

  lemma RestNext(m: string, i: nat)
    requires i < |m| && Count(m[..i], ')') <= Count(m[..i], '(')
    ensures SafeRest(m, i) <==> && m[i] !in "{};<>\\'\"@" && (m[i] == '/' && i + 1 < |m| ==> m[i + 1] != '*')
                                && SafeRest(m, i + 1)
  {
    hide Count;
  }

  /**
   A value is safe exactly when it holds none of the characters that could end or
   escape it, no comment, and nested parentheses.
   */
  lemma SafeIff(m: string)
    ensures SafeFrom(m, 0, 0)
            <==> (forall k :: 0 <= k < |m| ==> m[k] !in "{};<>\\'\"@") && NoComment(m) && Nested(m)
  {
    hide Count;
    assert m[..0] == "" && Count("", '(') == 0 && Count("", ')') == 0 by { CountNothing(); }
    SafeFromIff(m, 0, 0);
  }

  lemma CountNothing()
    ensures Count("", '(') == 0 && Count("", ')') == 0
  {}

  // ---- the scope of a combined sheet --------------------------------------------------------------

  predicate AllBlank(x: string) {
    forall k :: 0 <= k < |x| ==> L.IsBlank(x[k])
  }

  predicate Spells(m: string, word: string) {
    |m| == |word| && forall k :: 0 <= k < |m| ==> LowerChar(m[k]) == word[k]
  }

  lemma {:induction false} TrimmedIs(a: string, m: string, b: string)
    requires AllBlank(a) && AllBlank(b) && (m != "" ==> !L.IsBlank(m[0]) && !L.IsBlank(m[|m| - 1]))
    ensures Trimmed(a + m + b) == m
    decreases |a| + |b|
  {
    var s := a + m + b;
    if a != "" {
      TrimmedIs(a[1..], m, b);
      assert s[0] == a[0] && s[1..] == a[1..] + m + b;
    } else if b != "" {
      TrimmedIs(a, m, b[..|b| - 1]);
      assert s[|s| - 1] == b[|b| - 1] && s[..|s| - 1] == a + m + b[..|b| - 1];
      if m == "" {
        assert s == b;
        TrimmedIs("", "", b[1..]);
        assert "" + "" + b[1..] == b[1..];
      } else {
        assert s[0] == m[0];
      }
    } else {
      assert s == m;
    }
  }

  /** Without its blanks, "all" and "screen" mean no condition at all; anything else is kept when it is safe. */
  lemma ScopeIs(a: string, m: string, b: string)
    requires AllBlank(a) && AllBlank(b) && (m != "" ==> !L.IsBlank(m[0]) && !L.IsBlank(m[|m| - 1]))
    ensures CombinedSheetMediaScope(a + m + b)
            == if m == "" || Spells(m, "all") || Spells(m, "screen") then Some("")
               else if SafeFrom(m, 0, 0) then Some(m) else None
  {
    hide SafeFrom, Trimmed;
    TrimmedIs(a, m, b);
  }

  // ---- conditions that are no media queries ---------------------------------------------------------

  /** A cascade layer, named or not, or a feature query, in any letter case. */
  lemma NonMediaIff(word: string, rest: string)
    requires (|word| == 5 || |word| == 8) && forall k :: 0 <= k < |word| ==> 'a' <= LowerChar(word[k]) <= 'z'
    requires rest != "" ==> !('a' <= LowerChar(rest[0]) <= 'z')
    ensures NonMediaCondition(word + rest)
            <==> || (Spells(word, "layer") && (rest == "" || rest[0] == '(' || rest[0] == '/' || IsSpace(rest[0])))
                 || (Spells(word, "supports") && rest != "" && rest[0] == '(')
  {
    var m := word + rest;
    assert forall k :: 0 <= k < |word| ==> m[k] == word[k];
    assert rest != "" ==> m[|word|] == rest[0];
    if |word| == 8 {
      if StartsWithCi(m, "layer") { assert m[5] == word[5]; }
      assert StartsWithCi(m, "supports") <==> Spells(word, "supports");
    } else {
      assert StartsWithCi(m, "layer") <==> Spells(word, "layer");
      if rest == "" { assert |m| == 5; } else { assert m[5] == rest[0] && LowerChar("supports"[5]) == 'r'; }
    }
  }

  /** What an inlined sheet is wrapped in. */
  lemma WrapperIs(media: string, css: string)
    requires media != ""
    ensures var w := Wrapped(media, css);
            && "@media " + media + " {" <= w && |w| == |media| + |css| + 13
            && w[|w| - 3..] == "\n}\n" && w[|media| + 10..|media| + 10 + |css|] == css
  {
    var w, p := Wrapped(media, css), "@media " + media + " {";
    assert w == p + ("\n" + css + "\n}\n");
  }
}
