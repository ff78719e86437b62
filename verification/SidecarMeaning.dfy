/**
 The header gate said of the lines themselves: which names and values pass, where
 a nonce is looked for, what Vary may list, and how the stored block is laid out.
 */
module SidecarMeaning {
  import opened Ascii
  import opened HttpText
  import opened Sidecar

  // ---- one line -----------------------------------------------------------------------------------

  /** A field name is a token of section 5.6.2 of RFC 9110. */
  predicate TokenName(name: string) {
    && name != ""
    && forall k :: 0 <= k < |name| ==>
         'a' <= name[k] <= 'z' || 'A' <= name[k] <= 'Z' || '0' <= name[k] <= '9' || name[k] in "!#$%&'*+-.^_`|~"
  }

  predicate OneLine(value: string) {
    forall k :: 0 <= k < |value| ==> value[k] as int != 0 && value[k] as int != 10 && value[k] as int != 13
  }

  /** The text, whose letters are lower case, stands in `s` at `k` in any letter case. */
  ghost predicate Says(s: string, text: string, k: nat) {
    k + |text| <= |s| && forall j :: 0 <= j < |text| ==> LowerChar(s[k + j]) == text[j]
  }

  lemma SaysIff(s: string, text: string, k: nat)
    ensures OccursInAnyCase(s, text, k) <==> Says(s, text, k)
  {
    if k + |text| <= |s| {
      var x := s[k..k + |text|];
      assert forall j :: 0 <= j < |text| ==> x[j] == s[k + j];
    }
  }

  /** A policy with a nonce. */
  ghost predicate PolicyNonce(f: Field) {
    Lower(f.name) == "content-security-policy" && exists k :: Says(f.value, "nonce-", k)
  }

  ghost predicate LinkNonce(f: Field) {
    Lower(f.name) == "link" && LinkNonceFrom(f.value, 0, Plain)
  }

  /** The line passes: no nonce, a proper name and value, a name the cache knows, and what is carried not too long. */
  ghost predicate Passes(f: Field) {
    var n := Lower(f.name);
    && !PolicyNonce(f) && !LinkNonce(f) && TokenName(f.name) && OneLine(f.value)
    && (n in REPRODUCED || n in STAMPED || (n in ALLOWLIST && |f.name| <= 255 && |f.value| <= 65535))
  }

  lemma PolicyNonceIff(f: Field)
    requires Lower(f.name) == "content-security-policy"
    ensures CspNonceFrom(f.value, 0) <==> PolicyNonce(f)
  {
    CspNonceMeans(f.value, 0);
    forall k: nat ensures OccursInAnyCase(f.value, "nonce-", k) <==> Says(f.value, "nonce-", k) {
      SaysIff(f.value, "nonce-", k);
    }
    if k: nat :| Says(f.value, "nonce-", k) { assert OccursInAnyCase(f.value, "nonce-", k); }
    if k: nat :| OccursInAnyCase(f.value, "nonce-", k) { assert Says(f.value, "nonce-", k); }
  }

  lemma SyntaxIff(f: Field)
    ensures IsFieldName(f.name) <==> TokenName(f.name)
    ensures IsStorable(f.value) <==> OneLine(f.value)
  {}

  /** A line is refused exactly when it does not pass. */
  lemma RefusedIff(f: Field)
    ensures Decide(f).Refuse? <==> !Passes(f)
    ensures Decide(f) == Refuse(NonceCsp) <==> PolicyNonce(f)
    ensures Decide(f) == Refuse(NonceLink) <==> LinkNonce(f)
  {
    hide ALLOWLIST, REPRODUCED, STAMPED, CspNonceFrom, LinkNonceFrom, IsFieldName, IsStorable, TokenName, OneLine, Says;
    if Lower(f.name) == "content-security-policy" { PolicyNonceIff(f); }
    SyntaxIff(f);
    assert "link" != "content-security-policy";
  }

  // ---- nonces in Link values ------------------------------------------------------------------------

  /** A Link value: targets in angle brackets, quoted strings, and the rest. */
  datatype Link =
    | End
    | Other(c: char, rest: Link)
    | Target(body: string, rest: Link)
    | Str(body: string, rest: Link)

  function Text(l: Link): string {
    match l
    case End => ""
    case Other(c, rest) => [c] + Text(rest)
    case Target(body, rest) => ("<" + body + ">") + Text(rest)
    case Str(body, rest) => ("\"" + body + "\"") + Text(rest)
  }

  /** Escape pairs, and characters other than a backslash and '"'. */
  predicate StringBody(x: string) {
    if x == "" then true
    else if x[0] == '\\' then |x| >= 2 && StringBody(x[2..])
    else x[0] != '"' && StringBody(x[1..])
  }

  predicate Fits(l: Link) {
    match l
    case End => true
    case Other(c, rest) => c != '<' && c != '"' && Fits(rest)
    case Target(body, rest) => '>' !in body && Fits(rest)
    case Str(body, rest) => StringBody(body) && Fits(rest)
  }

  /** Position `k` of the text lies in a target, before its '>'. */
  predicate InTarget(l: Link, k: nat) {
    match l
    case End => false
    case Other(c, rest) => k >= 1 && InTarget(rest, k - 1)
    case Target(body, rest) => k <= |body| || (k >= |body| + 2 && InTarget(rest, k - |body| - 2))
    case Str(body, rest) => k >= |body| + 2 && InTarget(rest, k - |body| - 2)
  }

  /** "nonce" starts at or after `i`, outside the targets of `l`, whose text ends `s`. */
  ghost predicate NonceOutside(s: string, i: nat, l: Link) {
    exists k :: k >= i && Says(s, "nonce", k) && !InTarget(l, k - i)
  }

  lemma LinkTurn(s: string, i: nat, mode: LinkMode)
    requires i < |s|
    ensures var (next, skip) := LinkStep(s, i, mode);
            LinkNonceFrom(s, i, mode)
            == ((next != LinkMode.Target && Says(s, "nonce", i + skip)) || LinkNonceFrom(s, i + skip + 1, next))
  {
    var (next, skip) := LinkStep(s, i, mode);
    SaysIff(s, "nonce", i + skip);
  }

  /** Inside a target nothing is looked at. */
  lemma {:induction false} TargetRuns(s: string, i: nat, body: string, rest: string)
    requires '>' !in body && i <= |s| && s[i..] == body + ">" + rest
    ensures LinkNonceFrom(s, i, LinkMode.Target)
            == (Says(s, "nonce", i + |body|) || LinkNonceFrom(s, i + |body| + 1, Plain))
    decreases |body|
  {
    hide LinkNonceFrom;
    assert s[i] == s[i..][0];
    LinkTurn(s, i, LinkMode.Target);
    if body != "" {
      assert s[i] == body[0] && body[0] in body;
      assert s[i + 1..] == s[i..][1..] == body[1..] + ">" + rest;
      TargetRuns(s, i + 1, body[1..], rest);
    }
  }

  /** Inside a string every character is looked at but the backslashes, none of which starts "nonce". */
  lemma {:induction false} StringRuns(s: string, i: nat, body: string, rest: string)
    requires StringBody(body) && i <= |s| && s[i..] == body + "\"" + rest
    ensures LinkNonceFrom(s, i, Quoted)
            <==> (exists k :: i <= k <= i + |body| && Says(s, "nonce", k)) || LinkNonceFrom(s, i + |body| + 1, Plain)
    decreases |body|
  {
    hide LinkNonceFrom, Says;
    assert s[i] == s[i..][0];
    LinkTurn(s, i, Quoted);
    if body != "" {
      var n := if body[0] == '\\' then 2 else 1;
      assert s[i] == body[0];
      assert s[i + n..] == s[i..][n..] == body[n..] + "\"" + rest;
      StringRuns(s, i + n, body[n..], rest);
      if n == 2 { NotAtBackslash(s, i); }
    }
  }

  lemma NotAtBackslash(s: string, i: nat)
    requires i < |s| && s[i] == '\\'
    ensures !Says(s, "nonce", i)
  {
    assert "nonce"[0] == 'n' && LowerChar(s[i + 0]) == '\\';
  }

  /** The word starts in the first piece, or later. */
  lemma OutsideLater(s: string, i: nat, l: Link, n: nat, rest: Link)
    requires forall k :: k >= n ==> InTarget(l, k) == InTarget(rest, k - n)
    ensures NonceOutside(s, i, l)
            <==> || (exists k :: i <= k < i + n && Says(s, "nonce", k) && !InTarget(l, k - i))
                 || NonceOutside(s, i + n, rest)
  {
    hide Says, InTarget;
    if k :| k >= i && Says(s, "nonce", k) && !InTarget(l, k - i) {
      if k >= i + n { assert !InTarget(rest, k - i - n); }
    }
    if k :| k >= i + n && Says(s, "nonce", k) && !InTarget(rest, k - (i + n)) {
      assert !InTarget(l, k - i);
    }
  }

  lemma OtherPiece(s: string, i: nat, l: Link)
    requires l.Other? && Fits(l) && i < |s| && s[i] == l.c
    requires LinkNonceFrom(s, i + 1, Plain) <==> NonceOutside(s, i + 1, l.rest)
    ensures LinkNonceFrom(s, i, Plain) <==> NonceOutside(s, i, l)
  {
    hide LinkNonceFrom, Says;
    LinkTurn(s, i, Plain);
    OutsideLater(s, i, l, 1, l.rest);
  }

  lemma TargetPiece(s: string, i: nat, l: Link)
    requires l.Target? && Fits(l) && i < |s| && s[i] == '<' && s[i + 1..] == l.body + ">" + Text(l.rest)
    requires var n := |l.body| + 2; LinkNonceFrom(s, i + n, Plain) <==> NonceOutside(s, i + n, l.rest)
    ensures LinkNonceFrom(s, i, Plain) <==> NonceOutside(s, i, l)
  {
    hide LinkNonceFrom, Says, Text;
    LinkTurn(s, i, Plain);
    TargetRuns(s, i + 1, l.body, Text(l.rest));
    OutsideLater(s, i, l, |l.body| + 2, l.rest);
  }

  lemma StringPiece(s: string, i: nat, l: Link)
    requires l.Str? && Fits(l) && i < |s| && s[i] == '"' && s[i + 1..] == l.body + "\"" + Text(l.rest)
    requires var n := |l.body| + 2; LinkNonceFrom(s, i + n, Plain) <==> NonceOutside(s, i + n, l.rest)
    ensures LinkNonceFrom(s, i, Plain) <==> NonceOutside(s, i, l)
  {
    hide LinkNonceFrom, Says, Text, StringBody;
    LinkTurn(s, i, Plain);
    StringRuns(s, i + 1, l.body, Text(l.rest));
    OutsideLater(s, i, l, |l.body| + 2, l.rest);
  }

  /** A Link value has a nonce exactly when the word starts outside its targets. */
  lemma {:induction false} LinkNonceIff(s: string, i: nat, l: Link)
    requires Fits(l) && i <= |s| && s[i..] == Text(l)
    ensures LinkNonceFrom(s, i, Plain) <==> NonceOutside(s, i, l)
    decreases l
  {
    hide LinkNonceFrom, Says, NonceOutside;
    match l
    case End => NothingSaid(s, i);
    case Other(c, rest) =>
      assert s[i] == s[i..][0] == c && s[i + 1..] == s[i..][1..] == Text(rest);
      LinkNonceIff(s, i + 1, rest);
      OtherPiece(s, i, l);
    case Target(body, rest) =>
      var n := |body| + 2;
      assert s[i] == s[i..][0] == '<';
      assert s[i + 1..] == s[i..][1..] == body + ">" + Text(rest) && s[i + n..] == s[i..][n..] == Text(rest);
      LinkNonceIff(s, i + n, rest);
      TargetPiece(s, i, l);
    case Str(body, rest) =>
      var n := |body| + 2;
      assert s[i] == s[i..][0] == '"';
      assert s[i + 1..] == s[i..][1..] == body + "\"" + Text(rest) && s[i + n..] == s[i..][n..] == Text(rest);
      LinkNonceIff(s, i + n, rest);
      StringPiece(s, i, l);
  }

  lemma NothingSaid(s: string, i: nat)
    requires i == |s|
    ensures !LinkNonceFrom(s, i, Plain) && !NonceOutside(s, i, End)
  {
    hide Says;
    forall k | k >= i ensures !Says(s, "nonce", k) { NotBeyond(s, k); }
    NothingLeft(s, i);
  }

  lemma NotBeyond(s: string, k: nat)
    requires k >= |s|
    ensures !Says(s, "nonce", k)
  {}

  lemma NothingLeft(s: string, i: nat)
    requires i >= |s|
    ensures !LinkNonceFrom(s, i, Plain) && LinkNonceFrom(s, i, LinkMode.Target)
  {}

  // ---- Vary -------------------------------------------------------------------------------------------

  /** A member of Vary the cache key covers. */
  predicate Covered(member: string) {
    member == "" || Lower(member) in ["accept-encoding", "user-agent", "accept", "save-data"]
  }

  lemma CoveredIff(member: string)
    ensures VaryCovered(member) <==> Covered(member)
  {
    if member == "*" { assert Lower(member)[0] == '*' && |Lower(member)| == 1; }
  }

  ghost predicate AllCovered(val: string) {
    forall m :: m in ListMembers(val) ==> Covered(m)
  }

  lemma StorableIff(val: string)
    ensures VaryFrom(val, false).storable <==> AllCovered(val)
  {
    hide Covered, VaryCovered, ListMembers, VaryFrom;
    VaryMeans(val, false);
    forall m ensures VaryCovered(m) <==> Covered(m) { CoveredIff(m); }
  }

  /** Every Vary line of proper syntax lists covered names only. */
  ghost predicate VaryLinesCovered(headers: seq<Field>) {
    forall k :: 0 <= k < |headers| && CountsForVary(headers[k]) ==> AllCovered(headers[k].value)
  }

  lemma FirstCovered(val: string)
    ensures var comma := Find(val, ',', 0);
            var rest := if comma < |val| then val[comma + 1..] else "";
            AllCovered(val) <==> val == "" || (Covered(Trim(val[..comma])) && AllCovered(rest))
  {
    hide Trim, Covered;
    if val != "" {
      var comma := Find(val, ',', 0);
      var first, more := Trim(val[..comma]), ListMembers(if comma < |val| then val[comma + 1..] else "");
      assert ListMembers(val) == [first] + more;
      assert forall m :: m in [first] + more <==> m == first || m in more;
    }
  }

  /** Joined by a comma, lists are covered when both are. */
  lemma {:induction false} CoveredTogether(a: string, b: string)
    ensures AllCovered(a + "," + b) <==> AllCovered(a) && AllCovered(b)
    decreases |a|
  {
    hide AllCovered, Trim;
    var s, comma := a + "," + b, Find(a, ',', 0);
    forall j | 0 <= j < comma ensures s[j] != ',' { assert s[j] == a[j]; }
    assert s[comma] == ',' by { assert comma < |a| ==> s[comma] == a[comma]; }
    FindIn(s, ',', comma, 0);
    assert s[..comma] == a[..comma];
    FirstCovered(s);
    FirstCovered(a);
    assert AllCovered("") by { NothingListed(); }
    if comma == |a| {
      assert s[comma + 1..] == b && a[..comma] == a;
      if a == "" { assert Covered(Trim("")) by { TrimEmpty(); } }
    } else {
      var rest := a[comma + 1..];
      assert s[comma + 1..] == rest + "," + b;
      CoveredTogether(rest, b);
    }
  }

  lemma TrimEmpty()
    ensures Covered(Trim(""))
  {}

  /** The Vary lines judged together are judged line by line. */
  lemma {:induction false} VaryOfLines(headers: seq<Field>)
    ensures AllCovered(TallyOf(headers).vary) <==> VaryLinesCovered(headers)
    decreases |headers|
  {
    hide Decide, CountsForVary, AllCovered;
    if headers == [] {
      assert AllCovered("") by { NothingListed(); }
    } else {
      var n := |headers| - 1;
      var front, f := headers[..n], headers[n];
      VaryOfLines(front);
      var v := TallyOf(front).vary;
      assert AllCovered("") by { NothingListed(); }
      if CountsForVary(f) && v != "" { CoveredTogether(v, f.value); }
      assert forall k :: 0 <= k < n ==> headers[k] == front[k];
    }
  }

  lemma NothingListed()
    ensures AllCovered("")
  {}

  // ---- the verdict --------------------------------------------------------------------------------------

  /** Three bytes, and for each line three more, its name and its value. */
  function BlockSize(lines: seq<Field>): nat {
    if lines == [] then 3 else 3 + |lines[0].name| + |lines[0].value| + BlockSize(lines[1..])
  }

  lemma {:induction false} SizeIs(lines: seq<Field>, last: Field)
    ensures BlockSize(lines + [last]) == BlockSize(lines) + 3 + |last.name| + |last.value|
    decreases |lines|
  {
    if lines != [] {
      SizeIs(lines[1..], last);
      assert (lines + [last])[1..] == lines[1..] + [last];
    } else {
      assert (lines + [last])[1..] == [];
    }
  }

  lemma {:induction false} BlockSizeIs(lines: seq<Field>)
    ensures EncodedSize(lines) == BlockSize(lines)
    decreases |lines|
  {
    if lines != [] {
      var front, last := lines[..|lines| - 1], lines[|lines| - 1];
      BlockSizeIs(front);
      SizeIs(front, last);
      assert front + [last] == lines;
    }
  }

  /** A response is eligible exactly when each line passes, Vary is covered and the lines to carry fit in 8192 bytes. */
  lemma EligibleIff(headers: seq<Field>)
    ensures Classified(headers).verdict == SwapEligible
            <==> && (forall k :: 0 <= k < |headers| ==> Passes(headers[k]))
                 && VaryLinesCovered(headers)
                 && var kept := Allowlisted(headers);
                 (kept == [] || (|kept| <= 65535 && BlockSize(kept) <= 8192))
  {
    hide Decide, Passes, VaryFrom, AllCovered, EncodedSize, BlockSize, TallyOf, Classified, Allowlisted,
      CountsForVary, LinkNonceFrom;
    var t := TallyOf(headers);
    SwapEligibleIff(headers);
    StorableIff(t.vary);
    VaryOfLines(headers);
    NoVaryLines(headers);
    AllPass(headers);
    BlockSizeIs(t.carried);
    if forall k :: 0 <= k < |headers| ==> Passes(headers[k]) {
      forall f | f in headers ensures !Decide(f).Refuse? { RefusedIff(f); }
      CarriedAreAllowlisted(headers);
    }
  }

  lemma AllPass(headers: seq<Field>)
    ensures (forall r :: !Refused(headers, r)) <==> forall k :: 0 <= k < |headers| ==> Passes(headers[k])
  {
    hide Decide, Passes;
    forall k | 0 <= k < |headers| ensures Decide(headers[k]).Refuse? <==> !Passes(headers[k]) {
      RefusedIff(headers[k]);
    }
    forall k | 0 <= k < |headers| && Decide(headers[k]).Refuse?
      ensures Refused(headers, Decide(headers[k]).reason)
    {}
  }

  /** A response is never optimized exactly when a policy or a Link value carries a nonce. */
  lemma NeverIff(headers: seq<Field>)
    ensures Classified(headers).verdict == NeverOptimized
            <==> exists k :: 0 <= k < |headers| && (PolicyNonce(headers[k]) || LinkNonce(headers[k]))
  {
    hide Decide, PolicyNonce, LinkNonce, Classified;
    NeverOptimizedIff(headers);
    forall k | 0 <= k < |headers|
      ensures Decide(headers[k]) == Refuse(NonceCsp) <==> PolicyNonce(headers[k])
      ensures Decide(headers[k]) == Refuse(NonceLink) <==> LinkNonce(headers[k])
    {
      RefusedIff(headers[k]);
    }
  }

  // ---- the block, byte by byte -----------------------------------------------------------------------------

  /** Version 1, the number of lines, then the lines. */
  lemma BlockLayout(lines: seq<Field>)
    requires |lines| < 65536 && forall f | f in lines :: Encodable(f)
    ensures var p := Encoded(lines);
            && |p| == BlockSize(lines) >= 3 && p[0] as int == 1 && p[1] as int * 256 + p[2] as int == |lines|
            && p[3..] == EncodedFields(lines)
  {
    hide EncodedFields, EncodedSize, BlockSize;
    SizeIsLength(lines);
    BlockSizeIs(lines);
  }

  /** Each line: one byte for the length of its name, two for that of its value, the name, the value. */
  lemma LineLayout(f: Field, rest: seq<Field>)
    requires Encodable(f) && forall g | g in rest :: Encodable(g)
    ensures forall g | g in [f] + rest :: Encodable(g)
    ensures var p := EncodedFields([f] + rest);
            && |p| >= 3 + |f.name| + |f.value| && p[0] as int == |f.name|
            && p[1] as int * 256 + p[2] as int == |f.value|
            && p[3..3 + |f.name|] == f.name && p[3 + |f.name|..3 + |f.name| + |f.value|] == f.value
            && p[3 + |f.name| + |f.value|..] == EncodedFields(rest)
  {
    assert ([f] + rest)[1..] == rest;
    var e := EncodedField(f);
    assert |e| == 3 + |f.name| + |f.value|;
    assert EncodedFields([f] + rest) == e + EncodedFields(rest);
  }
}
