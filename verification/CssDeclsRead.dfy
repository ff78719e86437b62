/**
 ParseBlockDecls on structured text: for every list of declarations, each a name
 and a structured value, the block they make is read as exactly those names and
 values.
 */
module CssDeclsRead {
  import opened CssChars
  import L = CssLexemes
  import opened CssGrammar
  import opened CssDecls

  /** No brace outside brackets. */
  predicate NoBrace(b: Bits) {
    match b
    case End => true
    case Char(c, rest) => NoBrace(rest)
    case Escape(c, rest) => NoBrace(rest)
    case Str(quote, body, rest) => NoBrace(rest)
    case Url(word, body, rest) => NoBrace(rest)
    case Nest(open, inner, close, rest) => open != '{' && NoBrace(rest)
  }

  /** In plain text, with the bookkeeping of the reader in order. */
  ghost predicate Plainly(s: string, rd: Reader) {
    rd.lex.Normal? && rd.i <= |s| && -1 <= rd.colon < rd.i
  }

  function Past(rd: Reader, x: string): Reader {
    rd.(i := rd.i + |x|)
  }

  lemma ScanNext(s: string, rd: Reader, n: Reader)
    requires rd.i < |s| && -1 <= rd.colon < rd.i && !Stops(s, rd) && Next(s, rd) == n
    ensures Scan(s, rd) == Scan(s, n)
  {
    hide Next;
  }

  // ---- lexemes --------------------------------------------------------------------------------

  lemma BodyNext(s: string, rd: Reader, x: string, quote: char)
    requires -1 <= rd.colon < rd.i && Reads(s, rd.i, x) && x != "" && (if x[0] == '\\' then |x| == 2 else |x| == 1)
    requires match rd.lex case InSingle => quote == '\'' case InDouble => quote == '"' case _ => false
    ensures Scan(s, rd) == Scan(s, Past(rd, x).(lex := if x[0] == quote then Normal else rd.lex))
  {
    assert s[rd.i + 0] == x[0];
  }

  lemma {:induction false} BodyScan(s: string, rd: Reader, body: string, quote: char)
    requires -1 <= rd.colon < rd.i && L.Body(body, quote) && Reads(s, rd.i, body + [quote])
    requires match rd.lex case InSingle => quote == '\'' case InDouble => quote == '"' case _ => false
    ensures Scan(s, rd) == Scan(s, Past(rd, body + [quote]).(lex := Normal))
    decreases |body|
  {
    hide Scan;
    if body == "" {
      assert body + [quote] == [quote];
      BodyNext(s, rd, [quote], quote);
    } else {
      var n := if body[0] == '\\' then 2 else 1;
      var x := body[..n];
      assert body + [quote] == x + (body[n..] + [quote]);
      ReadsSplit(s, rd.i, x, body[n..] + [quote]);
      BodyNext(s, rd, x, quote);
      BodyScan(s, Past(rd, x), body[n..], quote);
    }
  }

  lemma NotUrlAt(s: string, i: nat)
    requires i < |s| && s[i] != 'u' && s[i] != 'U'
    ensures !UrlAt(s, i)
  {}

  lemma StringScan(s: string, rd: Reader, quote: char, body: string)
    requires Plainly(s, rd) && (quote == '"' || quote == '\'') && L.Body(body, quote)
    requires Reads(s, rd.i, [quote] + body + [quote])
    ensures Scan(s, rd) == Scan(s, Past(rd, [quote] + body + [quote]))
  {
    hide L.Body, UrlAt, Scan, FedIsContent, FedStack, CloseEnd;
    assert [quote] + body + [quote] == [quote] + (body + [quote]);
    ReadsSplit(s, rd.i, [quote], body + [quote]);
    assert s[rd.i + 0] == [quote][0];
    NotUrlAt(s, rd.i);
    var n := Past(rd, [quote]).(lex := if quote == '"' then InDouble else InSingle);
    ScanNext(s, rd, n);
    BodyScan(s, n, body, quote);
  }

  lemma PairScan(s: string, rd: Reader, c: char)
    requires Plainly(s, rd) && Reads(s, rd.i, ['\\', c])
    ensures Scan(s, rd) == Scan(s, Past(rd, ['\\', c]))
  {
    hide UrlAt;
    assert s[rd.i + 0] == ['\\', c][0];
    NotUrlAt(s, rd.i);
    ScanNext(s, rd, Past(rd, ['\\', c]));
  }

  lemma UrlScan(s: string, rd: Reader, word: string, body: string)
    requires Plainly(s, rd) && |word| == 3 && L.EndsInUrl(word) && L.Body(body, ')') && !QuoteFirst(body + ")")
    requires Reads(s, rd.i, word + "(" + body + ")")
    ensures Scan(s, rd) == Scan(s, Past(rd, word + "(" + body + ")"))
  {
    hide L.Body, QuoteAhead, QuoteFirst, Scan, FedIsContent, FedStack, CloseEnd;
    var x := word + "(" + body + ")";
    assert x == (word + "(") + (body + ")");
    ReadsSplit(s, rd.i, word + "(", body + ")");
    assert s[rd.i + 0] == x[0] && s[rd.i + 1] == x[1] && s[rd.i + 2] == x[2] && s[rd.i + 3] == x[3];
    assert (body + ")")[|body|] == ')';
    QuoteAheadIs(s, rd.i + 4, body + ")");
    CloseEndReads(s, rd.i + 4, body, ')');
    ScanNext(s, rd, Past(rd, x));
  }

  // ---- structure ------------------------------------------------------------------------------

  /** Structured text at `i`, and after it the end, a ':' or ';', or a closing bracket. */
  ghost predicate Stands(s: string, i: nat, pre: string, b: Bits, deep: bool) {
    && Reads(s, i, Text(b)) && Fits(Never, pre, b, deep, true)
    && (i + |Text(b)| < |s| ==> s[i + |Text(b)|] in ":;)]}")
  }

  lemma StandsRest(s: string, i: nat, pre: string, x: string, rest: Bits, deep: bool)
    requires Reads(s, i, x + Text(rest)) && Fits(Never, pre + x, rest, deep, true)
    requires i + |x + Text(rest)| < |s| ==> s[i + |x + Text(rest)|] in ":;)]}"
    ensures Stands(s, i + |x|, pre + x, rest, deep)
  {
    hide Fits;
    ReadsSplit(s, i, x, Text(rest));
  }

  /** A letter of "url" after its first can only be a plain character. */
  lemma LetterHere(s: string, i: nat, pre: string, b: Bits, deep: bool)
    requires Stands(s, i, pre, b, deep) && i < |s| && s[i] in "rRlL"
    ensures b.Char? && b.c == s[i] && Stands(s, i + 1, pre + [s[i]], b.rest, deep)
  {
    hide L.Body, QuoteFirst;
    assert Text(b) != "" ==> s[i + 0] == Text(b)[0];
    if b.Char? { StandsRest(s, i, pre, [b.c], b.rest, deep); }
  }

  /** A '(' after "url" is followed by a quote. */
  lemma ParenHere(s: string, i: nat, pre: string, b: Bits, deep: bool)
    requires Stands(s, i, pre, b, deep) && i < |s| && s[i] == '(' && L.EndsInUrl(pre)
    ensures QuoteAhead(s, i + 1)
  {
    hide L.Body, QuoteFirst, QuoteAhead;
    assert Text(b) != "" ==> s[i + 0] == Text(b)[0];
    assert b.Nest?;
    var inner, close := Text(b.inner), [b.close];
    assert Text(b) == "(" + ((inner + close) + Text(b.rest));
    ReadsSplit(s, i, "(", (inner + close) + Text(b.rest));
    ReadsSplit(s, i + 1, inner + close, Text(b.rest));
    assert (inner + close)[|inner|] == ')';
    QuoteAheadIs(s, i + 1, inner + close);
  }

  /** So a plain character starts no url(). */
  lemma NoUrlAtChar(s: string, i: nat, pre: string, b: Bits, deep: bool)
    requires Stands(s, i, pre, b, deep) && b.Char?
    ensures !UrlAt(s, i)
  {
    hide QuoteAhead, Stands, Fits;
    assert Stands(s, i + 1, pre + [b.c], b.rest, deep) && s[i] == b.c by { CharHere(s, i, pre, b, deep); }
    if UrlAt(s, i) {
      LetterHere(s, i + 1, pre + [b.c], b.rest, deep);
      LetterHere(s, i + 2, pre + [b.c] + [s[i + 1]], b.rest.rest, deep);
      ParenHere(s, i + 3, pre + [b.c] + [s[i + 1]] + [s[i + 2]], b.rest.rest.rest, deep);
    }
  }

  lemma CharHere(s: string, i: nat, pre: string, b: Bits, deep: bool)
    requires Stands(s, i, pre, b, deep) && b.Char?
    ensures i < |s| && s[i] == b.c && Stands(s, i + 1, pre + [b.c], b.rest, deep)
  {
    assert s[i + 0] == Text(b)[0];
    StandsRest(s, i, pre, [b.c], b.rest, deep);
  }

  /** The structure lies before the reader. */
  ghost predicate Ready(s: string, rd: Reader, pre: string, b: Bits) {
    && Plainly(s, rd) && Stands(s, rd.i, pre, b, rd.stack != "")
    && (rd.stack == "" ==> NoBrace(b) && (rd.colon >= 0 || NoColon(b)))
  }

  lemma CharScan(s: string, rd: Reader, pre: string, b: Bits)
    requires Ready(s, rd, pre, b) && b.Char?
    ensures Scan(s, rd) == Scan(s, Past(rd, [b.c]))
  {
    hide UrlAt, Stands;
    CharHere(s, rd.i, pre, b, rd.stack != "");
    NoUrlAtChar(s, rd.i, pre, b, rd.stack != "");
    assert b.c !in "\\'\"()[]{}" && (b.c == ';' ==> rd.stack != "") by { CharFits(s, rd.i, pre, b, rd.stack != ""); }
    ScanNext(s, rd, Past(rd, [b.c]));
  }

  lemma CharFits(s: string, i: nat, pre: string, b: Bits, deep: bool)
    requires Stands(s, i, pre, b, deep) && b.Char?
    ensures b.c !in "\\'\"()[]{}" && (b.c == ';' ==> deep)
  {}

  lemma NoText(b: Bits)
    requires b.End?
    ensures Text(b) == ""
  {}

  /** Structured text is passed over whole. */
  lemma {:induction false} BitsScan(s: string, rd: Reader, pre: string, b: Bits)
    requires Ready(s, rd, pre, b)
    ensures Scan(s, rd) == Scan(s, Past(rd, Text(b)))
    decreases b, 2
  {
    hide Scan, Ready, Text;
    if b.End? {
      NoText(b);
    } else {
      var x := FirstScan(s, rd, pre, b);
      BitsScan(s, Past(rd, x), pre + x, b.rest);
      assert Past(Past(rd, x), Text(b.rest)) == Past(rd, Text(b));
    }
  }

  /** What the reader stands at, and what it stands at after the first part `x`. */
  lemma Advance(s: string, rd: Reader, pre: string, b: Bits, x: string)
    requires Ready(s, rd, pre, b) && !b.End? && Text(b) == x + Text(b.rest)
    requires Fits(Never, pre + x, b.rest, rd.stack != "", true)
    ensures Reads(s, rd.i, x) && Ready(s, Past(rd, x), pre + x, b.rest)
  {
    hide Fits, Text;
    ReadsSplit(s, rd.i, x, Text(b.rest));
    StandsRest(s, rd.i, pre, x, b.rest, rd.stack != "");
  }

  lemma ReadyFits(s: string, rd: Reader, pre: string, b: Bits)
    requires Ready(s, rd, pre, b)
    ensures Plainly(s, rd) && Fits(Never, pre, b, rd.stack != "", true)
  {}

  lemma {:induction false} FirstScan(s: string, rd: Reader, pre: string, b: Bits) returns (x: string)
    requires Ready(s, rd, pre, b) && !b.End?
    ensures Text(b) == x + Text(b.rest) && Scan(s, rd) == Scan(s, Past(rd, x))
    ensures Ready(s, Past(rd, x), pre + x, b.rest)
    decreases b, 1
  {
    hide Scan, QuoteFirst, L.Body, Ready, Reads;
    ReadyFits(s, rd, pre, b);
    match b
    case Char(c, rest) =>
      x := [c];
      Advance(s, rd, pre, b, x);
      CharScan(s, rd, pre, b);
    case Escape(c, rest) =>
      x := ['\\', c];
      Advance(s, rd, pre, b, x);
      PairScan(s, rd, c);
    case Str(quote, body, rest) =>
      x := [quote] + body + [quote];
      Advance(s, rd, pre, b, x);
      StringScan(s, rd, quote, body);
    case Url(word, body, rest) =>
      x := word + "(" + body + ")";
      Advance(s, rd, pre, b, x);
      UrlScan(s, rd, word, body);
    case Nest(open, inner, close, rest) =>
      x := [open] + Text(inner) + [close];
      Advance(s, rd, pre, b, x);
      NestScan(s, rd, pre, b);
  }

  lemma BracketScan(s: string, rd: Reader, c: char)
    requires Plainly(s, rd) && Reads(s, rd.i, [c]) && c in "()[]{}" && FedIsContent(rd.stack, c)
    ensures Scan(s, rd) == Scan(s, Past(rd, [c]).(stack := FedStack(rd.stack, c)))
  {
    hide UrlAt;
    assert s[rd.i + 0] == [c][0];
    NotUrlAt(s, rd.i);
    ScanNext(s, rd, Past(rd, [c]).(stack := FedStack(rd.stack, c)));
  }

  lemma {:induction false} NestScan(s: string, rd: Reader, pre: string, b: Bits)
    requires Ready(s, rd, pre, b) && b.Nest?
    ensures Scan(s, rd) == Scan(s, Past(rd, [b.open] + Text(b.inner) + [b.close]))
    decreases b, 0
  {
    hide Scan, QuoteFirst;
    var open, inner, close := [b.open], Text(b.inner), [b.close];
    ReadsSplit(s, rd.i, open + inner + close, Text(b.rest));
    assert open + inner + close == open + (inner + close);
    ReadsSplit(s, rd.i, open, inner + close);
    ReadsSplit(s, rd.i + 1, inner, close);
    assert s[rd.i + 1 + |inner| + 0] == close[0];
    BracketScan(s, rd, b.open);
    var m := Past(rd, open).(stack := FedStack(rd.stack, b.open));
    BitsScan(s, m, pre + open, b.inner);
    var k := Past(m, inner);
    BracketScan(s, k, b.close);
    assert FedStack(m.stack, b.close) == rd.stack;
  }

  // ---- declarations -----------------------------------------------------------------------------

  /** A declaration: a name without ':', and a structured value. */
  datatype Entry = Entry(name: Bits, value: Bits)
  {
    function Raw(): string { Text(name) + ":" + Text(value) }

    predicate Fit() {
      && Text(name) != "" && NoColon(name) && NoBrace(name) && NoBrace(value)
      && Fits(Never, "", name, false, true) && Fits(Never, Text(name) + ":", value, false, true)
    }
  }

  /** The name and the value of a declaration at their places. */
  lemma RawReads(n: string, v: string)
    ensures var s := n + ":" + v + ";";
            Reads(s, 0, n) && Reads(s, |n| + 1, v) && |s| == |n| + |v| + 2 && s[|n|] == ':' && s[|n| + 1 + |v|] == ';'
  {}

  lemma EntryScan(d: Entry)
    requires d.Fit()
    ensures Scan(d.Raw() + ";", FRONT) == Extent(|d.Raw()|, |Text(d.name)|)
  {
    hide Scan, Fits, Text, Reads, NoBrace, NoColon;
    var n, v := Text(d.name), Text(d.value);
    var s := n + ":" + v + ";";
    RawReads(n, v);
    BitsScan(s, FRONT, "", d.name);
    var colon := FRONT.(i := |n|);
    ColonScan(s, colon);
    var m := colon.(i := |n| + 1, colon := |n|);
    BitsScan(s, m, n + ":", d.value);
    EndScan(s, Past(m, v));
  }

  /** A declaration is read as its name and its value. */
  lemma EntryIsRead(d: Entry)
    requires d.Fit()
    ensures Closed(d.Raw()) && Of(d.Raw()) == Decl(Text(d.name), Text(d.value), d.Raw())
  {
    hide Scan, Text, Fits, NoBrace, NoColon;
    var n, v := Text(d.name), Text(d.value);
    EntryScan(d);
    ClosedIsWhole(d.Raw());
    assert d.Raw()[..|n|] == n && d.Raw()[|n| + 1..] == v;
  }

  lemma ColonScan(s: string, rd: Reader)
    requires Plainly(s, rd) && rd.i < |s| && s[rd.i] == ':' && rd.stack == "" && rd.colon == -1
    ensures Scan(s, rd) == Scan(s, rd.(i := rd.i + 1, colon := rd.i))
  {
    hide UrlAt;
    NotUrlAt(s, rd.i);
    ScanNext(s, rd, rd.(i := rd.i + 1, colon := rd.i));
  }

  lemma EndScan(s: string, rd: Reader)
    requires Plainly(s, rd) && rd.i < |s| && s[rd.i] == ';' && rd.stack == ""
    ensures Scan(s, rd) == Extent(rd.i, rd.colon)
  {}

  function Raws(ds: seq<Entry>): (ps: seq<string>)
    ensures |ps| == |ds| && forall k :: 0 <= k < |ds| ==> ps[k] == ds[k].Raw()
  {
    if ds == [] then [] else [ds[0].Raw()] + Raws(ds[1..])
  }

  /** A block of declarations is read as those declarations, in order. */
  lemma BlockIsRead(ds: seq<Entry>)
    requires forall d :: d in ds ==> d.Fit()
    ensures var read := ParseDecls(Join(Raws(ds)));
            && |read| == |ds|
            && forall k :: 0 <= k < |ds| ==> read[k].prop == Text(ds[k].name) && read[k].value == Text(ds[k].value)
  {
    hide ParseDecls, Join, Of, Closed, Whole, Text;
    var ps := Raws(ds);
    forall k | 0 <= k < |ds|
      ensures Closed(ps[k]) && Whole(ps[k]) && Of(ps[k]) == Decl(Text(ds[k].name), Text(ds[k].value), ps[k])
    {
      assert ds[k] in ds;
      EntryIsRead(ds[k]);
      ClosedIsWhole(ps[k]);
    }
    ParseOfJoin(ps);
  }
}
