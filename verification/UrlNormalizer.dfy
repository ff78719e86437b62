/**
 The normal form of a URL in cache keys (section 6.2.2 of RFC 3986): percent
 encodings, and query parameters filtered, sorted and without repeats.
 */
module UrlNormalizer {
  import opened Ascii
  import opened HttpText

  // ---- percent encoding -------------------------------------------------------------------

  predicate IsUnreserved(c: char) {
    'A' <= c <= 'Z' || 'a' <= c <= 'z' || '0' <= c <= '9' || c == '-' || c == '.' || c == '_' || c == '~'
  }

  function HexValue(c: char): (v: nat)
    requires IsHexDigit(c)
    ensures v < 16
  {
    if c <= '9' then (c - '0') as nat else if c >= 'a' then (c - 'a') as nat + 10 else (c - 'A') as nat + 10
  }

  function UpperHex(v: nat): char
    requires v < 16
  {
    if v < 10 then '0' + v as char else 'A' + (v - 10) as char
  }

  /** The byte a percent encoding stands for. */
  function Decoded(hi: char, lo: char): char
    requires IsHexDigit(hi) && IsHexDigit(lo)
  {
    (HexValue(hi) * 16 + HexValue(lo)) as char
  }

  /** A percent encoding at the start of `s`. */
  predicate Encoding(s: string) {
    |s| >= 3 && s[0] == '%' && IsHexDigit(s[1]) && IsHexDigit(s[2])
  }

  function Reencoded(hi: char, lo: char): string
    requires IsHexDigit(hi) && IsHexDigit(lo)
  {
    var c := Decoded(hi, lo);
    if IsUnreserved(c) then [c] else ['%', UpperHex(HexValue(hi)), UpperHex(HexValue(lo))]
  }

  function Percent(s: string): string {
    if s == "" then ""
    else if Encoding(s) then Reencoded(s[1], s[2]) + Percent(s[3..])
    else [s[0]] + Percent(s[1..])
  }

  method NormalizePercentEncoding(s: string) returns (out: string)
    ensures out == Percent(s)
  {
    hide Reencoded, Encoding;
    out := "";
    var rest := s;
    while rest != ""
      invariant out + Percent(rest) == Percent(s)
      decreases |rest|
    {
      var piece, after := Step(rest);
      assert out + (piece + Percent(after)) == out + piece + Percent(after);
      out, rest := out + piece, after;
    }
    assert out + "" == out;
  }

  /** One encoding or one other character. */
  method Step(s: string) returns (piece: string, after: string)
    requires s != ""
    ensures Percent(s) == piece + Percent(after) && |after| < |s|
  {
    if Encoding(s) { return Reencoded(s[1], s[2]), s[3..]; }
    return [s[0]], s[1..];
  }

  /** Every '%' starts an encoding. */
  predicate WellFormed(s: string) {
    s == "" || (if s[0] == '%' then Encoding(s) && WellFormed(s[3..]) else WellFormed(s[1..]))
  }

  /** Every '%' starts an encoding in upper case of a character that needs it. */
  predicate Normal(s: string) {
    s == ""
    || (if s[0] == '%' then Encoding(s) && Reencoded(s[1], s[2]) == s[..3] && Normal(s[3..]) else Normal(s[1..]))
  }

  /** The bytes a text stands for. */
  function Meaning(s: string): string {
    if s == "" then ""
    else if Encoding(s) then [Decoded(s[1], s[2])] + Meaning(s[3..])
    else [s[0]] + Meaning(s[1..])
  }

  lemma ReencodedTwice(hi: char, lo: char)
    requires IsHexDigit(hi) && IsHexDigit(lo)
    ensures var r := Reencoded(hi, lo);
            if IsUnreserved(Decoded(hi, lo)) then r == [Decoded(hi, lo)] && r[0] != '%'
            else |r| == 3 && Encoding(r) && Reencoded(r[1], r[2]) == r && Decoded(r[1], r[2]) == Decoded(hi, lo)
  {}

  lemma EncodingIn(r: string, rest: string)
    requires Encoding(r) && |r| == 3
    ensures Encoding(r + rest) && (r + rest)[3..] == rest && (r + rest)[..3] == r
  {}

  /** Normalizing gives the normal form and keeps what the text stands for. */
  lemma {:induction false} PercentIsNormal(s: string)
    requires WellFormed(s)
    ensures Normal(Percent(s)) && Meaning(Percent(s)) == Meaning(s)
  {
    hide Reencoded, Decoded, IsUnreserved, IsHexDigit;
    if s != "" {
      if s[0] == '%' {
        var r, rest := Reencoded(s[1], s[2]), Percent(s[3..]);
        PercentIsNormal(s[3..]);
        ReencodedTwice(s[1], s[2]);
        if IsUnreserved(Decoded(s[1], s[2])) {
          assert (r + rest)[1..] == rest;
        } else {
          EncodingIn(r, rest);
        }
      } else {
        PercentIsNormal(s[1..]);
        assert ([s[0]] + Percent(s[1..]))[1..] == Percent(s[1..]);
      }
    }
  }

  lemma {:induction false} NormalIsFixed(s: string)
    requires Normal(s)
    ensures Percent(s) == s && WellFormed(s)
  {
    hide Reencoded;
    if s != "" {
      if s[0] == '%' {
        NormalIsFixed(s[3..]);
        assert s == s[..3] + s[3..];
      } else {
        NormalIsFixed(s[1..]);
      }
    }
  }

  /** A character that no encoding contains. */
  predicate Separates(c: char) {
    c != '%' && !IsHexDigit(c) && !IsUnreserved(c)
  }

  lemma {:induction false} PercentAround(a: string, c: char, b: string)
    requires WellFormed(a) && c != '%' && !IsHexDigit(c)
    ensures Percent(a + [c] + b) == Percent(a) + [c] + Percent(b)
    decreases |a|
  {
    hide Reencoded;
    var s := a + [c] + b;
    if a == "" {
      assert s[1..] == b && s[0] == c;
    } else if a[0] == '%' {
      assert s[1] == a[1] && s[2] == a[2] && s[3..] == a[3..] + [c] + b;
      PercentAround(a[3..], c, b);
      var r := Reencoded(a[1], a[2]);
      assert r + (Percent(a[3..]) + [c] + Percent(b)) == (r + Percent(a[3..])) + [c] + Percent(b);
    } else {
      assert s[0] == a[0] && s[1..] == a[1..] + [c] + b;
      PercentAround(a[1..], c, b);
      assert [a[0]] + (Percent(a[1..]) + [c] + Percent(b)) == ([a[0]] + Percent(a[1..])) + [c] + Percent(b);
    }
  }

  lemma {:induction false} WellFormedAround(a: string, c: char, b: string)
    requires c != '%' && !IsHexDigit(c)
    ensures WellFormed(a + [c] + b) <==> WellFormed(a) && WellFormed(b)
    decreases |a|
  {
    var s := a + [c] + b;
    if a == "" {
      assert s[1..] == b && s[0] == c;
    } else if a[0] == '%' {
      if Encoding(a) {
        assert s[3..] == a[3..] + [c] + b;
        WellFormedAround(a[3..], c, b);
      }
    } else {
      assert s[1..] == a[1..] + [c] + b;
      WellFormedAround(a[1..], c, b);
    }
  }

  lemma {:induction false} NormalAround(a: string, c: char, b: string)
    requires c != '%' && !IsHexDigit(c)
    ensures Normal(a + [c] + b) <==> Normal(a) && Normal(b)
    decreases |a|
  {
    hide Reencoded;
    var s := a + [c] + b;
    if a == "" {
      assert s[1..] == b && s[0] == c;
    } else if a[0] == '%' {
      if Encoding(a) {
        assert s[3..] == a[3..] + [c] + b && s[..3] == a[..3];
        NormalAround(a[3..], c, b);
      }
    } else {
      assert s[1..] == a[1..] + [c] + b;
      NormalAround(a[1..], c, b);
    }
  }

  /** Normalizing introduces no separator. */
  lemma {:induction false} PercentKeepsOut(s: string, c: char)
    requires Separates(c) && c !in s
    ensures c !in Percent(s)
  {
    if s != "" {
      if Encoding(s) { PercentKeepsOut(s[3..], c); } else { PercentKeepsOut(s[1..], c); }
    }
  }

  // ---- query parameters ---------------------------------------------------------------------

  datatype Param = Param(key: string, value: string, equals: bool)

  function Text(p: Param): string {
    if p.equals then p.key + "=" + p.value else p.key
  }

  function ParamOf(text: string): Param {
    var eq := Find(text, '=', 0);
    if eq < |text| then Param(text[..eq], text[eq + 1..], true) else Param(text, "", false)
  }

  /** The text up to the first '&', and what follows it. */
  function First(query: string): string {
    query[..Find(query, '&', 0)]
  }

  function Rest(query: string): (r: string)
    requires query != ""
    ensures |r| < |query|
  {
    var amp := Find(query, '&', 0);
    if amp < |query| then query[amp + 1..] else ""
  }

  function OneParam(text: string): seq<Param> {
    if text == "" then [] else [ParamOf(text)]
  }

  /** The parameters of a query; empty ones are skipped. */
  function Params(query: string): seq<Param>
    decreases |query|
  {
    if query == "" then [] else OneParam(First(query)) + Params(Rest(query))
  }

  method ParseQueryParams(query: string) returns (params: seq<Param>)
    ensures params == Params(query)
  {
    hide OneParam, First, Rest;
    params := [];
    var rest := query;
    while rest != ""
      invariant params + Params(rest) == Params(query)
      decreases |rest|
    {
      var one, after := OneParam(First(rest)), Rest(rest);
      assert params + (one + Params(after)) == params + one + Params(after);
      params, rest := params + one, after;
    }
    assert params + [] == params;
  }

  lemma FirstOfJoined(text: string, more: bool, rest: string)
    requires '&' !in text && text != ""
    ensures var q := if more then text + "&" + rest else text;
            q != "" && First(q) == text && Rest(q) == if more then rest else ""
  {
    var q := if more then text + "&" + rest else text;
    FindIn(q, '&', |text|, 0);
  }

  function Joined(params: seq<Param>): string {
    if params == [] then "" else if |params| == 1 then Text(params[0]) else Text(params[0]) + "&" + Joined(params[1..])
  }

  /** A parameter as the parser produces it. */
  ghost predicate IsParam(p: Param) {
    && '=' !in p.key && '&' !in p.key && '&' !in p.value
    && (p.equals || (p.value == "" && p.key != ""))
  }

  lemma TextParses(p: Param)
    requires IsParam(p)
    ensures ParamOf(Text(p)) == p && Text(p) != "" && '&' !in Text(p)
  {
    var t := Text(p);
    if p.equals {
      FindIn(t, '=', |p.key|, 0);
      assert t[..|p.key|] == p.key && t[|p.key| + 1..] == p.value;
    } else {
      FindIn(t, '=', |t|, 0);
    }
  }

  lemma ParamIsParam(text: string)
    requires text != "" && '&' !in text
    ensures IsParam(ParamOf(text)) && Text(ParamOf(text)) == text
  {
    var eq := Find(text, '=', 0);
    if eq < |text| { assert text == text[..eq] + "=" + text[eq + 1..]; }
  }

  lemma {:induction false} JoinedParses(params: seq<Param>)
    requires forall p | p in params :: IsParam(p)
    ensures Params(Joined(params)) == params
    decreases |params|
  {
    hide ParamOf, IsParam, Text, First, Rest;
    if params != [] {
      var p := params[0];
      assert p in params;
      TextParses(p);
      var more := |params| > 1;
      FirstOfJoined(Text(p), more, Joined(params[1..]));
      JoinedParses(params[1..]);
      assert params == [p] + params[1..];
    }
  }

  /** Everything the parser returns has the shape it promises, and is normal if the query is. */
  lemma {:induction false} ParamsAreParams(query: string)
    ensures forall p | p in Params(query) :: IsParam(p) && (Normal(query) ==> Normal(Text(p)))
    ensures '#' !in query ==> forall p | p in Params(query) :: '#' !in Text(p)
    decreases |query|
  {
    hide ParamOf, IsParam, Text, Normal;
    if query != "" {
      var amp := Find(query, '&', 0);
      var text, rest := First(query), Rest(query);
      ParamsAreParams(rest);
      if amp < |query| {
        assert query == text + ['&'] + rest;
        NormalAround(text, '&', rest);
      } else {
        assert text == query;
        NormalNothing();
      }
      if amp > 0 { ParamIsParam(text); }
    }
  }

  lemma NormalNothing()
    ensures Normal("")
  {}

  lemma {:induction false} JoinedIsNormal(params: seq<Param>)
    requires forall p | p in params :: Normal(Text(p))
    ensures Normal(Joined(params))
    decreases |params|
  {
    hide Text, Normal;
    if params == [] {
      NormalNothing();
    } else {
      assert params[0] in params;
      if |params| > 1 {
        JoinedIsNormal(params[1..]);
        NormalAround(Text(params[0]), '&', Joined(params[1..]));
      }
    }
  }

  lemma {:induction false} JoinedKeepsOut(params: seq<Param>, c: char)
    requires c != '&' && forall p | p in params :: c !in Text(p)
    ensures c !in Joined(params)
    decreases |params|
  {
    hide Text;
    if params != [] {
      assert params[0] in params;
      if |params| > 1 { JoinedKeepsOut(params[1..], c); }
    }
  }
}
