/**
 The response-header sidecar: which responses may be optimized in place, and the
 block of header lines stored beside an optimized entry.
 */
module Sidecar {
  import opened Options
  import opened HttpText

  /** One header line as received; characters are bytes. */
  datatype Field = Field(name: string, value: string)

  const MAX_NAME := 255
  const MAX_VALUE := 65535
  const MAX_PAYLOAD := 8192
  const FORMAT_VERSION := 1

  /** Field names carried in the block, in lower case. */
  const ALLOWLIST: set<string> := {
    "content-security-policy", "access-control-allow-origin", "x-content-type-options", "referrer-policy",
    "cross-origin-opener-policy", "cross-origin-embedder-policy", "cross-origin-resource-policy", "permissions-policy",
    "vary", "link", "strict-transport-security", "x-frame-options", "x-xss-protection",
    "x-permitted-cross-domain-policies", "origin-agent-cluster", "x-dns-prefetch-control", "timing-allow-origin",
    "access-control-expose-headers", "reporting-endpoints", "nel", "x-powered-by", "x-pingback", "x-robots-tag",
    "content-language", "content-disposition", "alt-svc", "allow"}

  /** Reproduced by the entry metadata. */
  const REPRODUCED: set<string> := {"cache-control", "content-type", "content-length", "etag", "last-modified",
                                    "expires"}

  /** Stamped by whatever serves the response. */
  const STAMPED: set<string> := {"date", "server", "connection", "keep-alive", "transfer-encoding", "age",
                                 "accept-ranges"}

  // ---- field syntax -------------------------------------------------------------------------

  predicate IsTokenChar(c: char) {
    'a' <= c <= 'z' || 'A' <= c <= 'Z' || '0' <= c <= '9' || c in "!#$%&'*+-.^_`|~"
  }

  predicate IsFieldName(name: string) {
    name != "" && forall i | 0 <= i < |name| :: IsTokenChar(name[i])
  }

  /** CR, LF and NUL cannot be handed back as one field value. */
  predicate IsStorable(value: string) {
    forall i | 0 <= i < |value| :: value[i] != '\r' && value[i] != '\n' && value[i] as int != 0
  }

  // ---- nonces ----------------------------------------------------------------------------------

  predicate OccursInAnyCase(s: string, needle: string, i: nat) {
    i + |needle| <= |s| && Lower(s[i..i + |needle|]) == needle
  }

  predicate CspNonceFrom(csp: string, i: nat)
    decreases |csp| - i
  {
    i + 6 <= |csp| && (OccursInAnyCase(csp, "nonce-", i) || CspNonceFrom(csp, i + 1))
  }

  lemma {:induction false} CspNonceMeans(csp: string, i: nat)
    ensures CspNonceFrom(csp, i) <==> exists k: nat :: i <= k && OccursInAnyCase(csp, "nonce-", k)
    decreases |csp| - i
  {
    hide OccursInAnyCase;
    if i + 6 <= |csp| {
      CspNonceMeans(csp, i + 1);
    } else {
      forall k: nat | i <= k ensures !OccursInAnyCase(csp, "nonce-", k) { TooLate(csp, "nonce-", k); }
    }
  }

  lemma TooLate(s: string, needle: string, i: nat)
    requires i + |needle| > |s|
    ensures !OccursInAnyCase(s, needle, i)
  {}

  method CspCarriesNonce(csp: string) returns (nonce: bool)
    ensures nonce == CspNonceFrom(csp, 0)
    ensures nonce <==> exists k: nat :: OccursInAnyCase(csp, "nonce-", k)
  {
    CspNonceMeans(csp, 0);
    if |csp| < 6 { return false; }
    for i := 0 to |csp| - 5
      invariant CspNonceFrom(csp, i) == CspNonceFrom(csp, 0)
    {
      if OccursInAnyCase(csp, "nonce-", i) { return true; }
    }
    return false;
  }

  /** Where a scan of a Link value stands. */
  datatype LinkMode = Plain | Target | Quoted

  /** The mode after the character at `i`, and how many characters it took beyond it. */
  function LinkStep(link: string, i: nat, mode: LinkMode): (LinkMode, nat)
    requires i < |link|
  {
    var c := link[i];
    match mode
    case Target => (if c == '>' then Plain else Target, 0)
    case Quoted =>
      if c == '\\' && i + 1 < |link| then (Quoted, 1) else (if c == '"' then Plain else Quoted, 0)
    case Plain => (if c == '"' then Quoted else if c == '<' then Target else Plain, 0)
  }

  /** An occurrence of "nonce" outside targets, or an unclosed target. */
  predicate LinkNonceFrom(link: string, i: nat, mode: LinkMode)
    decreases |link| - i
  {
    if i >= |link| then mode == Target
    else
      var (next, skip) := LinkStep(link, i, mode);
      (next != Target && OccursInAnyCase(link, "nonce", i + skip)) || LinkNonceFrom(link, i + skip + 1, next)
  }

  method LinkCarriesNonce(link: string) returns (nonce: bool)
    ensures nonce == LinkNonceFrom(link, 0, Plain)
  {
    var i, mode := 0, Plain;
    while i < |link|
      invariant LinkNonceFrom(link, i, mode) == LinkNonceFrom(link, 0, Plain)
      decreases |link| - i
    {
      var (next, skip) := LinkStep(link, i, mode);
      i, mode := i + skip, next;
      if mode != Target && OccursInAnyCase(link, "nonce", i) { return true; }
      i := i + 1;
    }
    return mode == Target;
  }

  // ---- Vary -------------------------------------------------------------------------------------

  const VARY_ALLOWED: set<string> := {"accept-encoding", "user-agent", "accept", "save-data"}

  /** Whether the cache key covers every field the response varies on; and whether `Accept` is one. */
  datatype VaryVerdict = VaryVerdict(storable: bool, variesAccept: bool)

  function VaryFrom(val: string, accept: bool): VaryVerdict
    decreases |val|
  {
    if val == "" then VaryVerdict(true, accept)
    else
      var comma := Find(val, ',', 0);
      var token := Trim(val[..comma]);
      var rest := if comma < |val| then val[comma + 1..] else "";
      if token == "" then VaryFrom(rest, accept)
      else if token == "*" || Lower(token) !in VARY_ALLOWED then VaryVerdict(false, false)
      else VaryFrom(rest, accept || Lower(token) == "accept")
  }

  /** The members of the list. */
  function ListMembers(val: string): seq<string>
    decreases |val|
  {
    if val == "" then []
    else
      var comma := Find(val, ',', 0);
      [Trim(val[..comma])] + ListMembers(if comma < |val| then val[comma + 1..] else "")
  }

  predicate VaryCovered(member: string) {
    member == "" || (member != "*" && Lower(member) in VARY_ALLOWED)
  }

  lemma {:induction false} VaryMeans(val: string, accept: bool)
    ensures var v, ms := VaryFrom(val, accept), ListMembers(val);
            && (v.storable <==> forall m | m in ms :: VaryCovered(m))
            && (v.variesAccept <==> v.storable && (accept || exists m :: m in ms && Lower(m) == "accept"))
    decreases |val|
  {
    hide VARY_ALLOWED, Lower, Trim;
    if val != "" {
      var comma := Find(val, ',', 0);
      var token := Trim(val[..comma]);
      var rest := if comma < |val| then val[comma + 1..] else "";
      var ms := ListMembers(val);
      assert ms == [token] + ListMembers(rest);
      assert forall m :: m in ms <==> m == token || m in ListMembers(rest);
      assert token in ms;
      var more := VaryFrom(rest, if token == "" then accept else accept || Lower(token) == "accept");
      assert VaryFrom(val, accept) == if VaryCovered(token) then more else VaryVerdict(false, false);
      assert (exists m :: m in ms && Lower(m) == "accept")
             <==> Lower(token) == "accept" || exists m :: m in ListMembers(rest) && Lower(m) == "accept";
      assert token == "" ==> Lower(token) == "";
      VaryMeans(rest, if token == "" then accept else accept || Lower(token) == "accept");
    }
  }

  method ClassifyVaryForStore(combined: string) returns (v: VaryVerdict)
    ensures v == VaryFrom(combined, false)
    ensures v.storable <==> forall m | m in ListMembers(combined) :: VaryCovered(m)
    ensures v.variesAccept <==> v.storable && exists m :: m in ListMembers(combined) && Lower(m) == "accept"
  {
    VaryMeans(combined, false);
    hide VARY_ALLOWED, Lower, Trim;
    var val, accept := combined, false;
    while val != ""
      invariant VaryFrom(val, accept) == VaryFrom(combined, false)
      decreases |val|
    {
      var comma := Find(val, ',', 0);
      var token := TrimOws(val[..comma]);
      val := if comma < |val| then val[comma + 1..] else "";
      if token != "" {
        if token == "*" || Lower(token) !in VARY_ALLOWED { return VaryVerdict(false, false); }
        accept := accept || Lower(token) == "accept";
      }
    }
    return VaryVerdict(true, accept);
  }

  // ---- the gate ------------------------------------------------------------------------------------

  datatype Reason =
    | NonceCsp | NonceLink | MalformedField(name: string) | Unreconstructible(name: string)
    | FieldTooLarge(name: string) | VaryUnstorable(vary: string) | SidecarTooLarge

  /** What becomes of one header line. */
  datatype Decision = Refuse(reason: Reason) | Elsewhere | Carry

  function Decide(f: Field): Decision {
    var name := Lower(f.name);
    if name == "content-security-policy" && CspNonceFrom(f.value, 0) then Refuse(NonceCsp)
    else if name == "link" && LinkNonceFrom(f.value, 0, Plain) then Refuse(NonceLink)
    else if !IsFieldName(f.name) || !IsStorable(f.value) then Refuse(MalformedField(name))
    else if name in REPRODUCED || name in STAMPED then Elsewhere
    else if name !in ALLOWLIST then Refuse(Unreconstructible(name))
    else if |f.name| > MAX_NAME || |f.value| > MAX_VALUE then Refuse(FieldTooLarge(name))
    else Carry
  }

  /** The Vary lines the gate looks at: those not refused for their syntax. */
  predicate CountsForVary(f: Field) {
    Lower(f.name) == "vary" && IsFieldName(f.name) && IsStorable(f.value)
  }

  /** What the loop over the headers collects. */
  datatype Tally = Tally(carried: seq<Field>, reasons: set<Reason>, vary: string, sawVary: bool)

  function Counted(t: Tally, f: Field): Tally {
    var vary := if !CountsForVary(f) then t.vary else if t.vary == "" then f.value else t.vary + "," + f.value;
    match Decide(f)
    case Refuse(r) => Tally(t.carried, t.reasons + {r}, vary, t.sawVary || CountsForVary(f))
    case Elsewhere => Tally(t.carried, t.reasons, vary, t.sawVary || CountsForVary(f))
    case Carry => Tally(t.carried + [f], t.reasons, vary, t.sawVary || CountsForVary(f))
  }

  function TallyOf(headers: seq<Field>): Tally {
    if headers == [] then Tally([], {}, "", false)
    else Counted(TallyOf(headers[..|headers| - 1]), headers[|headers| - 1])
  }

  datatype Verdict = SwapEligible | FallThrough | NeverOptimized

  datatype Classification = Classification(verdict: Verdict, reasons: set<Reason>, payload: string, fields: nat)

  // ---- the block ---------------------------------------------------------------------------------

  function EncodedSize(fields: seq<Field>): nat {
    if fields == [] then 3
    else EncodedSize(fields[..|fields| - 1]) + 3 + |fields[|fields| - 1].name| + |fields[|fields| - 1].value|
  }

  function Byte(n: nat): char
    requires n < 256
  {
    n as char
  }

  function BigEndian16(n: nat): (s: string)
    requires n < 65536
    ensures |s| == 2
  {
    [Byte(n / 256), Byte(n % 256)]
  }

  predicate Encodable(f: Field) {
    |f.name| <= MAX_NAME && |f.value| <= MAX_VALUE
  }

  function EncodedField(f: Field): string
    requires Encodable(f)
  {
    [Byte(|f.name|)] + BigEndian16(|f.value|) + f.name + f.value
  }

  function EncodedFields(fields: seq<Field>): string
    requires forall f | f in fields :: Encodable(f)
  {
    if fields == [] then "" else EncodedField(fields[0]) + EncodedFields(fields[1..])
  }

  function Encoded(fields: seq<Field>): string
    requires |fields| < 65536 && forall f | f in fields :: Encodable(f)
  {
    [Byte(FORMAT_VERSION)] + BigEndian16(|fields|) + EncodedFields(fields)
  }

  lemma {:induction false} CarriedAreEncodable(headers: seq<Field>)
    ensures forall f | f in TallyOf(headers).carried :: Encodable(f) && f.name != ""
    decreases |headers|
  {
    hide ALLOWLIST, REPRODUCED, STAMPED, CspNonceFrom, LinkNonceFrom, CountsForVary;
    if headers != [] { CarriedAreEncodable(headers[..|headers| - 1]); }
  }

  /** The reasons of the whole response, and the lines to store if the block is small enough. */
  function Judged(t: Tally): (set<Reason>, seq<Field>) {
    var vary := if t.sawVary && !VaryFrom(t.vary, false).storable then {VaryUnstorable(t.vary)} else {};
    var large := t.carried != [] && (|t.carried| > 0xFFFF || EncodedSize(t.carried) > MAX_PAYLOAD);
    (t.reasons + vary + (if large then {SidecarTooLarge} else {}), if large then [] else t.carried)
  }

  function VerdictOf(reasons: set<Reason>): Verdict {
    if NonceCsp in reasons || NonceLink in reasons then NeverOptimized
    else if reasons != {} then FallThrough
    else SwapEligible
  }

  function Classified(headers: seq<Field>): Classification {
    CarriedAreEncodable(headers);
    var (reasons, carried) := Judged(TallyOf(headers));
    var verdict := VerdictOf(reasons);
    if verdict != SwapEligible || carried == [] then Classification(verdict, reasons, "", 0)
    else Classification(verdict, reasons, Encoded(carried), |carried|)
  }

  method ClassifyForHeadersSidecar(headers: seq<Field>) returns (c: Classification)
    ensures c == Classified(headers)
  {
    hide Decide, CountsForVary, EncodedFields, VaryFrom;
    var t := Tally([], {}, "", false);
    for i := 0 to |headers|
      invariant t == TallyOf(headers[..i])
    {
      assert headers[..i + 1][..i] == headers[..i] && headers[..i + 1][i] == headers[i];
      t := Counted(t, headers[i]);
    }
    assert headers[..|headers|] == headers;
    CarriedAreEncodable(headers);
    var reasons, carried := t.reasons, t.carried;
    if t.sawVary {
      var vary := ClassifyVaryForStore(t.vary);
      if !vary.storable { reasons := reasons + {VaryUnstorable(t.vary)}; }
    }
    var size := SizeOf(carried);
    if carried != [] && (|carried| > 0xFFFF || size > MAX_PAYLOAD) {
      reasons, carried := reasons + {SidecarTooLarge}, [];
    }
    var verdict := VerdictOf(reasons);
    assert reasons == Judged(t).0 && carried == Judged(t).1;
    if verdict != SwapEligible || carried == [] { return Classification(verdict, reasons, "", 0); }
    var payload := EncodeFields(carried);
    return Classification(verdict, reasons, payload, |carried|);
  }

  method SizeOf(fields: seq<Field>) returns (size: nat)
    ensures size == EncodedSize(fields)
  {
    size := 3;
    for i := 0 to |fields|
      invariant size == EncodedSize(fields[..i])
    {
      assert fields[..i + 1][..i] == fields[..i];
      size := size + 3 + |fields[i].name| + |fields[i].value|;
    }
    assert fields[..|fields|] == fields;
  }

  method EncodeFields(fields: seq<Field>) returns (payload: string)
    requires |fields| < 65536 && forall f | f in fields :: Encodable(f)
    ensures payload == Encoded(fields)
  {
    hide EncodedField;
    payload := [Byte(FORMAT_VERSION)] + BigEndian16(|fields|);
    for i := 0 to |fields|
      invariant payload + EncodedFields(fields[i..]) == Encoded(fields)
    {
      assert fields[i..][0] == fields[i] && fields[i..][1..] == fields[i + 1..];
      assert fields[i] in fields;
      assert payload + (EncodedField(fields[i]) + EncodedFields(fields[i + 1..]))
          == payload + EncodedField(fields[i]) + EncodedFields(fields[i + 1..]);
      payload := payload + EncodedField(fields[i]);
    }
    assert payload + "" == payload;
  }

  // ---- reading the block back --------------------------------------------------------------------

  function ReadBigEndian16(s: string): nat
    requires |s| >= 2
  {
    (s[0] as int % 256) * 256 + s[1] as int % 256
  }

  /** The first field of `t` and what follows it. */
  datatype FieldRead = FieldRead(field: Field, rest: string)

  function ReadField(t: string): (r: Option<FieldRead>)
    ensures r.Some? ==> |r.value.rest| < |t|
  {
    if |t| < 3 then None
    else
      var n, v := t[0] as int % 256, ReadBigEndian16(t[1..]);
      if n == 0 || |t| - 3 < n || |t| - 3 - n < v then None
      else Some(FieldRead(Field(t[3..3 + n], t[3 + n..3 + n + v]), t[3 + n + v..]))
  }

  /** Exactly `count` fields and nothing after them. */
  function ReadFields(t: string, count: nat): Option<seq<Field>>
    decreases count
  {
    if count == 0 then (if t == "" then Some([]) else None)
    else match ReadField(t)
      case None => None
      case Some(r) =>
        match ReadFields(r.rest, count - 1)
        case None => None
        case Some(fs) => Some([r.field] + fs)
  }

  function Parsed(payload: string): Option<seq<Field>> {
    if |payload| < 3 || payload[0] as int != FORMAT_VERSION then None
    else ReadFields(payload[3..], ReadBigEndian16(payload[1..]))
  }

  method ParseHeadersSidecar(payload: string) returns (r: Option<seq<Field>>)
    ensures r == Parsed(payload)
  {
    hide ReadField;
    if |payload| < 3 || payload[0] as int != FORMAT_VERSION { return None; }
    var count := ReadBigEndian16(payload[1..]);
    var rest, fields := payload[3..], [];
    var left := count;
    ghost var all := ReadFields(rest, count);
    if all.Some? { assert [] + all.value == all.value; }
    while left > 0
      invariant 0 <= left
      invariant match ReadFields(rest, left)
                case None => Parsed(payload) == None
                case Some(fs) => Parsed(payload) == Some(fields + fs)
      decreases left
    {
      var f := ReadField(rest);
      if f.None? { return None; }
      ghost var after := ReadFields(f.value.rest, left - 1);
      if after.Some? { assert fields + ([f.value.field] + after.value) == fields + [f.value.field] + after.value; }
      fields, rest, left := fields + [f.value.field], f.value.rest, left - 1;
    }
    if rest != "" { return None; }
    assert fields + [] == fields;
    return Some(fields);
  }

  lemma ReadOfBigEndian16(n: nat, rest: string)
    requires n < 65536
    ensures ReadBigEndian16(BigEndian16(n) + rest) == n
  {}

  lemma ReadOfField(f: Field, rest: string)
    requires Encodable(f) && f.name != ""
    ensures ReadField(EncodedField(f) + rest) == Some(FieldRead(f, rest))
  {
    hide BigEndian16;
    var t := EncodedField(f) + rest;
    var n, v := |f.name|, |f.value|;
    assert t[1..] == BigEndian16(v) + (f.name + f.value + rest);
    ReadOfBigEndian16(v, f.name + f.value + rest);
    assert t[3..3 + n] == f.name && t[3 + n..3 + n + v] == f.value && t[3 + n + v..] == rest;
  }

  lemma {:induction false} ReadOfFields(fields: seq<Field>)
    requires forall f | f in fields :: Encodable(f) && f.name != ""
    ensures ReadFields(EncodedFields(fields), |fields|) == Some(fields)
  {
    hide EncodedField, ReadField;
    if fields != [] {
      assert fields[0] in fields;
      ReadOfField(fields[0], EncodedFields(fields[1..]));
      ReadOfFields(fields[1..]);
      assert [fields[0]] + fields[1..] == fields;
    }
  }

  lemma ReadOfEncoded(fields: seq<Field>)
    requires |fields| < 65536 && forall f | f in fields :: Encodable(f) && f.name != ""
    ensures Parsed(Encoded(fields)) == Some(fields)
  {
    hide BigEndian16, EncodedFields, ReadFields;
    var p := Encoded(fields);
    assert p[1..] == BigEndian16(|fields|) + EncodedFields(fields) && p[3..] == EncodedFields(fields);
    ReadOfBigEndian16(|fields|, EncodedFields(fields));
    ReadOfFields(fields);
  }

  // ---- a parseable payload is an encoding --------------------------------------------------------

  /** Characters that are bytes. */
  ghost predicate IsBytes(s: string) {
    forall i | 0 <= i < |s| :: s[i] as int < 256
  }

  lemma BytesOfRead(s: string)
    requires |s| >= 2 && s[0] as int < 256 && s[1] as int < 256
    ensures ReadBigEndian16(s) < 65536 && BigEndian16(ReadBigEndian16(s)) == s[..2]
  {}

  lemma FieldIsEncoded(t: string)
    requires IsBytes(t) && ReadField(t).Some?
    ensures var r := ReadField(t).value;
            Encodable(r.field) && r.field.name != "" && t == EncodedField(r.field) + r.rest && IsBytes(r.rest)
  {
    hide BigEndian16, ReadBigEndian16;
    var r := ReadField(t).value;
    var n, v := t[0] as int, ReadBigEndian16(t[1..]);
    BytesOfRead(t[1..]);
    assert t == [t[0]] + t[1..][..2] + t[3..3 + n] + t[3 + n..3 + n + v] + t[3 + n + v..];
    assert [t[0]] == [Byte(n)];
  }

  lemma {:induction false} FieldsAreEncoded(t: string, count: nat)
    requires IsBytes(t) && ReadFields(t, count).Some?
    ensures var fs := ReadFields(t, count).value;
            |fs| == count && (forall f | f in fs :: Encodable(f) && f.name != "") && EncodedFields(fs) == t
    decreases count
  {
    hide EncodedField, ReadField, Encodable, IsBytes;
    if count > 0 {
      var r := ReadField(t).value;
      FieldIsEncoded(t);
      FieldsAreEncoded(r.rest, count - 1);
      var fs := ReadFields(r.rest, count - 1).value;
      assert ([r.field] + fs)[1..] == fs;
    }
  }

  /** Any payload that parses re-encodes to itself. */
  lemma ParsedIsEncoded(payload: string)
    requires IsBytes(payload) && Parsed(payload).Some?
    ensures var fs := Parsed(payload).value;
            |fs| < 65536 && (forall f | f in fs :: Encodable(f)) && Encoded(fs) == payload
  {
    hide EncodedFields, ReadFields, BigEndian16, ReadBigEndian16;
    var count := ReadBigEndian16(payload[1..]);
    BytesOfRead(payload[1..]);
    FieldsAreEncoded(payload[3..], count);
    assert payload == [payload[0]] + payload[1..][..2] + payload[3..];
    assert [payload[0]] == [Byte(FORMAT_VERSION)];
  }

  lemma FieldOfExtension(t: string, more: string)
    requires ReadField(t).Some?
    ensures var r := ReadField(t).value; ReadField(t + more) == Some(FieldRead(r.field, r.rest + more))
  {
    var r := ReadField(t).value;
    var u := t + more;
    assert u[1..] == t[1..] + more;
    var n, v := t[0] as int % 256, ReadBigEndian16(t[1..]);
    assert u[3..3 + n] == t[3..3 + n] && u[3 + n..3 + n + v] == t[3 + n..3 + n + v]
           && u[3 + n + v..] == t[3 + n + v..] + more;
  }

  lemma {:induction false} FieldsOfExtension(t: string, more: string, count: nat)
    requires ReadFields(t, count).Some? && more != ""
    ensures ReadFields(t + more, count).None?
    decreases count
  {
    hide ReadField;
    if count > 0 {
      FieldOfExtension(t, more);
      FieldsOfExtension(ReadField(t).value.rest, more, count - 1);
    }
  }

  /** Neither a longer text nor a shorter one of a parseable payload parses. */
  lemma OnlyTheWhole(payload: string, more: string)
    requires more != ""
    ensures Parsed(payload).None? || Parsed(payload + more).None?
  {
    hide ReadFields, ReadBigEndian16;
    if Parsed(payload).Some? {
      var all := payload + more;
      assert all[3..] == payload[3..] + more;
      assert ReadBigEndian16(all[1..]) == ReadBigEndian16(payload[1..]) by { SameCount(payload, more); }
      FieldsOfExtension(payload[3..], more, ReadBigEndian16(payload[1..]));
    }
  }

  lemma SameCount(payload: string, more: string)
    requires |payload| >= 3
    ensures ReadBigEndian16((payload + more)[1..]) == ReadBigEndian16(payload[1..])
  {}

  // ---- what a swap-eligible response guarantees -----------------------------------------------------

  /** The allowlisted lines, in order. */
  function Allowlisted(headers: seq<Field>): seq<Field> {
    if headers == [] then []
    else
      var last := headers[|headers| - 1];
      Allowlisted(headers[..|headers| - 1]) + if Lower(last.name) in ALLOWLIST then [last] else []
  }

  lemma ReproducedNames(s: string)
    requires s in REPRODUCED
    ensures (|s| == 13 && (s[0] == 'c' || s[0] == 'l')) || (|s| == 12 && s[0] == 'c') || (|s| == 14 && s[0] == 'c')
            || (|s| == 4 && s[0] == 'e') || (|s| == 7 && s[0] == 'e')
  {}

  lemma StampedNames(s: string)
    requires s in STAMPED
    ensures (|s| == 4 && s[0] == 'd') || (|s| == 6 && s[0] == 's') || (|s| == 10 && (s[0] == 'c' || s[0] == 'k'))
            || (|s| == 17 && s[0] == 't') || (|s| == 3 && s[0] == 'a') || (|s| == 13 && s[0] == 'a')
  {}

  lemma AllowlistNames(s: string)
    requires s in ALLOWLIST
    ensures |s| in {15, 16, 18, 19, 20, 22, 23, 25, 26, 27, 28, 29, 33, 5}
            || (|s| == 4 && (s[0] == 'v' || s[0] == 'l')) || (|s| == 3 && s[0] == 'n')
            || (|s| == 12 && s[0] == 'x') || (|s| == 10 && s[0] == 'x') || (|s| == 7 && s[0] == 'a')
  {}

  /** The three name sets do not overlap. */
  lemma NameSetsAreDisjoint(s: string)
    ensures !(s in ALLOWLIST && s in REPRODUCED) && !(s in ALLOWLIST && s in STAMPED)
            && !(s in REPRODUCED && s in STAMPED)
  {
    hide ALLOWLIST, REPRODUCED, STAMPED;
    if s in ALLOWLIST { AllowlistNames(s); }
    if s in REPRODUCED { ReproducedNames(s); }
    if s in STAMPED { StampedNames(s); }
  }

  lemma {:induction false} ReasonsOnlyGrow(headers: seq<Field>, i: nat)
    requires i < |headers| && Decide(headers[i]).Refuse?
    ensures TallyOf(headers).reasons != {}
    decreases |headers|
  {
    hide Decide, CountsForVary;
    if i < |headers| - 1 {
      var front := headers[..|headers| - 1];
      assert front[i] == headers[i];
      ReasonsOnlyGrow(front, i);
    }
  }

  lemma {:induction false} CarriedAreAllowlisted(headers: seq<Field>)
    requires forall f | f in headers :: !Decide(f).Refuse?
    ensures TallyOf(headers).carried == Allowlisted(headers)
    decreases |headers|
  {
    hide Decide, CountsForVary, ALLOWLIST;
    if headers != [] {
      var front, last := headers[..|headers| - 1], headers[|headers| - 1];
      assert last in headers;
      CarriedAreAllowlisted(front);
      DecidedByName(last);
    }
  }

  lemma DecidedByName(f: Field)
    requires !Decide(f).Refuse?
    ensures Decide(f).Carry? <==> Lower(f.name) in ALLOWLIST
    ensures Decide(f).Elsewhere? <==> Lower(f.name) in REPRODUCED || Lower(f.name) in STAMPED
  {
    hide ALLOWLIST, REPRODUCED, STAMPED, IsFieldName, IsStorable, CspNonceFrom, LinkNonceFrom;
    NameSetsAreDisjoint(Lower(f.name));
  }

  /** Every header line of a swap-eligible response is accounted for in exactly one way. */
  lemma EveryLineIsAccountedFor(headers: seq<Field>, f: Field)
    requires Classified(headers).verdict == SwapEligible && f in headers
    ensures var n := Lower(f.name);
            || (n in ALLOWLIST && n !in REPRODUCED && n !in STAMPED)
            || (n !in ALLOWLIST && n in REPRODUCED && n !in STAMPED)
            || (n !in ALLOWLIST && n !in REPRODUCED && n in STAMPED)
    ensures IsFieldName(f.name) && IsStorable(f.value)
    ensures Lower(f.name) == "link" ==> !LinkNonceFrom(f.value, 0, Plain)
    ensures Lower(f.name) == "content-security-policy" ==> !CspNonceFrom(f.value, 0)
  {
    hide ALLOWLIST, REPRODUCED, STAMPED, Encoded, VaryFrom, TallyOf;
    var i: nat :| i < |headers| && headers[i] == f;
    if Decide(f).Refuse? { ReasonsOnlyGrow(headers, i); }
    NameSetsAreDisjoint(Lower(f.name));
  }

  /** The stored block of a swap-eligible response holds its allowlisted lines, byte for byte and in order. */
  lemma PayloadIsFaithful(headers: seq<Field>)
    requires Classified(headers).verdict == SwapEligible
    ensures var c := Classified(headers);
            && c.fields == |Allowlisted(headers)|
            && (if Allowlisted(headers) == [] then c.payload == "" else Parsed(c.payload) == Some(Allowlisted(headers)))
            && |c.payload| <= MAX_PAYLOAD
            && VaryFrom(TallyOf(headers).vary, false).storable
  {
    hide ALLOWLIST, REPRODUCED, STAMPED, Encoded, EncodedSize, VaryFrom, TallyOf, Decide, Parsed;
    var t := TallyOf(headers);
    CarriedAreEncodable(headers);
    NoVaryLines(headers);
    forall f | f in headers ensures !Decide(f).Refuse? {
      var i: nat :| i < |headers| && headers[i] == f;
      if Decide(f).Refuse? { ReasonsOnlyGrow(headers, i); }
    }
    CarriedAreAllowlisted(headers);
    if t.carried != [] {
      ReadOfEncoded(t.carried);
      SizeIsLength(t.carried);
    }
  }

  lemma {:induction false} NoVaryLines(headers: seq<Field>)
    ensures !TallyOf(headers).sawVary ==> TallyOf(headers).vary == ""
    ensures VaryFrom("", false).storable
    decreases |headers|
  {
    hide Decide, CountsForVary;
    if headers != [] { NoVaryLines(headers[..|headers| - 1]); }
  }

  lemma {:induction false} FieldsAppend(fields: seq<Field>, f: Field)
    requires (forall g | g in fields :: Encodable(g)) && Encodable(f)
    ensures forall g | g in fields + [f] :: Encodable(g)
    ensures EncodedFields(fields + [f]) == EncodedFields(fields) + EncodedField(f)
  {
    hide EncodedField, Encodable;
    if fields == [] {
      assert fields + [f] == [f] && EncodedFields([f]) == EncodedField(f) + EncodedFields([f][1..]);
    } else {
      assert (fields + [f])[1..] == fields[1..] + [f];
      FieldsAppend(fields[1..], f);
      assert EncodedField(fields[0]) + (EncodedFields(fields[1..]) + EncodedField(f))
          == EncodedField(fields[0]) + EncodedFields(fields[1..]) + EncodedField(f);
    }
  }

  lemma {:induction false} SizeIsLength(fields: seq<Field>)
    requires |fields| < 65536 && forall f | f in fields :: Encodable(f)
    ensures |Encoded(fields)| == EncodedSize(fields)
    decreases |fields|
  {
    hide EncodedFields, Encodable;
    if fields == [] {
      assert EncodedFields(fields) == "" by { NoFields(); }
    } else {
      var front, last := fields[..|fields| - 1], fields[|fields| - 1];
      SizeIsLength(front);
      FieldsAppend(front, last);
      assert front + [last] == fields;
    }
  }

  lemma NoFields()
    ensures EncodedFields([]) == ""
  {}

  /** Some line is refused for the reason. */
  ghost predicate Refused(headers: seq<Field>, r: Reason) {
    exists i :: 0 <= i < |headers| && Decide(headers[i]) == Refuse(r)
  }

  lemma {:induction false} ReasonsOfLines(headers: seq<Field>, r: Reason)
    ensures r in TallyOf(headers).reasons <==> Refused(headers, r)
    decreases |headers|
  {
    hide Decide, CountsForVary;
    if headers != [] {
      var front, n := headers[..|headers| - 1], |headers| - 1;
      ReasonsOfLines(front, r);
      if Refused(front, r) {
        var i :| 0 <= i < |front| && Decide(front[i]) == Refuse(r);
        assert headers[i] == front[i];
      }
      if Refused(headers, r) && Decide(headers[n]) != Refuse(r) {
        var i :| 0 <= i < |headers| && Decide(headers[i]) == Refuse(r);
        assert front[i] == headers[i];
      }
    }
  }

  /** Exactly the responses with a nonce in a policy or a preload hint are never optimized. */
  lemma NeverOptimizedIff(headers: seq<Field>)
    ensures Classified(headers).verdict == NeverOptimized <==> Refused(headers, NonceCsp) || Refused(headers, NonceLink)
  {
    hide Refused, TallyOf, Encoded, EncodedSize, VaryFrom;
    ReasonsOfLines(headers, NonceCsp);
    ReasonsOfLines(headers, NonceLink);
    CarriedAreEncodable(headers);
  }

  /** Exactly the responses with no refused line, a storable Vary and a small enough block are swap-eligible. */
  lemma SwapEligibleIff(headers: seq<Field>)
    ensures var t := TallyOf(headers);
            Classified(headers).verdict == SwapEligible
            <==> && (forall r :: !Refused(headers, r))
                 && (t.sawVary ==> VaryFrom(t.vary, false).storable)
                 && (t.carried == [] || (|t.carried| <= 0xFFFF && EncodedSize(t.carried) <= MAX_PAYLOAD))
  {
    hide Refused, TallyOf, Encoded, EncodedSize, VaryFrom;
    var t := TallyOf(headers);
    CarriedAreEncodable(headers);
    forall r ensures r in t.reasons <==> Refused(headers, r) { ReasonsOfLines(headers, r); }
    if t.reasons != {} {
      var r :| r in t.reasons;
      assert Refused(headers, r);
    }
  }
}
