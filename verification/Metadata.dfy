/**
 The metadata prefix of a stored alternate: an append-only wire format, versions
 3 to 9, of which version 9 is written.  Every version's layout is a byte prefix
 of the next one's.
 */
module Metadata {
  import opened Options
  import opened Bytes
  import opened Chunks

  const CURRENT_VERSION := 9
  const PREFIX_SIZE := 9
  const V5_SUFFIX := 23
  const V6_SUFFIX := 27
  const V7_SUFFIX := V6_SUFFIX + 64
  const V8_SUFFIX := V7_SUFFIX + 8 + 2
  const HASH_SIZE := 32
  const MAX_CT := 256
  const MAX_CC := 256
  const MAX_ETAG := 65535
  const SCORE_NA := 0xFFFF
  const MAX_SCORE := 10000
  const CLASS_UNKNOWN := 4
  const AGENT_MARKDOWN := 0x7C

  // ---- the record ---------------------------------------------------------------------

  datatype Head = Head(version: nat, mask: nat, contentType: nat, flags: nat)
  datatype Freshness = Freshness(insertedAt: nat, maxAge: nat, sMaxage: nat, ccFlags: nat)
  datatype Quality = Quality(score: nat, contentClass: nat)
  datatype Validators = Validators(lastModified: nat, etag: Blob)
  datatype Binding = Binding(htmlHash: Blob, sourceHash: Blob)
  datatype Policy = Policy(epoch: nat, cacheControl: Blob)

  datatype Meta = Meta(
    head: Head, contentType: Blob, freshness: Freshness, quality: Quality, validators: Validators,
    contentLength: nat, binding: Binding, policy: Policy, wireCt: nat, wireCc: nat, consumed: nat)

  function Zeros(n: nat): (b: Blob)
    ensures |b| == n
  {
    if n == 0 then [] else [0] + Zeros(n - 1)
  }

  function NoBinding(): Binding {
    Binding(Zeros(HASH_SIZE), Zeros(HASH_SIZE))
  }

  /** The fields fit their widths. */
  ghost predicate Fits(m: Meta) {
    && m.head.mask < Pow256(4) && m.head.contentType <= 4 && m.head.flags < 256
    && m.freshness.insertedAt < Pow256(4) && m.freshness.maxAge < Pow256(4) && m.freshness.sMaxage < Pow256(4)
    && m.freshness.ccFlags < Pow256(2)
    && m.quality.score < Pow256(2) && m.quality.contentClass < 256
    && m.validators.lastModified < Pow256(4) && m.contentLength < Pow256(4)
    && |m.binding.htmlHash| == |m.binding.sourceHash| == HASH_SIZE
    && m.policy.epoch < Pow256(8)
  }

  /** Gzip or brotli coded: the score field then holds an encoded-size code. */
  predicate IsEncodedVariant(mask: nat) {
    mask / 64 % 4 == 1 || mask / 64 % 4 == 2
  }

  // ---- sanitising ------------------------------------------------------------------------

  predicate IsControl(b: Byte) {
    b == 13 || b == 10 || b == 0
  }

  /** CR, LF and NUL are dropped from header values. */
  function Strip(s: Blob): (r: Blob)
    ensures |r| <= |s|
  {
    if s == [] then [] else (if IsControl(s[0]) then [] else [s[0]]) + Strip(s[1..])
  }

  function Truncated(s: Blob, max: nat): (r: Blob)
    ensures |r| <= max
  {
    if |s| <= max then s else s[..max]
  }

  function WrittenCt(m: Meta): Blob { Truncated(Strip(m.contentType), MAX_CT) }

  function WrittenEtag(m: Meta): Blob { Truncated(m.validators.etag, MAX_ETAG) }

  /** Over the cap, a directive list is stored as absent rather than cut short. */
  function WrittenCc(m: Meta): (r: Blob)
    ensures |r| <= MAX_CC
  {
    var cc := Strip(m.policy.cacheControl);
    if |cc| > MAX_CC then [] else cc
  }

  function ClampedScore(mask: nat, score: nat): nat {
    if score > MAX_SCORE && score != SCORE_NA && !IsEncodedVariant(mask) then SCORE_NA else score
  }

  function ClampedClass(c: nat): nat {
    if c > CLASS_UNKNOWN then CLASS_UNKNOWN else c
  }

  // ---- writing --------------------------------------------------------------------------

  function PrefixBytes(m: Meta): (b: Blob)
    requires Fits(m)
    ensures |b| == 9
  {
    [CURRENT_VERSION] + Le(m.head.mask, 4) + [m.head.contentType, m.head.flags] + Le(|WrittenCt(m)|, 2)
  }

  function FreshnessBytes(f: Freshness): (b: Blob)
    ensures |b| == 14
  {
    Le(f.insertedAt, 4) + Le(f.maxAge, 4) + Le(f.sMaxage, 4) + Le(f.ccFlags, 2)
  }

  function QualityBytes(q: Quality): (b: Blob)
    requires q.contentClass < 256
    ensures |b| == 3
  {
    Le(q.score, 2) + [q.contentClass]
  }

  function PolicyBytes(m: Meta): (b: Blob)
    ensures |b| == 10
  {
    Le(m.policy.epoch, 8) + Le(|WrittenCc(m)|, 2)
  }

  /** The fields in wire order. */
  function Fields(m: Meta): seq<Blob>
    requires Fits(m)
  {
    [PrefixBytes(m), WrittenCt(m), FreshnessBytes(m.freshness), QualityBytes(m.quality),
     Le(m.validators.lastModified, 4) + Le(|WrittenEtag(m)|, 2), WrittenEtag(m), Le(m.contentLength, 4),
     m.binding.htmlHash, m.binding.sourceHash, PolicyBytes(m), WrittenCc(m)]
  }

  function Serialized(m: Meta): Blob
    requires Fits(m)
  {
    Join(Fields(m))
  }

  // ---- reading ----------------------------------------------------------------------------

  /** HTML entries and worker-written Markdown below version 9 are no longer served. */
  predicate IsRetired(data: Blob) {
    && |data| >= 7 && 3 <= data[0] < 9
    && (data[5] == 0 || (data[6] / 2 % 2 == 1 && data[1] == AGENT_MARKDOWN))
  }

  /** Size of the fixed part after the content type. */
  function SuffixSize(version: nat): nat {
    if version >= 8 then V8_SUFFIX else if version >= 7 then V7_SUFFIX else if version >= 6 then V6_SUFFIX
    else if version >= 5 then V5_SUFFIX else if version >= 4 then 17 else 14
  }

  function ReadHead(data: Blob): Head
    requires |data| >= PREFIX_SIZE
  {
    Head(data[0], Num(data, 1, 4), data[5], data[6])
  }

  function ReadFreshness(data: Blob, off: nat): Freshness
    requires off + 14 <= |data|
  {
    Freshness(Num(data, off, 4), Num(data, off + 4, 4), Num(data, off + 8, 4), Num(data, off + 12, 2))
  }

  function ReadQuality(data: Blob, off: nat, mask: nat): Quality
    requires off + 17 <= |data|
  {
    Quality(ClampedScore(mask, Num(data, off + 14, 2)), ClampedClass(data[off + 16]))
  }

  function ReadBinding(data: Blob, base: nat): Binding
    requires base + 64 <= |data|
  {
    Binding(At(data, base, HASH_SIZE), At(data, base + HASH_SIZE, HASH_SIZE))
  }

  /** Lengths the blob itself states; `None` when it is refused. */
  datatype Layout = Layout(ct: nat, etag: nat, cc: nat)

  function ReadLayout(data: Blob): (r: Option<Layout>)
    ensures r.Some? ==> |data| > 0 && 3 <= data[0] <= CURRENT_VERSION
    ensures r.Some? ==> |data| >= PREFIX_SIZE + r.value.ct + SuffixSize(data[0]) + r.value.etag + r.value.cc
    ensures r.Some? && data[0] < 5 ==> r.value.etag == 0
    ensures r.Some? && data[0] < 8 ==> r.value.cc == 0
  {
    if |data| < PREFIX_SIZE || data[0] < 3 || data[0] > CURRENT_VERSION || data[5] > 4 || IsRetired(data) then None
    else
      var v, ct := data[0], Num(data, 7, 2);
      if ct > MAX_CT || |data| < PREFIX_SIZE + ct + SuffixSize(v) then None
      else if v < 5 then Some(Layout(ct, 0, 0))
      else
        var etag := Num(data, PREFIX_SIZE + ct + 21, 2);
        if |data| < PREFIX_SIZE + ct + SuffixSize(v) + etag then None
        else if v < 8 then Some(Layout(ct, etag, 0))
        else
          var cc := Num(data, PREFIX_SIZE + ct + 23 + etag + 4 + 64 + 8, 2);
          if cc > MAX_CC || |data| < PREFIX_SIZE + ct + SuffixSize(v) + etag + cc then None
          else Some(Layout(ct, etag, cc))
  }

  /** The size summed field by field. */
  function Consumed(v: nat, l: Layout): nat {
    1 + 4 + 1 + 1 + 2 + l.ct + (4 + 4 + 4 + 2)
    + (if v >= 4 then 2 + 1 else 0)
    + (if v >= 5 then 4 + 2 + l.etag else 0)
    + (if v >= 6 then 4 else 0)
    + (if v >= 7 then 64 else 0)
    + (if v >= 8 then 8 + 2 + l.cc else 0)
  }

  /** Fields a version does not know keep their defaults. */
  function Deserialize(data: Blob): Option<Meta> {
    match ReadLayout(data)
    case None => None
    case Some(l) =>
      var v, off := data[0], PREFIX_SIZE + l.ct;
      var after := off + 23 + l.etag;
      Some(Meta(
        ReadHead(data),
        Strip(At(data, PREFIX_SIZE, l.ct)),
        ReadFreshness(data, off),
        if v >= 4 then ReadQuality(data, off, Num(data, 1, 4)) else Quality(SCORE_NA, CLASS_UNKNOWN),
        if v >= 5 then Validators(Num(data, off + 17, 4), At(data, off + 23, l.etag)) else Validators(0, []),
        if v >= 6 then Num(data, after, 4) else 0,
        if v >= 7 then ReadBinding(data, after + 4) else NoBinding(),
        if v >= 8 then Policy(Num(data, after + 4 + 64, 8), Strip(At(data, after + 4 + 64 + 10, l.cc)))
        else Policy(0, []),
        l.ct, l.cc, Consumed(v, l)))
  }

  /** The size by version, from the layout constants. */
  function WireSize(m: Meta): nat {
    var v, etag := m.head.version, |m.validators.etag|;
    if v >= 8 then PREFIX_SIZE + m.wireCt + V8_SUFFIX + etag + m.wireCc
    else if v >= 7 then PREFIX_SIZE + m.wireCt + V7_SUFFIX + etag
    else if v >= 6 then PREFIX_SIZE + m.wireCt + V6_SUFFIX + etag
    else if v >= 5 then PREFIX_SIZE + m.wireCt + V5_SUFFIX + etag
    else PREFIX_SIZE + m.wireCt + if v >= 4 then 17 else 14
  }

  /** Every accepted blob: the two independent sizes agree and stay inside it. */
  lemma ConsumedIsWireSize(data: Blob)
    requires Deserialize(data).Some?
    ensures var m := Deserialize(data).value;
            m.consumed == WireSize(m) && 9 + 14 <= m.consumed <= |data|
  {
    hide ReadLayout, Strip, Num;
  }

  /** The canary of the cache's reader never fires: an accepted prefix is taken at its stated size. */
  method ParseMetadataPrefix(content: Blob) returns (size: nat, m: Option<Meta>)
    ensures match Deserialize(content)
            case None => size == 0 && m == None
            case Some(parsed) => size == parsed.consumed && 0 < size <= |content| && m == Some(parsed)
  {
    hide Deserialize, WireSize;
    if |content| < PREFIX_SIZE {
      assert Deserialize(content) == None by { TooShort(content); }
      return 0, None;
    }
    var parsed := Deserialize(content);
    if parsed.None? { return 0, None; }
    ConsumedIsWireSize(content);
    if parsed.value.consumed != WireSize(parsed.value) || parsed.value.consumed > |content| {
      assert false;
    }
    return parsed.value.consumed, parsed;
  }

  lemma TooShort(data: Blob)
    requires |data| < PREFIX_SIZE
    ensures Deserialize(data) == None
  {}

  // ---- where the fields stand --------------------------------------------------------------

  /** A slice inside a chunk is found at the chunk's offset, whatever follows the blob. */
  lemma FieldInChunk(chunks: seq<Blob>, tail: Blob, i: nat, off: nat, w: nat)
    requires i < |chunks| && off + w <= |chunks[i]|
    ensures Offset(chunks, i) + |chunks[i]| <= |Join(chunks)|
    ensures At(Join(chunks) + tail, Offset(chunks, i) + off, w) == At(chunks[i], off, w)
  {
    hide Join, Offset, At;
    var pre, post := Around(chunks, tail, i);
    AtInside(pre, chunks[i], post, off, w);
  }

  lemma ChunkOffsets(m: Meta)
    requires Fits(m)
    ensures var c, ct, etag := Fields(m), |WrittenCt(m)|, |WrittenEtag(m)|;
            && Offset(c, 0) == 0 && Offset(c, 1) == 9 && Offset(c, 2) == 9 + ct && Offset(c, 3) == 23 + ct
            && Offset(c, 4) == 26 + ct && Offset(c, 5) == 32 + ct && Offset(c, 6) == 32 + ct + etag
            && Offset(c, 7) == 36 + ct + etag && Offset(c, 8) == 68 + ct + etag && Offset(c, 9) == 100 + ct + etag
            && Offset(c, 10) == 110 + ct + etag && |Serialized(m)| == 110 + ct + etag + |WrittenCc(m)|
  {
    hide WrittenCt, WrittenEtag, WrittenCc, PrefixBytes, FreshnessBytes, QualityBytes, PolicyBytes, Join;
    var c := Fields(m);
    assert Offset(c, 1) == 9 && Offset(c, 2) == 9 + |WrittenCt(m)|;
    assert Offset(c, 3) == 23 + |WrittenCt(m)|;
    assert Offset(c, 4) == 26 + |WrittenCt(m)| && Offset(c, 5) == 32 + |WrittenCt(m)|;
    assert Offset(c, 6) == 32 + |WrittenCt(m)| + |WrittenEtag(m)|;
    assert Offset(c, 7) == 36 + |WrittenCt(m)| + |WrittenEtag(m)|;
    assert Offset(c, 8) == 68 + |WrittenCt(m)| + |WrittenEtag(m)|;
    assert Offset(c, 9) == 100 + |WrittenCt(m)| + |WrittenEtag(m)|;
    LengthOf(c);
  }

  // ---- round trip -----------------------------------------------------------------------------

  /** What a reader gets back: version 9, sanitised strings, clamped classes. */
  function Normalized(m: Meta): Meta {
    var ct, etag, cc := WrittenCt(m), WrittenEtag(m), WrittenCc(m);
    Meta(m.head.(version := CURRENT_VERSION), ct, m.freshness,
         Quality(ClampedScore(m.head.mask, m.quality.score), ClampedClass(m.quality.contentClass)),
         m.validators.(etag := etag), m.contentLength, m.binding, m.policy.(cacheControl := cc),
         |ct|, |cc|, 110 + |ct| + |etag| + |cc|)
  }

  lemma {:induction false} StripTwice(s: Blob)
    ensures Strip(Strip(s)) == Strip(s)
  {
    if s != [] {
      StripTwice(s[1..]);
      var rest := Strip(s[1..]);
      if !IsControl(s[0]) { assert ([s[0]] + rest)[1..] == rest; } else { assert [] + rest == rest; }
    }
  }

  /** A cut of a clean string is clean. */
  lemma {:induction false} StripPrefix(s: Blob, n: nat)
    requires n <= |s| && Strip(s) == s
    ensures Strip(s[..n]) == s[..n]
  {
    if n > 0 {
      assert |Strip(s[1..])| <= |s| - 1;
      assert !IsControl(s[0]);
      assert Strip(s[1..]) == ([s[0]] + Strip(s[1..]))[1..] == s[1..];
      StripPrefix(s[1..], n - 1);
      assert s[..n][1..] == s[1..][..n - 1];
    }
  }

  lemma WrittenAreClean(m: Meta)
    ensures Strip(WrittenCt(m)) == WrittenCt(m) && Strip(WrittenCc(m)) == WrittenCc(m)
  {
    StripTwice(m.contentType);
    StripTwice(m.policy.cacheControl);
    if |Strip(m.contentType)| > MAX_CT { StripPrefix(Strip(m.contentType), MAX_CT); }
  }

  lemma NormalizedTwice(m: Meta)
    ensures Normalized(Normalized(m)) == Normalized(m)
  {
    hide Strip, ClampedScore;
    WrittenAreClean(m);
    assert ClampedScore(m.head.mask, ClampedScore(m.head.mask, m.quality.score))
           == ClampedScore(m.head.mask, m.quality.score)
    by { ClampTwice(m.head.mask, m.quality.score); }
  }

  lemma ClampTwice(mask: nat, score: nat)
    ensures ClampedScore(mask, ClampedScore(mask, score)) == ClampedScore(mask, score)
  {}

  lemma NumOfChunk(chunks: seq<Blob>, tail: Blob, i: nat, off: nat, n: nat, w: nat)
    requires i < |chunks| && off + w <= |chunks[i]| && At(chunks[i], off, w) == Le(n, w) && n < Pow256(w)
    ensures Offset(chunks, i) + off + w <= |Join(chunks) + tail|
    ensures Num(Join(chunks) + tail, Offset(chunks, i) + off, w) == n
  {
    FieldInChunk(chunks, tail, i, off, w);
    ValueOfLe(n, w);
  }

  lemma PrefixReads(m: Meta, tail: Blob)
    requires Fits(m)
    ensures var data := Serialized(m) + tail;
            && |data| >= 9 && ReadHead(data) == m.head.(version := CURRENT_VERSION)
            && Num(data, 7, 2) == |WrittenCt(m)|
  {
    hide WrittenCt, WrittenEtag, WrittenCc, FreshnessBytes, QualityBytes, PolicyBytes, Join;
    var c, data, p := Fields(m), Serialized(m) + tail, PrefixBytes(m);
    ChunkOffsets(m);
    EtagFits(m);
    assert At(p, 1, 4) == Le(m.head.mask, 4) && At(p, 7, 2) == Le(|WrittenCt(m)|, 2);
    NumOfChunk(c, tail, 0, 1, m.head.mask, 4);
    NumOfChunk(c, tail, 0, 7, |WrittenCt(m)|, 2);
    FieldInChunk(c, tail, 0, 0, 9);
    assert At(data, 0, 9)[0] == p[0] && At(data, 0, 9)[5] == p[5] && At(data, 0, 9)[6] == p[6];
  }

  lemma FreshnessReads(m: Meta, tail: Blob)
    requires Fits(m)
    ensures 23 + |WrittenCt(m)| <= |Serialized(m) + tail|
    ensures ReadFreshness(Serialized(m) + tail, 9 + |WrittenCt(m)|) == m.freshness
  {
    hide WrittenCt, WrittenEtag, WrittenCc, PrefixBytes, QualityBytes, PolicyBytes, Join;
    var c, f, g := Fields(m), m.freshness, FreshnessBytes(m.freshness);
    ChunkOffsets(m);
    assert At(g, 0, 4) == Le(f.insertedAt, 4) && At(g, 4, 4) == Le(f.maxAge, 4);
    assert At(g, 8, 4) == Le(f.sMaxage, 4) && At(g, 12, 2) == Le(f.ccFlags, 2);
    NumOfChunk(c, tail, 2, 0, f.insertedAt, 4);
    NumOfChunk(c, tail, 2, 4, f.maxAge, 4);
    NumOfChunk(c, tail, 2, 8, f.sMaxage, 4);
    NumOfChunk(c, tail, 2, 12, f.ccFlags, 2);
  }

  lemma QualityReads(m: Meta, tail: Blob)
    requires Fits(m)
    ensures 26 + |WrittenCt(m)| <= |Serialized(m) + tail|
    ensures ReadQuality(Serialized(m) + tail, 9 + |WrittenCt(m)|, m.head.mask) == Normalized(m).quality
  {
    hide WrittenCt, WrittenEtag, WrittenCc, PrefixBytes, FreshnessBytes, PolicyBytes, Join, ClampedScore;
    var c, q := Fields(m), QualityBytes(m.quality);
    ChunkOffsets(m);
    assert At(q, 0, 2) == Le(m.quality.score, 2);
    NumOfChunk(c, tail, 3, 0, m.quality.score, 2);
    FieldInChunk(c, tail, 3, 2, 1);
    assert At(Serialized(m) + tail, 23 + |WrittenCt(m)| + 2, 1)[0] == q[2];
  }

  lemma ValidatorsRead(m: Meta, tail: Blob)
    requires Fits(m)
    ensures var data, ct, etag := Serialized(m) + tail, |WrittenCt(m)|, |WrittenEtag(m)|;
            && 36 + ct + etag <= |data|
            && Num(data, 26 + ct, 4) == m.validators.lastModified && Num(data, 30 + ct, 2) == etag
            && At(data, 32 + ct, etag) == WrittenEtag(m) && Num(data, 32 + ct + etag, 4) == m.contentLength
  {
    hide WrittenCt, WrittenCc, WrittenEtag, PrefixBytes, FreshnessBytes, QualityBytes, PolicyBytes, Join;
    var c, etag := Fields(m), WrittenEtag(m);
    ChunkOffsets(m);
    assert |etag| < Pow256(2) by { EtagFits(m); }
    assert At(c[4], 0, 4) == Le(m.validators.lastModified, 4) && At(c[4], 4, 2) == Le(|etag|, 2);
    NumOfChunk(c, tail, 4, 0, m.validators.lastModified, 4);
    NumOfChunk(c, tail, 4, 4, |etag|, 2);
    FieldInChunk(c, tail, 5, 0, |etag|);
    assert At(etag, 0, |etag|) == etag && At(c[6], 0, 4) == Le(m.contentLength, 4);
    NumOfChunk(c, tail, 6, 0, m.contentLength, 4);
  }

  lemma EtagFits(m: Meta)
    ensures |WrittenEtag(m)| < Pow256(2) && |WrittenCt(m)| < Pow256(2) && |WrittenCc(m)| < Pow256(2)
  {
    assert Pow256(1) == 256 && Pow256(2) == 65536;
  }

  lemma BindingReads(m: Meta, tail: Blob)
    requires Fits(m)
    ensures var data, after := Serialized(m) + tail, 32 + |WrittenCt(m)| + |WrittenEtag(m)|;
            after + 68 <= |data| && ReadBinding(data, after + 4) == m.binding
  {
    hide WrittenCt, WrittenCc, WrittenEtag, PrefixBytes, FreshnessBytes, QualityBytes, PolicyBytes, Join;
    var c, b := Fields(m), m.binding;
    ChunkOffsets(m);
    FieldInChunk(c, tail, 7, 0, 32);
    FieldInChunk(c, tail, 8, 0, 32);
    assert At(b.htmlHash, 0, 32) == b.htmlHash && At(b.sourceHash, 0, 32) == b.sourceHash;
  }

  lemma PolicyReads(m: Meta, tail: Blob)
    requires Fits(m)
    ensures var data, after, cc := Serialized(m) + tail, 32 + |WrittenCt(m)| + |WrittenEtag(m)|, WrittenCc(m);
            && after + 78 + |cc| <= |data|
            && Num(data, after + 68, 8) == m.policy.epoch && Num(data, after + 76, 2) == |cc|
            && At(data, after + 78, |cc|) == cc
  {
    hide WrittenCt, WrittenCc, WrittenEtag, PrefixBytes, FreshnessBytes, QualityBytes, Join;
    var c, p, cc := Fields(m), PolicyBytes(m), WrittenCc(m);
    ChunkOffsets(m);
    EtagFits(m);
    assert At(p, 0, 8) == Le(m.policy.epoch, 8) && At(p, 8, 2) == Le(|cc|, 2);
    NumOfChunk(c, tail, 9, 0, m.policy.epoch, 8);
    NumOfChunk(c, tail, 9, 8, |cc|, 2);
    FieldInChunk(c, tail, 10, 0, |cc|);
    assert At(cc, 0, |cc|) == cc;
  }

  lemma ContentTypeReads(m: Meta, tail: Blob)
    requires Fits(m)
    ensures var data, ct := Serialized(m) + tail, WrittenCt(m);
            9 + |ct| <= |data| && At(data, 9, |ct|) == ct
  {
    hide WrittenCt, WrittenCc, WrittenEtag, PrefixBytes, FreshnessBytes, QualityBytes, PolicyBytes, Join;
    ChunkOffsets(m);
    FieldInChunk(Fields(m), tail, 1, 0, |WrittenCt(m)|);
    assert At(WrittenCt(m), 0, |WrittenCt(m)|) == WrittenCt(m);
  }

  lemma LayoutReads(m: Meta, tail: Blob)
    requires Fits(m)
    ensures ReadLayout(Serialized(m) + tail) == Some(Layout(|WrittenCt(m)|, |WrittenEtag(m)|, |WrittenCc(m)|))
  {
    hide WrittenCc, WrittenEtag, Serialized, Num;
    PrefixReads(m, tail);
    ValidatorsRead(m, tail);
    PolicyReads(m, tail);
    ChunkOffsets(m);
  }

  /** Reading what was written, whatever follows it, gives the normal form of the record. */
  lemma RoundTrip(m: Meta, tail: Blob)
    requires Fits(m)
    ensures Deserialize(Serialized(m) + tail) == Some(Normalized(m))
  {
    hide WrittenCt, WrittenCc, WrittenEtag, Serialized, Num, ReadLayout, ReadHead, ReadFreshness, ReadQuality,
      ReadBinding, At, Strip;
    LayoutReads(m, tail);
    PrefixReads(m, tail);
    ContentTypeReads(m, tail);
    FreshnessReads(m, tail);
    QualityReads(m, tail);
    ValidatorsRead(m, tail);
    BindingReads(m, tail);
    PolicyReads(m, tail);
    WrittenAreClean(m);
    MaskReads(m, tail);
  }

  lemma MaskReads(m: Meta, tail: Blob)
    requires Fits(m)
    ensures 9 <= |Serialized(m) + tail| && (Serialized(m) + tail)[0] == 9
    ensures Num(Serialized(m) + tail, 1, 4) == m.head.mask
  {
    PrefixReads(m, tail);
  }

  // ---- older labels -----------------------------------------------------------------------------

  lemma RelabelReads(data: Blob, v: Byte, off: nat, w: nat)
    requires 0 < off && off + w <= |data|
    ensures At(data[0 := v], off, w) == At(data, off, w)
  {}

  /** The same fields, as far as version `v` knows them. */
  ghost predicate AgreeUpTo(v: nat, a: Meta, b: Meta) {
    && a.head == b.head.(version := a.head.version) && a.contentType == b.contentType && a.freshness == b.freshness
    && (v >= 4 ==> a.quality == b.quality)
    && (v >= 5 ==> a.validators == b.validators)
    && (v >= 6 ==> a.contentLength == b.contentLength)
    && (v >= 7 ==> a.binding == b.binding)
    && (v >= 8 ==> a.policy == b.policy)
  }

  lemma RelabelLayout(data: Blob, v: Byte)
    requires ReadLayout(data).Some? && 3 <= v <= data[0] && !IsRetired(data[0 := v])
    ensures var l := ReadLayout(data).value;
            ReadLayout(data[0 := v])
            == Some(Layout(l.ct, if v >= 5 then l.etag else 0, if v >= 8 then l.cc else 0))
  {
    var ct := Num(data, 7, 2);
    RelabelReads(data, v, 7, 2);
    if v >= 5 {
      RelabelReads(data, v, 9 + ct + 21, 2);
      if v >= 8 { RelabelReads(data, v, 9 + ct + 23 + Num(data, 9 + ct + 21, 2) + 4 + 64 + 8, 2); }
    }
  }

  lemma RelabelNum(data: Blob, v: Byte, off: nat, w: nat)
    requires 0 < off && off + w <= |data|
    ensures Num(data[0 := v], off, w) == Num(data, off, w)
  {
    RelabelReads(data, v, off, w);
  }

  lemma RelabelFreshness(data: Blob, v: Byte, off: nat)
    requires 0 < off && off + 14 <= |data|
    ensures ReadFreshness(data[0 := v], off) == ReadFreshness(data, off)
  {
    hide Num;
    RelabelNum(data, v, off, 4);
    RelabelNum(data, v, off + 4, 4);
    RelabelNum(data, v, off + 8, 4);
    RelabelNum(data, v, off + 12, 2);
  }

  lemma RelabelQuality(data: Blob, v: Byte, off: nat, mask: nat)
    requires 0 < off && off + 17 <= |data|
    ensures ReadQuality(data[0 := v], off, mask) == ReadQuality(data, off, mask)
  {
    hide Num;
    RelabelNum(data, v, off + 14, 2);
  }

  lemma RelabelBinding(data: Blob, v: Byte, base: nat)
    requires 0 < base && base + 64 <= |data|
    ensures ReadBinding(data[0 := v], base) == ReadBinding(data, base)
  {
    RelabelReads(data, v, base, 32);
    RelabelReads(data, v, base + 32, 32);
  }

  /** A blob relabelled to an older version that is not retired keeps every field that version knows. */
  lemma RelabelKeepsFields(data: Blob, v: Byte)
    requires Deserialize(data).Some? && 3 <= v <= data[0] && !IsRetired(data[0 := v])
    ensures Deserialize(data[0 := v]).Some?
    ensures AgreeUpTo(v, Deserialize(data[0 := v]).value, Deserialize(data).value)
  {
    hide ReadLayout, Strip, Num, At, ReadFreshness, ReadQuality, ReadBinding, Consumed, IsRetired, NoBinding;
    RelabelLayout(data, v);
    var l := ReadLayout(data).value;
    var off := 9 + l.ct;
    var after := off + 23 + l.etag;
    RelabelNum(data, v, 1, 4);
    RelabelReads(data, v, 9, l.ct);
    RelabelFreshness(data, v, off);
    if v >= 4 { RelabelQuality(data, v, off, Num(data, 1, 4)); }
    if v >= 5 {
      RelabelNum(data, v, off + 17, 4);
      RelabelReads(data, v, off + 23, l.etag);
    }
    if v >= 6 { RelabelNum(data, v, after, 4); }
    if v >= 7 { RelabelBinding(data, v, after + 4); }
    if v >= 8 {
      RelabelNum(data, v, after + 68, 8);
      RelabelReads(data, v, after + 78, l.cc);
    }
  }
}
