/**
 The wire format of the metadata prefix, byte by byte, and what the normal form
 of a record and the retirement of old entries mean for the record itself.
 */
module MetadataLayout {
  import opened Bytes
  import opened Chunks
  import opened Metadata

  // ---- numbers, least significant byte first ---------------------------------------------------

  function Int16(data: Blob, i: nat): nat
    requires i + 2 <= |data|
  {
    data[i] as nat + 0x100 * data[i + 1] as nat
  }

  function Int32(data: Blob, i: nat): nat
    requires i + 4 <= |data|
  {
    data[i] as nat + 0x100 * data[i + 1] as nat + 0x1_0000 * data[i + 2] as nat + 0x100_0000 * data[i + 3] as nat
  }

  lemma NumIsInt16(data: Blob, i: nat)
    requires i + 2 <= |data|
    ensures Num(data, i, 2) == Int16(data, i)
  {
    var b := At(data, i, 2);
    assert b == [data[i], data[i + 1]] && b[1..] == [data[i + 1]] && b[1..][1..] == [];
    assert Value(b) == b[0] + 256 * Value(b[1..]) && Value([data[i + 1]]) == data[i + 1] + 256 * Value([]);
  }

  lemma NumIsInt32(data: Blob, i: nat)
    requires i + 4 <= |data|
    ensures Num(data, i, 4) == Int32(data, i)
  {
    var b := At(data, i, 4);
    assert b == [data[i], data[i + 1], data[i + 2], data[i + 3]];
    NumIsInt16(data, i + 2);
    assert b[1..][1..] == At(data, i + 2, 2);
    assert Value(b) == b[0] + 256 * Value(b[1..]) && Value(b[1..]) == b[1] + 256 * Value(b[1..][1..]);
  }

  lemma NumOf64(data: Blob, i: nat)
    requires i + 8 <= |data|
    ensures Num(data, i, 8) == Int32(data, i) + 0x1_0000_0000 * Int32(data, i + 4)
  {
    var b := At(data, i, 8);
    NumIsInt32(data, i + 4);
    assert b[1..][1..][1..][1..] == At(data, i + 4, 4);
    assert Value(b) == b[0] + 256 * Value(b[1..]);
    assert Value(b[1..]) == b[1] + 256 * Value(b[1..][1..]);
    assert Value(b[1..][1..]) == b[2] + 256 * Value(b[1..][1..][1..]);
    assert Value(b[1..][1..][1..]) == b[3] + 256 * Value(b[1..][1..][1..][1..]);
  }

  // ---- the layout ----------------------------------------------------------------------------------

  /** Version, mask, type, flags and content type of a written record. */
  lemma FrontLayout(m: Meta, tail: Blob)
    requires Fits(m)
    ensures var data, ct := Serialized(m) + tail, WrittenCt(m);
            && |data| >= 110 + |ct| && data[0] == 9 && Int32(data, 1) == m.head.mask
            && data[5] == m.head.contentType && data[6] == m.head.flags
            && Int16(data, 7) == |ct| && data[9..9 + |ct|] == ct
  {
    hide Serialized, Num, WrittenCt, WrittenEtag, WrittenCc;
    var data := Serialized(m) + tail;
    ChunkOffsets(m);
    PrefixReads(m, tail);
    ContentTypeReads(m, tail);
    NumIsInt32(data, 1);
    NumIsInt16(data, 7);
  }

  /** Freshness, quality and validators follow the content type. */
  lemma MiddleLayout(m: Meta, tail: Blob)
    requires Fits(m)
    ensures var data, o, etag := Serialized(m) + tail, 9 + |WrittenCt(m)|, WrittenEtag(m);
            && |data| >= o + 27 + |etag|
            && Int32(data, o) == m.freshness.insertedAt && Int32(data, o + 4) == m.freshness.maxAge
            && Int32(data, o + 8) == m.freshness.sMaxage && Int16(data, o + 12) == m.freshness.ccFlags
            && Int16(data, o + 14) == m.quality.score && data[o + 16] == m.quality.contentClass
            && Int32(data, o + 17) == m.validators.lastModified && Int16(data, o + 21) == |etag|
            && data[o + 23..o + 23 + |etag|] == etag && Int32(data, o + 23 + |etag|) == m.contentLength
  {
    hide Serialized, Num, WrittenCt, WrittenEtag, WrittenCc;
    var data, o, etag := Serialized(m) + tail, 9 + |WrittenCt(m)|, WrittenEtag(m);
    ChunkOffsets(m);
    FreshnessReads(m, tail);
    QualityIsWritten(m, tail);
    ValidatorsRead(m, tail);
    NumIsInt32(data, o);
    NumIsInt32(data, o + 4);
    NumIsInt32(data, o + 8);
    NumIsInt16(data, o + 12);
    NumIsInt16(data, o + 14);
    NumIsInt32(data, o + 17);
    NumIsInt16(data, o + 21);
    NumIsInt32(data, o + 23 + |etag|);
  }

  lemma QualityIsWritten(m: Meta, tail: Blob)
    requires Fits(m)
    ensures var data, o := Serialized(m) + tail, 9 + |WrittenCt(m)|;
            o + 17 <= |data| && Num(data, o + 14, 2) == m.quality.score && data[o + 16] == m.quality.contentClass
  {
    hide WrittenCt, WrittenEtag, WrittenCc, PrefixBytes, FreshnessBytes, PolicyBytes, Join;
    var c, q := Fields(m), QualityBytes(m.quality);
    ChunkOffsets(m);
    assert At(q, 0, 2) == Le(m.quality.score, 2);
    NumOfChunk(c, tail, 3, 0, m.quality.score, 2);
    FieldInChunk(c, tail, 3, 2, 1);
    assert At(Serialized(m) + tail, 23 + |WrittenCt(m)| + 2, 1)[0] == q[2];
  }

  /** The hashes, the epoch and the Cache-Control value come last. */
  lemma BackLayout(m: Meta, tail: Blob)
    requires Fits(m)
    ensures var data, o, cc := Serialized(m) + tail, 36 + |WrittenCt(m)| + |WrittenEtag(m)|, WrittenCc(m);
            && |data| >= o + 74 + |cc|
            && data[o..o + 32] == m.binding.htmlHash && data[o + 32..o + 64] == m.binding.sourceHash
            && Int32(data, o + 64) + 0x1_0000_0000 * Int32(data, o + 68) == m.policy.epoch
            && Int16(data, o + 72) == |cc| && data[o + 74..o + 74 + |cc|] == cc
            && |Serialized(m)| == o + 74 + |cc|
  {
    hide Serialized, Num, WrittenCt, WrittenEtag, WrittenCc;
    var data, o := Serialized(m) + tail, 36 + |WrittenCt(m)| + |WrittenEtag(m)|;
    ChunkOffsets(m);
    BindingReads(m, tail);
    PolicyReads(m, tail);
    NumOf64(data, o + 64);
    NumIsInt16(data, o + 72);
  }

  // ---- what is sanitised ---------------------------------------------------------------------------

  function StrippedByte(b: Byte): Blob {
    if b == 0 || b == 10 || b == 13 then [] else [b]
  }

  lemma StripFirst(b: Byte, s: Blob)
    ensures Strip([b] + s) == StrippedByte(b) + Strip(s)
  {
    assert ([b] + s)[1..] == s;
  }

  /** Stripping removes the bytes 0, 10 and 13 and nothing else, in place. */
  lemma {:induction false} StripMeans(a: Blob, b: Byte, c: Blob)
    ensures Strip(a + [b] + c) == Strip(a) + StrippedByte(b) + Strip(c)
    decreases |a|
  {
    hide Strip;
    if a == [] {
      assert a + [b] + c == [b] + c;
      StripFirst(b, c);
      assert Strip([]) == [] by { StripNothing(); }
    } else {
      var rest := a[1..];
      StripMeans(rest, b, c);
      StripFirst(a[0], rest);
      StripFirst(a[0], rest + [b] + c);
      assert a == [a[0]] + rest && a + [b] + c == [a[0]] + (rest + [b] + c);
      var front := StrippedByte(a[0]);
      assert front + (Strip(rest) + StrippedByte(b) + Strip(c)) == (front + Strip(rest)) + StrippedByte(b) + Strip(c);
    }
  }

  lemma StripNothing()
    ensures Strip([]) == []
  {}

  /** What a reader gets of a record: bounds, clamps and the fields that pass unchanged. */
  lemma NormalizedMeans(m: Meta)
    ensures var n, ct, cc := Normalized(m), Strip(m.contentType), Strip(m.policy.cacheControl);
            var etag := m.validators.etag;
            && n.head == Head(9, m.head.mask, m.head.contentType, m.head.flags)
            && n.contentType == (if |ct| <= 256 then ct else ct[..256])
            && n.policy.cacheControl == (if |cc| <= 256 then cc else [])
            && n.validators.etag == (if |etag| <= 65535 then etag else etag[..65535])
            && n.quality.contentClass == (if m.quality.contentClass <= 4 then m.quality.contentClass else 4)
            && n.freshness == m.freshness && n.validators.lastModified == m.validators.lastModified
            && n.contentLength == m.contentLength && n.binding == m.binding && n.policy.epoch == m.policy.epoch
  {
    hide Strip, ClampedScore;
  }

  /** A score over 10000 is unknown, unless the mask says gzip or brotli: then it codes a size and stays. */
  lemma ScoreMeans(m: Meta, low: nat, encoding: nat, high: nat)
    requires low < 64 && encoding < 4 && m.head.mask == low + 64 * encoding + 256 * high
    ensures Normalized(m).quality.score
            == if m.quality.score > 10000 && encoding != 1 && encoding != 2 then 65535 else m.quality.score
  {
    hide WrittenCt, WrittenCc, WrittenEtag;
    assert m.head.mask / 64 == encoding + 4 * high;
    assert m.head.mask / 64 % 4 == encoding;
  }

  // ---- old versions --------------------------------------------------------------------------------

  /** Under an old label an HTML entry is refused, and so is Markdown that the worker wrote. */
  lemma RetiredMeans(m: Meta, tail: Blob, v: Byte)
    requires Fits(m) && 3 <= v < 9
    ensures IsRetired((Serialized(m) + tail)[0 := v])
            <==> m.head.contentType == 0 || (m.head.mask % 256 == 124 && m.head.flags / 2 % 2 == 1)
  {
    hide Serialized, Fits;
    FrontLayout(m, tail);
    var data := Serialized(m) + tail;
    assert Int32(data, 1) % 256 == data[1];
  }

  /** The fields an old version does not know read as absent. */
  lemma UnknownFieldsAreAbsent(data: Blob)
    requires Deserialize(data).Some?
    ensures var m, v := Deserialize(data).value, data[0];
            && (v < 4 ==> m.quality == Quality(65535, 4))
            && (v < 5 ==> m.validators == Validators(0, []))
            && (v < 6 ==> m.contentLength == 0)
            && (v < 7 ==> m.binding == Binding(Zeros(32), Zeros(32)))
            && (v < 8 ==> m.policy == Policy(0, []))
  {
    hide Strip, Num, ReadFreshness, ReadQuality, ReadBinding;
  }

  /** Nothing outside versions 3 to 9 is read, nothing shorter than its fixed fields, no content type above 4. */
  lemma AcceptedIsBounded(data: Blob)
    requires Deserialize(data).Some?
    ensures |data| >= 23 && 3 <= data[0] <= 9 && data[5] <= 4 && Int16(data, 7) <= 256 && !IsRetired(data)
  {
    hide Strip, ReadFreshness, ReadQuality, ReadBinding, Num, IsRetired;
    NumIsInt16(data, 7);
  }
}
