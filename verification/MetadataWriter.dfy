/** The in-place writer of the metadata prefix, and the encoded size kept in its score field. */
module MetadataWriter {
  import opened Options
  import opened Bytes
  import opened Chunks
  import opened Metadata

  /** Writes fields one after the other into a buffer sized in advance. */
  class SerializeCursor {
    const out: array<Byte>
    var offset: nat

    constructor (out: array<Byte>)
      ensures this.out == out && offset == 0
    {
      this.out := out;
      offset := 0;
    }

    ghost function Written(): Blob
      reads this, out
      requires offset <= out.Length
    {
      out[..offset]
    }

    method WriteBytes(src: Blob)
      requires offset + |src| <= out.Length
      modifies this`offset, out
      ensures offset == old(offset) + |src| && Written() == old(Written()) + src
    {
      for i := 0 to |src|
        invariant offset == old(offset) && out[..offset + i] == old(out[..offset]) + src[..i]
      {
        out[offset + i] := src[i];
        assert out[..offset + i + 1] == out[..offset + i] + [src[i]];
        assert src[..i + 1] == src[..i] + [src[i]];
      }
      offset := offset + |src|;
      assert src[..|src|] == src;
    }

    method WriteByte(b: Byte)
      requires offset < out.Length
      modifies this`offset, out
      ensures offset == old(offset) + 1 && Written() == old(Written()) + [b]
    {
      out[offset] := b;
      offset := offset + 1;
    }

    method WriteScalar(n: nat, w: nat)
      requires offset + w <= out.Length
      modifies this`offset, out
      ensures offset == old(offset) + w && Written() == old(Written()) + Le(n, w)
    {
      WriteBytes(Le(n, w));
    }

    method WritePrefix(m: Meta)
      requires Fits(m) && offset + 9 <= out.Length
      modifies this`offset, out
      ensures offset == old(offset) + 9 && Written() == old(Written()) + PrefixBytes(m)
    {
      hide WrittenCt, Fits, Le;
      WriteByte(CURRENT_VERSION);
      WriteScalar(m.head.mask, 4);
      assert m.head.contentType < 256 && m.head.flags < 256 by { FitsHead(m); }
      WriteByte(m.head.contentType);
      WriteByte(m.head.flags);
      WriteScalar(|WrittenCt(m)|, 2);
    }

    method WriteFreshness(f: Freshness)
      requires offset + 14 <= out.Length
      modifies this`offset, out
      ensures offset == old(offset) + 14 && Written() == old(Written()) + FreshnessBytes(f)
    {
      hide Le;
      WriteScalar(f.insertedAt, 4);
      WriteScalar(f.maxAge, 4);
      WriteScalar(f.sMaxage, 4);
      WriteScalar(f.ccFlags, 2);
    }

    method WriteQuality(q: Quality)
      requires q.contentClass < 256 && offset + 3 <= out.Length
      modifies this`offset, out
      ensures offset == old(offset) + 3 && Written() == old(Written()) + QualityBytes(q)
    {
      hide Le;
      WriteScalar(q.score, 2);
      WriteByte(q.contentClass);
    }

    method WriteTwo(a: nat, aw: nat, b: nat, bw: nat)
      requires offset + aw + bw <= out.Length
      modifies this`offset, out
      ensures offset == old(offset) + aw + bw && Written() == old(Written()) + (Le(a, aw) + Le(b, bw))
    {
      hide Le;
      WriteScalar(a, aw);
      WriteScalar(b, bw);
    }
  }

  lemma FitsHead(m: Meta)
    requires Fits(m)
    ensures m.head.contentType < 256 && m.head.flags < 256 && m.quality.contentClass < 256
    ensures |m.binding.htmlHash| == |m.binding.sourceHash| == 32
  {}

  /** Everything up to the entity tag. */
  method WriteFront(cursor: SerializeCursor, m: Meta)
    requires Fits(m) && cursor.offset == 0 && cursor.Written() == []
             && 110 + |WrittenCt(m)| + |WrittenEtag(m)| <= cursor.out.Length
    modifies cursor`offset, cursor.out
    ensures cursor.offset == 32 + |WrittenCt(m)| + |WrittenEtag(m)| && cursor.Written() == Join(Fields(m)[..6])
  {
    hide *;
    var ct, etag := WrittenCt(m), WrittenEtag(m);
    ghost var c := Fields(m);
    FitsHead(m);
    FieldsAre(m);
    JoinNothing(c);
    cursor.WritePrefix(m);
    JoinTake(c, 0);
    cursor.WriteBytes(ct);
    JoinTake(c, 1);
    cursor.WriteFreshness(m.freshness);
    JoinTake(c, 2);
    cursor.WriteQuality(m.quality);
    JoinTake(c, 3);
    cursor.WriteTwo(m.validators.lastModified, 4, |etag|, 2);
    JoinTake(c, 4);
    cursor.WriteBytes(etag);
    JoinTake(c, 5);
  }

  method WriteBack(cursor: SerializeCursor, m: Meta)
    requires Fits(m) && cursor.offset == 32 + |WrittenCt(m)| + |WrittenEtag(m)|
    requires cursor.offset + 78 + |WrittenCc(m)| <= cursor.out.Length && cursor.Written() == Join(Fields(m)[..6])
    modifies cursor`offset, cursor.out
    ensures cursor.offset == 110 + |WrittenCt(m)| + |WrittenEtag(m)| + |WrittenCc(m)|
    ensures cursor.Written() == Join(Fields(m)[..11])
  {
    hide *;
    var cc := WrittenCc(m);
    ghost var c := Fields(m);
    FitsHead(m);
    FieldsAre(m);
    cursor.WriteScalar(m.contentLength, 4);
    JoinTake(c, 6);
    cursor.WriteBytes(m.binding.htmlHash);
    JoinTake(c, 7);
    cursor.WriteBytes(m.binding.sourceHash);
    JoinTake(c, 8);
    cursor.WriteTwo(m.policy.epoch, 8, |cc|, 2);
    JoinTake(c, 9);
    cursor.WriteBytes(cc);
    JoinTake(c, 10);
  }

  method Serialize(m: Meta) returns (result: array<Byte>)
    requires Fits(m)
    ensures fresh(result) && result[..] == Serialized(m)
  {
    hide WrittenCt, WrittenCc, WrittenEtag, Fits, Offset, Fields, Join;
    result := new Byte[PREFIX_SIZE + |WrittenCt(m)| + V8_SUFFIX + |WrittenEtag(m)| + |WrittenCc(m)|](_ => 0);
    var cursor := new SerializeCursor(result);
    WriteFront(cursor, m);
    WriteBack(cursor, m);
    FieldsAre(m);
    assert Fields(m)[..11] == Fields(m) && result[..] == cursor.Written();
  }

  lemma FieldsAre(m: Meta)
    requires Fits(m)
    ensures var c := Fields(m);
            && |c| == 11 && c[0] == PrefixBytes(m) && c[1] == WrittenCt(m) && c[2] == FreshnessBytes(m.freshness)
            && c[3] == QualityBytes(m.quality) && c[4] == Le(m.validators.lastModified, 4) + Le(|WrittenEtag(m)|, 2)
            && c[5] == WrittenEtag(m) && c[6] == Le(m.contentLength, 4) && c[7] == m.binding.htmlHash
            && c[8] == m.binding.sourceHash && c[9] == Le(m.policy.epoch, 8) + Le(|WrittenCc(m)|, 2)
            && c[10] == WrittenCc(m)
  {}

  // ---- the encoded size in the score field -----------------------------------------------------

  const RATIO_BASE := MAX_SCORE + 1
  const RATIO_SCALE := 50000
  const TWO64 := 0x1_0000_0000_0000_0000
  const TWO32 := 0x1_0000_0000

  /** The ratio of encoded to origin size in units of 1/50000, rounded, in 64-bit arithmetic. */
  function RatioCode(encoded: nat, length: nat): nat
    requires length > 0
  {
    (encoded * RATIO_SCALE + length / 2) % TWO64 / length
  }

  /** The score field after the encoded size was set. */
  function WithEncodedLength(m: Meta, encoded: nat): Meta {
    if !IsEncodedVariant(m.head.mask) then m
    else if m.contentLength == 0 || RatioCode(encoded, m.contentLength) > SCORE_NA - 1 - RATIO_BASE then
      m.(quality := m.quality.(score := SCORE_NA))
    else m.(quality := m.quality.(score := RATIO_BASE + RatioCode(encoded, m.contentLength)))
  }

  function EncodedLength(m: Meta): Option<nat> {
    if m.contentLength == 0 then None
    else if !IsEncodedVariant(m.head.mask) then Some(m.contentLength)
    else if m.quality.score < RATIO_BASE || m.quality.score == SCORE_NA then None
    else
      var d := ((m.quality.score - RATIO_BASE) * m.contentLength + RATIO_SCALE / 2) / RATIO_SCALE;
      if d >= TWO32 then None else Some(d)
  }

  lemma Rounded(n: nat, k: nat, half: nat)
    requires k > 0 && half < k
    ensures var q := (n + half) / k; n + half - k < q * k <= n + half
  {
    var q := (n + half) / k;
    assert n + half == q * k + (n + half) % k;
  }

  /** At most half a unit of each of the two roundings apart. */
  predicate Close(encoded: nat, d: nat, length: nat) {
    && 2 * RATIO_SCALE * (d - encoded) <= length + RATIO_SCALE
    && 2 * RATIO_SCALE * (encoded - d) <= length + RATIO_SCALE
  }

  /** Storing and reading back an encoded size errs by at most half a unit of each rounding. */
  lemma EncodedLengthIsClose(m: Meta, encoded: nat)
    requires IsEncodedVariant(m.head.mask) && m.contentLength > 0
    requires encoded * RATIO_SCALE + m.contentLength / 2 < TWO64
    requires EncodedLength(WithEncodedLength(m, encoded)).Some?
    ensures var d := EncodedLength(WithEncodedLength(m, encoded)).value;
            && Close(encoded, d, m.contentLength)
            && (m.contentLength < RATIO_SCALE ==> d == encoded)
  {
    hide IsEncodedVariant, RatioCode, EncodedLength, WithEncodedLength;
    var L := m.contentLength;
    var x := RatioCode(encoded, L) * L;
    var d := EncodedLength(WithEncodedLength(m, encoded)).value;
    CodeIsClose(encoded, L);
    SizeReadBack(m, encoded);
    Rounded(x, RATIO_SCALE, RATIO_SCALE / 2);
    TwoRoundings(encoded, L, x, d);
  }

  lemma SizeReadBack(m: Meta, encoded: nat)
    requires IsEncodedVariant(m.head.mask) && m.contentLength > 0
    requires EncodedLength(WithEncodedLength(m, encoded)).Some?
    ensures EncodedLength(WithEncodedLength(m, encoded)).value
            == (RatioCode(encoded, m.contentLength) * m.contentLength + RATIO_SCALE / 2) / RATIO_SCALE
  {
    hide IsEncodedVariant, RatioCode;
  }

  lemma CodeIsClose(encoded: nat, L: nat)
    requires L > 0 && encoded * RATIO_SCALE + L / 2 < TWO64
    ensures var x := RatioCode(encoded, L) * L;
            encoded * RATIO_SCALE + L / 2 - L < x <= encoded * RATIO_SCALE + L / 2
  {
    Rounded(encoded * RATIO_SCALE, L, L / 2);
  }

  lemma TwoRoundings(encoded: nat, L: nat, x: nat, d: nat)
    requires encoded * RATIO_SCALE + L / 2 - L < x <= encoded * RATIO_SCALE + L / 2
    requires x + RATIO_SCALE / 2 - RATIO_SCALE < d * RATIO_SCALE <= x + RATIO_SCALE / 2
    ensures Close(encoded, d, L)
    ensures L < RATIO_SCALE ==> d == encoded
  {}

  /**
   The size of a gzip or brotli variant is read back unless its code or the result
   does not fit; any other variant has the size of the origin and stores none.
   */
  lemma EncodedLengthIsKept(m: Meta, encoded: nat)
    ensures m.head.mask / 64 % 4 in {1, 2} ==>
              (EncodedLength(WithEncodedLength(m, encoded)).Some?
               <==> && m.contentLength > 0 && RatioCode(encoded, m.contentLength) <= 55533
                    && (RatioCode(encoded, m.contentLength) * m.contentLength + 25000) / 50000 < TWO32)
    ensures m.head.mask / 64 % 4 in {0, 3} ==>
              && WithEncodedLength(m, encoded) == m
              && EncodedLength(m) == if m.contentLength == 0 then None else Some(m.contentLength)
  {
    hide RatioCode;
  }

  /** The size read back is close to the one stored exactly when the product did not overflow. */
  lemma CloseIffNoOverflow(m: Meta, encoded: nat)
    requires IsEncodedVariant(m.head.mask) && 0 < m.contentLength < TWO32
    requires EncodedLength(WithEncodedLength(m, encoded)).Some?
    ensures Close(encoded, EncodedLength(WithEncodedLength(m, encoded)).value, m.contentLength)
            <==> encoded * RATIO_SCALE + m.contentLength / 2 < TWO64
  {
    hide IsEncodedVariant, RatioCode;
    if encoded * RATIO_SCALE + m.contentLength / 2 < TWO64 { EncodedLengthIsClose(m, encoded); }
  }

  /** Without the bound on the product the stored value may be unrelated to the size. */
  lemma OverflowMisleads()
    ensures var m := Meta(Head(9, 64, 1, 0), [], Freshness(0, 0, 0, 0), Quality(SCORE_NA, 4), Validators(0, []), 1,
                          NoBinding(), Policy(0, []), 0, 0, 0);
            EncodedLength(WithEncodedLength(m, 368934881474192)) == Some(1)
  {
    assert 368934881474192 * RATIO_SCALE + 1 / 2 == TWO64 + 48384;
  }
}
