/** Texts put together from consecutive pieces, and where each piece stands. */
module Chunks {

  function Join<T>(chunks: seq<seq<T>>): seq<T> {
    if chunks == [] then [] else chunks[0] + Join(chunks[1..])
  }

  function Offset<T>(chunks: seq<seq<T>>, i: nat): nat
    requires i <= |chunks|
  {
    if i == 0 then 0 else Offset(chunks, i - 1) + |chunks[i - 1]|
  }

  lemma {:induction false} JoinSplit<T>(chunks: seq<seq<T>>, i: nat)
    requires i <= |chunks|
    ensures Join(chunks) == Join(chunks[..i]) + Join(chunks[i..])
  {
    if i == 0 {
      assert chunks[0..] == chunks;
    } else {
      JoinSplit(chunks[1..], i - 1);
      assert chunks[1..][..i - 1] == chunks[..i][1..];
      assert chunks[1..][i - 1..] == chunks[i..];
      assert chunks[0] + (Join(chunks[..i][1..]) + Join(chunks[i..]))
          == (chunks[0] + Join(chunks[..i][1..])) + Join(chunks[i..]);
    }
  }

  lemma {:induction false} OffsetIsLength<T>(chunks: seq<seq<T>>, i: nat)
    requires i <= |chunks|
    ensures |Join(chunks[..i])| == Offset(chunks, i)
  {
    if i > 0 {
      OffsetIsLength(chunks, i - 1);
      JoinTake(chunks, i - 1);
    }
  }

  /** One more piece. */
  lemma JoinTake<T>(chunks: seq<seq<T>>, i: nat)
    requires i < |chunks|
    ensures Join(chunks[..i]) + chunks[i] == Join(chunks[..i + 1])
  {
    var front := chunks[..i + 1];
    JoinSplit(front, i);
    assert front[..i] == chunks[..i] && front[i..] == [chunks[i]];
  }

  lemma LengthOf<T>(chunks: seq<seq<T>>)
    ensures |Join(chunks)| == Offset(chunks, |chunks|)
  {
    OffsetIsLength(chunks, |chunks|);
    assert chunks[..|chunks|] == chunks;
  }

  /** What stands before and after a piece, whatever follows the text. */
  lemma Around<T>(chunks: seq<seq<T>>, tail: seq<T>, i: nat) returns (pre: seq<T>, post: seq<T>)
    requires i < |chunks|
    ensures Join(chunks) + tail == pre + chunks[i] + post && |pre| == Offset(chunks, i)
    ensures Offset(chunks, i) + |chunks[i]| <= |Join(chunks)|
  {
    JoinSplit(chunks, i);
    OffsetIsLength(chunks, i);
    pre, post := Join(chunks[..i]), Join(chunks[i + 1..]) + tail;
    assert Join(chunks[i..]) == chunks[i] + Join(chunks[i + 1..]);
    Reassociate(pre, chunks[i], Join(chunks[i + 1..]), tail);
  }

  lemma Reassociate<T>(a: seq<T>, b: seq<T>, c: seq<T>, d: seq<T>)
    ensures (a + (b + c)) + d == a + b + (c + d)
  {}

  function Mid<T>(v: seq<T>, from: nat, n: nat): seq<T>
    requires from + n <= |v|
  {
    v[from..from + n]
  }

  lemma MidOf<T>(pre: seq<T>, g: seq<T>, post: seq<T>)
    ensures Mid(pre + g + post, |pre|, |g|) == g
  {}

  /** A piece is found at its offset. */
  lemma PieceAt<T>(chunks: seq<seq<T>>, i: nat)
    requires i < |chunks|
    ensures Offset(chunks, i) + |chunks[i]| <= |Join(chunks)|
    ensures Mid(Join(chunks), Offset(chunks, i), |chunks[i]|) == chunks[i]
  {
    hide Join, Offset, Mid;
    var pre, post := Around(chunks, [], i);
    assert Join(chunks) + [] == Join(chunks);
    MidOf(pre, chunks[i], post);
  }

  lemma TakeMore<T>(v: seq<T>, from: nat, n: nat)
    requires from + n <= |v|
    ensures v[..from + n] == v[..from] + Mid(v, from, n)
  {}

  /** The text has the piece at its offset. */
  ghost predicate Agrees<T>(chunks: seq<seq<T>>, v: seq<T>, i: nat)
    requires i < |chunks|
  {
    Offset(chunks, i) + |chunks[i]| <= |v| && Mid(v, Offset(chunks, i), |chunks[i]|) == chunks[i]
  }

  /** A text that agrees piece by piece is the whole. */
  lemma {:induction false} JoinUnique<T>(chunks: seq<seq<T>>, v: seq<T>, n: nat)
    requires n <= |chunks| && Offset(chunks, n) <= |v|
    requires forall i | 0 <= i < n :: Agrees(chunks, v, i)
    ensures v[..Offset(chunks, n)] == Join(chunks[..n])
  {
    hide Join, Mid;
    if n > 0 {
      assert Agrees(chunks, v, n - 1);
      JoinUnique(chunks, v, n - 1);
      JoinTake(chunks, n - 1);
      TakeMore(v, Offset(chunks, n - 1), |chunks[n - 1]|);
    } else {
      JoinNothing(chunks);
    }
  }

  lemma JoinNothing<T>(chunks: seq<seq<T>>)
    ensures Join(chunks[..0]) == []
  {}
}
