/** The session handler frames every audio chunk on its own. This module compares the frames the detector is
    shown with the frames of the caller's audio stream. */
module ChunkwiseFraming {
  import opened Arithmetic
  import opened Seqs
  import opened Framing

  /** The frames shown to the detector over a sequence of chunks. */
  function Shown(chunks: seq<Bytes>, n: nat): seq<Bytes>
    requires n > 0
  {
    if chunks == [] then [] else Frames(chunks[0], n) + Shown(chunks[1..], n)
  }

  function Lengths(chunks: seq<Bytes>): seq<nat> {
    if chunks == [] then [] else [|chunks[0]|] + Lengths(chunks[1..])
  }

  function Sum(lengths: seq<nat>): nat {
    if lengths == [] then 0 else lengths[0] + Sum(lengths[1..])
  }

  /** Chunks end on frame boundaries, up to one after which less than a frame is left. */
  predicate Continuous(lengths: seq<nat>, n: nat)
    requires n > 0
  {
    lengths == [] ||
    if lengths[0] % n == 0 then Continuous(lengths[1..], n)
    else lengths[0] % n + Sum(lengths[1..]) < n
  }

  lemma {:induction false} RestLength(data: Bytes, n: nat)
    requires n > 0
    ensures |Rest(data, n)| == |data| % n
    decreases |data|
  {
    if |data| < n {
      DivModUnique(|data|, n, 0, |data|);
    } else {
      RestLength(data[n..], n);
      var shorter := |data| - n;
      assert shorter == shorter / n * n + shorter % n;
      Distribute(shorter / n, 1, n);
      DivModUnique(|data|, n, shorter / n + 1, shorter % n);
    }
  }

  lemma FirstOfStream(chunks: seq<Bytes>)
    requires chunks != []
    ensures Flatten(chunks) == chunks[0] + Flatten(chunks[1..])
  {
    FlattenCons(chunks[0], chunks[1..]);
    assert chunks == [chunks[0]] + chunks[1..];
  }

  lemma {:induction false} StreamLength(chunks: seq<Bytes>)
    ensures |Flatten(chunks)| == Sum(Lengths(chunks))
    decreases |chunks|
  {
    if chunks != [] {
      FirstOfStream(chunks);
      StreamLength(chunks[1..]);
      LengthsTail(chunks);
    }
  }

  lemma LengthsTail(chunks: seq<Bytes>)
    requires chunks != []
    ensures Lengths(chunks)[0] == |chunks[0]| && Lengths(chunks)[1..] == Lengths(chunks[1..])
  {}

  lemma {:induction false} ShortStreamShowsNothing(chunks: seq<Bytes>, n: nat)
    requires n > 0 && |Flatten(chunks)| < n
    ensures Shown(chunks, n) == []
    decreases |chunks|
  {
    if chunks != [] {
      FirstOfStream(chunks);
      ShortStreamShowsNothing(chunks[1..], n);
    }
  }

  /** On continuous chunks the detector is shown the frames of the stream. */
  lemma {:induction false} ContinuousShowsTheStream(chunks: seq<Bytes>, n: nat)
    requires n > 0 && Continuous(Lengths(chunks), n)
    ensures Shown(chunks, n) == Frames(Flatten(chunks), n)
    decreases |chunks|
  {
    if chunks != [] {
      var first, later := chunks[0], Flatten(chunks[1..]);
      LengthsTail(chunks);
      FirstOfStream(chunks);
      RestLength(first, n);
      FramesContinue(first, later, n);
      if |first| % n == 0 {
        assert Rest(first, n) == [] && [] + later == later;
        ContinuousShowsTheStream(chunks[1..], n);
      } else {
        StreamLength(chunks[1..]);
        ShortStreamShowsNothing(chunks[1..], n);
      }
    }
  }

  // ---------- the converse: audio that is never shown ----------

  ghost predicate Mentions(frames: seq<Bytes>, b: Byte) {
    exists i :: 0 <= i < |frames| && b in frames[i]
  }

  lemma MentionsAppend(f: seq<Bytes>, g: seq<Bytes>, b: Byte)
    ensures Mentions(f + g, b) <==> Mentions(f, b) || Mentions(g, b)
  {
    if Mentions(f, b) {
      var i :| 0 <= i < |f| && b in f[i];
      assert b in (f + g)[i];
    }
    if Mentions(g, b) {
      var i :| 0 <= i < |g| && b in g[i];
      assert b in (f + g)[|f| + i];
    }
  }

  function Zeros(length: nat): (r: Bytes)
    ensures |r| == length && forall i :: 0 <= i < length ==> r[i] == 0
  {
    seq(length, _ => 0)
  }

  lemma {:induction false} ZerosMentionNothing(length: nat, n: nat)
    requires n > 0
    ensures !Mentions(Frames(Zeros(length), n), 1)
    decreases length
  {
    if length >= n {
      var zeros := Zeros(length);
      assert zeros[n..] == Zeros(length - n);
      ZerosMentionNothing(length - n, n);
      MentionsAppend([zeros[..n]], Frames(zeros[n..], n), 1);
    }
  }

  function Silent(lengths: seq<nat>): seq<Bytes> {
    if lengths == [] then [] else [Zeros(lengths[0])] + Silent(lengths[1..])
  }

  lemma {:induction false} SilentChunks(lengths: seq<nat>, n: nat)
    requires n > 0
    ensures Lengths(Silent(lengths)) == lengths && !Mentions(Shown(Silent(lengths), n), 1)
    decreases |lengths|
  {
    if lengths != [] {
      SilentChunks(lengths[1..], n);
      ZerosMentionNothing(lengths[0], n);
      assert Silent(lengths)[1..] == Silent(lengths[1..]);
      MentionsAppend(Frames(Zeros(lengths[0]), n), Shown(Silent(lengths[1..]), n), 1);
    }
  }

  /** A chunk whose tail starts with a 1: the tail is not framed. */
  lemma MarkedChunk(length: nat, n: nat) returns (chunk: Bytes, tail: Bytes)
    requires n > 0 && length % n != 0
    ensures |chunk| == length && !Mentions(Frames(chunk, n), 1)
    ensures Rest(chunk, n) == tail && tail != [] && tail[0] == 1
  {
    var r := length % n;
    var whole := Zeros(length - r);
    tail := [1] + Zeros(r - 1);
    chunk := whole + tail;
    DivModUnique(length - r, n, length / n, 0);
    RestLength(whole, n);
    assert Rest(whole, n) == [] && [] + tail == tail;
    FramesContinue(whole, tail, n);
    ZerosMentionNothing(length - r, n);
    assert Frames(chunk, n) == Frames(whole, n) + [];
  }

  /** Where chunks are not continuous, some audio of the stream is in no frame the detector is shown. */
  lemma {:induction false} SomeAudioIsNotShown(lengths: seq<nat>, n: nat) returns (chunks: seq<Bytes>)
    requires n > 0 && !Continuous(lengths, n)
    ensures Lengths(chunks) == lengths
    ensures Mentions(Frames(Flatten(chunks), n), 1) && !Mentions(Shown(chunks, n), 1)
    decreases |lengths|
  {
    var first: Bytes, rest: seq<Bytes>;
    if lengths[0] % n == 0 {
      first := Zeros(lengths[0]);
      rest := SomeAudioIsNotShown(lengths[1..], n);
      ZerosMentionNothing(lengths[0], n);
      RestLength(first, n);
      assert Rest(first, n) == [] && [] + Flatten(rest) == Flatten(rest);
    } else {
      var tail;
      first, tail := MarkedChunk(lengths[0], n);
      rest := Silent(lengths[1..]);
      SilentChunks(lengths[1..], n);
      StreamLength(rest);
      RestLength(first, n);
      var pending := tail + Flatten(rest);
      assert pending[..n][0] == 1;
      assert Frames(pending, n)[0] == pending[..n];
    }
    chunks := [first] + rest;
    assert chunks[1..] == rest;
    FirstOfStream(chunks);
    FramesContinue(first, Flatten(rest), n);
    MentionsAppend(Frames(first, n), Frames(Rest(first, n) + Flatten(rest), n), 1);
    MentionsAppend(Frames(first, n), Shown(rest, n), 1);
  }

  /** For these chunk lengths, the detector is shown the frames of the stream, whatever its contents. */
  ghost predicate AlwaysShown(lengths: seq<nat>, n: nat)
    requires n > 0
  {
    forall chunks :: Lengths(chunks) == lengths ==> Shown(chunks, n) == Frames(Flatten(chunks), n)
  }

  /** The detector is shown the caller's stream exactly when chunks end on frame boundaries (save for a last,
      incomplete frame). */
  lemma StreamShownIffContinuous(lengths: seq<nat>, n: nat)
    requires n > 0
    ensures AlwaysShown(lengths, n) <==> Continuous(lengths, n)
  {
    if Continuous(lengths, n) {
      forall chunks | Lengths(chunks) == lengths ensures Shown(chunks, n) == Frames(Flatten(chunks), n) {
        ContinuousShowsTheStream(chunks, n);
      }
    } else {
      var chunks := SomeAudioIsNotShown(lengths, n);
      assert Lengths(chunks) == lengths;
    }
  }
}
