/** Fixed-size framing of a byte stream: the streaming `Chunker` and the one-shot `ChunkStatic`. */
module Framing {
  import opened Arithmetic
  import opened Seqs

  // ---------- specification ----------

  /** The complete frames of `data`, cut off the front one at a time. */
  function Frames(data: Bytes, n: nat): (frames: seq<Bytes>)
    requires n > 0
  {
    if |data| < n then [] else [data[..n]] + Frames(data[n..], n)
  }

  /** What the complete frames leave over. */
  function Rest(data: Bytes, n: nat): (rest: Bytes)
    requires n > 0
    ensures |rest| < n
  {
    if |data| < n then data else Rest(data[n..], n)
  }

  datatype ChunkResult = ChunkResult(frames: seq<Bytes>, partialFrame: Bytes)

  /** Frame `i` is bytes `[i*n, (i+1)*n)`; the partial frame is everything behind the last complete one. */
  ghost predicate CutsAt(result: ChunkResult, data: Bytes, n: nat)
    requires n > 0
  {
    && 0 <= |result.frames| * n <= |data| < |result.frames| * n + n
    && result.partialFrame == data[|result.frames| * n..]
    && forall i :: 0 <= i < |result.frames| ==> IsFrame(result.frames[i], data, i, n)
  }

  ghost predicate IsFrame(frame: Bytes, data: Bytes, i: nat, n: nat)
  {
    0 <= i * n && i * n + n <= |data| && frame == data[i * n..i * n + n]
  }

  // ---------- framing laws ----------

  /** Framing a longer stream continues from where framing the shorter one stopped. */
  lemma {:induction false} FramesContinue(a: Bytes, b: Bytes, n: nat)
    requires n > 0
    ensures Frames(a + b, n) == Frames(a, n) + Frames(Rest(a, n) + b, n)
    ensures Rest(a + b, n) == Rest(Rest(a, n) + b, n)
  {
    if |a| >= n {
      assert (a + b)[..n] == a[..n];
      assert (a + b)[n..] == a[n..] + b;
      FramesContinue(a[n..], b, n);
    }
  }

  /** No byte is lost, invented or moved by framing. */
  lemma {:induction false} FramesConserve(data: Bytes, n: nat)
    requires n > 0
    ensures data == Flatten(Frames(data, n)) + Rest(data, n)
    decreases |data|
  {
    if |data| >= n {
      FramesConserve(data[n..], n);
      FlattenCons(data[..n], Frames(data[n..], n));
      Regroup(data[..n], Flatten(Frames(data[n..], n)), Rest(data[n..], n));
      assert data == data[..n] + data[n..];
    }
  }

  lemma {:induction false} FlattenCons(first: Bytes, pieces: seq<Bytes>)
    ensures Flatten([first] + pieces) == first + Flatten(pieces)
    decreases |pieces|
  {
    if pieces == [] {
      assert [first] + pieces == [] + [first];
      FlattenSnoc([], first);
    } else {
      var front, last := pieces[..|pieces| - 1], pieces[|pieces| - 1];
      assert pieces == front + [last];
      FlattenCons(first, front);
      FlattenSnoc(front, last);
      Regroup([first], front, [last]);
      FlattenSnoc([first] + front, last);
      Regroup(first, Flatten(front), last);
    }
  }

  /** Cutting frames off the front and cutting at multiples of the frame size are the same thing. */
  lemma {:induction false} FramesCutAtMultiples(data: Bytes, n: nat)
    requires n > 0
    ensures CutsAt(ChunkResult(Frames(data, n), Rest(data, n)), data, n)
    decreases |data|
  {
    if |data| >= n {
      var rest := data[n..];
      FramesCutAtMultiples(rest, n);
      var frames, fewer := Frames(data, n), Frames(rest, n);
      Distribute(|fewer|, 1, n);
      assert rest[|fewer| * n..] == data[|fewer| * n + n..];
      forall i | 0 <= i < |frames| ensures IsFrame(frames[i], data, i, n) {
        if i > 0 {
          assert frames[i] == fewer[i - 1];
          ShiftFrame(fewer[i - 1], data, i - 1, n);
        }
      }
    }
  }

  lemma ShiftFrame(frame: Bytes, data: Bytes, i: nat, n: nat)
    requires n <= |data| && IsFrame(frame, data[n..], i, n)
    ensures IsFrame(frame, data, i + 1, n)
  {
    Distribute(i, 1, n);
    SliceOfDrop(data, n, i * n, i * n + n);
  }

  lemma SameCount(length: nat, c: nat, d: nat, n: nat)
    requires c * n <= length < c * n + n
    requires d * n <= length < d * n + n
    ensures c == d
  {
    if c < d {
      StrictlyMore(c, d, n);
    } else if d < c {
      StrictlyMore(d, c, n);
    }
  }

  lemma CutsAtUnique(r: ChunkResult, s: ChunkResult, data: Bytes, n: nat)
    requires n > 0 && CutsAt(r, data, n) && CutsAt(s, data, n)
    ensures r == s
  {
    SameCount(|data|, |r.frames|, |s.frames|, n);
    forall i | 0 <= i < |r.frames| ensures r.frames[i] == s.frames[i] {
      assert IsFrame(r.frames[i], data, i, n) && IsFrame(s.frames[i], data, i, n);
    }
  }

  /** What a chunker has emitted and still holds after a list of writes; `Chunker.Write` performs one such step. */
  function Feed(writes: seq<Bytes>, n: nat): (r: ChunkResult)
    requires n > 0
  {
    if writes == [] then ChunkResult([], [])
    else
      var before := Feed(writes[..|writes| - 1], n);
      var pending := before.partialFrame + writes[|writes| - 1];
      ChunkResult(before.frames + Frames(pending, n), Rest(pending, n))
  }

  lemma FeedSnoc(writes: seq<Bytes>, data: Bytes, n: nat)
    requires n > 0
    ensures var before, after := Feed(writes, n), Feed(writes + [data], n);
            && after.frames == before.frames + Frames(before.partialFrame + data, n)
            && after.partialFrame == Rest(before.partialFrame + data, n)
  {
    assert (writes + [data])[..|writes|] == writes;
  }

  /** However a stream is split into writes, the chunker produces the frames of the whole. */
  lemma {:induction false} FeedFramesTheWhole(writes: seq<Bytes>, n: nat)
    requires n > 0
    ensures Feed(writes, n) == ChunkResult(Frames(Flatten(writes), n), Rest(Flatten(writes), n))
    decreases |writes|
  {
    if writes != [] {
      var front, last := writes[..|writes| - 1], writes[|writes| - 1];
      FeedFramesTheWhole(front, n);
      FramesContinue(Flatten(front), last, n);
    }
  }

  /** Streaming then flushing equals one-shot framing, for every split of the stream. */
  lemma StreamingEqualsOneShot(writes: seq<Bytes>, n: nat, oneShot: ChunkResult)
    requires n > 0
    ensures CutsAt(oneShot, Flatten(writes), n) <==> oneShot == Feed(writes, n)
  {
    FeedFramesTheWhole(writes, n);
    FramesCutAtMultiples(Flatten(writes), n);
    if CutsAt(oneShot, Flatten(writes), n) {
      CutsAtUnique(oneShot, Feed(writes, n), Flatten(writes), n);
    }
  }

  // ---------- implementation ----------

  class Chunker {
    const frameSize: int
    const hasCallback: bool
    var buffer: Bytes
    var emitted: seq<Bytes>          // arguments of the onFrame calls, in order

    ghost var writes: seq<Bytes>     // the writes since construction, Flush or Reset
    ghost var earlier: seq<Bytes>    // the frames emitted before those writes

    /** The chunker is always where `Feed` says its writes have taken it. */
    ghost predicate Valid()
      reads this
    {
      && frameSize > 0
      && buffer == Feed(writes, frameSize).partialFrame
      && emitted == earlier + (if hasCallback then Feed(writes, frameSize).frames else [])
    }

    constructor (frameSize: int, hasCallback: bool)
      requires frameSize > 0
      ensures Valid() && writes == [] && earlier == []
      ensures this.frameSize == frameSize && this.hasCallback == hasCallback
    {
      this.frameSize := frameSize;
      this.hasCallback := hasCallback;
      buffer, emitted, writes, earlier := [], [], [], [];
    }

    method Write(data: Bytes)
      requires Valid()
      modifies this
      ensures Valid() && writes == old(writes) + [data] && earlier == old(earlier)
    {
      buffer := buffer + data;
      ghost var pending := buffer;
      ghost var had := emitted;

      while |buffer| >= frameSize
        invariant frameSize > 0
        invariant writes == old(writes) && earlier == old(earlier)
        invariant Rest(buffer, frameSize) == Rest(pending, frameSize)
        invariant hasCallback ==>
                    emitted + Frames(buffer, frameSize) == had + Frames(pending, frameSize)
        invariant !hasCallback ==> emitted == had
        decreases |buffer|
      {
        var frame := buffer[..frameSize];
        Regroup(emitted, [frame], Frames(buffer[frameSize..], frameSize));
        if hasCallback {
          emitted := emitted + [frame];
        }
        buffer := buffer[frameSize..];
      }

      assert Frames(buffer, frameSize) == [] && emitted + [] == emitted;
      FeedSnoc(writes, data, frameSize);
      if hasCallback {
        Regroup(earlier, Feed(writes, frameSize).frames, Frames(pending, frameSize));
      }
      writes := writes + [data];
    }

    /** Returns the unframed tail and starts afresh; the frames already emitted stay emitted. */
    method Flush() returns (partialFrame: Bytes)
      requires Valid()
      modifies this
      ensures Valid() && writes == [] && emitted == old(emitted) && earlier == emitted
      ensures partialFrame == old(Feed(writes, frameSize).partialFrame)
      ensures buffer == []
    {
      if |buffer| == 0 {
        partialFrame := [];
      } else {
        partialFrame := buffer;
        buffer := [];
      }
      writes, earlier := [], emitted;
    }

    method Reset()
      requires Valid()
      modifies this
      ensures Valid() && writes == [] && emitted == old(emitted) && earlier == emitted && buffer == []
    {
      buffer := [];
      writes, earlier := [], emitted;
    }
  }

  /** One-shot framing; a non-positive frame size makes everything one partial frame. */
  method ChunkStatic(data: Bytes, frameSize: int) returns (result: ChunkResult)
    ensures frameSize <= 0 ==> result == ChunkResult([], data)
    ensures frameSize > 0 ==> CutsAt(result, data, frameSize)
  {
    if frameSize <= 0 {
      return ChunkResult([], data);
    }
    var numCompleteFrames := |data| / frameSize;
    var remaining := |data| % frameSize;
    WholeAndRemainder(|data|, frameSize);

    var frames := new Bytes[numCompleteFrames](_ => []);
    for i := 0 to numCompleteFrames
      invariant forall j :: 0 <= j < i ==> IsFrame(frames[j], data, j, frameSize)
    {
      FrameFits(i, numCompleteFrames, frameSize);
      frames[i] := data[i * frameSize..(i + 1) * frameSize];
    }

    var partialFrame := [];
    if remaining > 0 {
      partialFrame := data[numCompleteFrames * frameSize..];
    }
    result := ChunkResult(frames[..], partialFrame);
  }

  lemma WholeAndRemainder(length: nat, n: nat)
    requires n > 0
    ensures 0 <= length / n && 0 <= length % n < n
    ensures 0 <= length / n * n && length / n * n + length % n == length
  {}

  lemma FrameFits(i: nat, count: nat, n: nat)
    requires i < count
    ensures (i + 1) * n == i * n + n
    ensures 0 <= i * n <= (i + 1) * n <= count * n
  {
    Distribute(i, 1, n);
    ProductNonNegative(i, n);
    StrictlyMore(i, count, n);
  }
}
