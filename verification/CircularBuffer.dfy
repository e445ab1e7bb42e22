/** The overwriting ring buffer for audio bytes. */
module RingBuffering {
  import opened Arithmetic
  import opened Seqs

  /** What a ring of `size` bytes holding `contents` holds after `p` is written to it. */
  function Window(contents: Bytes, p: Bytes, size: nat): Bytes {
    Last(contents + p, size)
  }

  /** The oldest bytes make room for the newest: what is dropped is a prefix. */
  lemma WindowExactly(contents: Bytes, p: Bytes, size: nat) returns (dropped: Bytes)
    ensures contents + p == dropped + Window(contents, p, size)
    ensures dropped == [] || |Window(contents, p, size)| == size
    ensures |Window(contents, p, size)| <= size
  {
    dropped := (contents + p)[..|contents + p| - |Window(contents, p, size)|];
    LastIsSuffix(contents + p, size);
  }

  /** Writing piecewise is writing at once, in whatever pieces. */
  lemma {:induction false} PiecesDoNotMatter(contents: Bytes, pieces: seq<Bytes>, size: nat)
    requires |contents| <= size
    ensures WriteAll(contents, pieces, size) == Window(contents, Flatten(pieces), size)
    decreases |pieces|
  {
    if pieces == [] {
      assert contents + [] == contents;
    } else {
      var front, last := pieces[..|pieces| - 1], pieces[|pieces| - 1];
      PiecesDoNotMatter(contents, front, size);
      LastAbsorbs(contents + Flatten(front), last, size);
      Regroup(contents, Flatten(front), last);
    }
  }

  function WriteAll(contents: Bytes, pieces: seq<Bytes>, size: nat): Bytes {
    if pieces == [] then contents
    else Window(WriteAll(contents, pieces[..|pieces| - 1], size), pieces[|pieces| - 1], size)
  }

  lemma OneMoreByte(contents: Bytes, p: Bytes, i: nat, size: nat)
    requires i < |p|
    ensures Window(Window(contents, p[..i], size), [p[i]], size) == Window(contents, p[..i + 1], size)
  {
    LastAbsorbs(contents + p[..i], [p[i]], size);
    Regroup(contents, p[..i], [p[i]]);
    assert p[..i] + [p[i]] == p[..i + 1];
  }

  // ---------- positions on the ring ----------

  /** The position `i` places after `pos` on the ring. */
  function Place(pos: nat, i: nat, size: nat): nat
    requires pos < size && i <= size
    ensures Place(pos, i, size) < size
  {
    if pos + i < size then pos + i else pos + i - size
  }

  lemma Wrap(pos: nat, i: nat, size: nat)
    requires pos < size && i <= size
    ensures (pos + i) % size == Place(pos, i, size)
  {
    DivModUnique(pos + i, size, if pos + i < size then 0 else 1, Place(pos, i, size));
  }

  /** The `count` bytes from `readPos` on, around the ring. */
  function Unread(ring: Bytes, readPos: nat, count: nat): (r: Bytes)
    requires readPos < |ring| && count <= |ring|
    ensures |r| == count
  {
    seq(count, i requires 0 <= i < count && readPos < |ring| && count <= |ring| => ring[Place(readPos, i, |ring|)])
  }

  lemma Appended(ring: Bytes, readPos: nat, count: nat, b: Byte)
    requires readPos < |ring| && count < |ring|
    ensures Unread(ring[Place(readPos, count, |ring|) := b], readPos, count + 1)
         == Window(Unread(ring, readPos, count), [b], |ring|)
  {
    assert Window(Unread(ring, readPos, count), [b], |ring|) == Unread(ring, readPos, count) + [b];
  }

  lemma Overwritten(ring: Bytes, readPos: nat, b: Byte)
    requires readPos < |ring|
    ensures Unread(ring[readPos := b], Place(readPos, 1, |ring|), |ring|)
         == Window(Unread(ring, readPos, |ring|), [b], |ring|)
  {
    var size := |ring|;
    var before, after := Unread(ring, readPos, size), Unread(ring[readPos := b], Place(readPos, 1, size), size);
    assert Window(before, [b], size) == (before + [b])[1..];
    forall i | 0 <= i < size ensures after[i] == (before + [b])[i + 1] {
    }
  }

  lemma Removed(ring: Bytes, readPos: nat, count: nat)
    requires readPos < |ring| && 0 < count <= |ring|
    ensures Unread(ring, Place(readPos, 1, |ring|), count - 1) == Unread(ring, readPos, count)[1..]
  {}

  // ---------- implementation ----------

  class CircularBuffer {
    const data: array<Byte>
    const size: nat
    var readPos: nat
    var writePos: nat
    var count: nat

    ghost predicate Valid()
      reads this
    {
      && size > 0 && data.Length == size
      && readPos < size && count <= size
      && writePos == Place(readPos, count, size)
    }

    /** The unread bytes, oldest first. */
    ghost function Contents(): (r: Bytes)
      reads this, data
      requires Valid()
      ensures |r| == count
    {
      Unread(data[..], readPos, count)
    }

    constructor (size: nat)
      requires size > 0
      ensures Valid() && this.size == size && Contents() == [] && fresh(data)
    {
      this.size := size;
      data := new Byte[size](_ => 0);
      readPos, writePos, count := 0, 0, 0;
    }

    /** The ring keeps the last `size` bytes of everything unread and written. */
    method Write(p: Bytes) returns (written: nat)
      requires Valid()
      modifies this`readPos, this`writePos, this`count, data
      ensures Valid() && written == |p|
      ensures Contents() == Window(old(Contents()), p, size)
    {
      written := 0;
      assert old(Contents()) + p[..0] == old(Contents());
      while written < |p|
        invariant written <= |p| && Valid()
        invariant Contents() == Window(old(Contents()), p[..written], size)
      {
        WriteByte(p[written]);
        OneMoreByte(old(Contents()), p, written, size);
        written := written + 1;
      }
      assert p[..|p|] == p;
    }

    method WriteByte(b: Byte)
      requires Valid()
      modifies this`readPos, this`writePos, this`count, data
      ensures Valid() && Contents() == Window(old(Contents()), [b], size)
    {
      ghost var ring := data[..];
      Wrap(readPos, 1, size);
      if count >= size {
        Overwritten(ring, readPos, b);
        readPos := (readPos + 1) % size;
      } else {
        Appended(ring, readPos, count, b);
        count := count + 1;
      }
      data[writePos] := b;
      assert data[..] == ring[writePos := b];
      Wrap(writePos, 1, size);
      writePos := (writePos + 1) % size;
    }

    /** Removes a prefix of the unread bytes, as much as fits, and copies it to the front of `p`. */
    method Read(p: array<Byte>) returns (n: nat)
      requires Valid() && p != data
      modifies this`readPos, this`count, p
      ensures Valid() && n == (if p.Length <= |old(Contents())| then p.Length else |old(Contents())|)
      ensures p[..n] == old(Contents())[..n]
      ensures p[n..] == old(p[n..])
      ensures Contents() == old(Contents())[n..]
    {
      n := p.Length;
      if n > count {
        n := count;
      }
      var i := 0;
      ghost var all := Contents();
      while i < n
        invariant i <= n <= |all| && n <= p.Length && Valid()
        invariant Contents() == all[i..]
        invariant p[..i] == all[..i]
        invariant p[n..] == old(p[n..])
      {
        var b := ReadByte();
        p[i] := b;
        assert all[..i + 1] == all[..i] + [all[i]];
        i := i + 1;
      }
    }

    method ReadByte() returns (b: Byte)
      requires Valid() && Contents() != []
      modifies this`readPos, this`count
      ensures Valid() && b == old(Contents())[0] && Contents() == old(Contents())[1..]
    {
      Removed(data[..], readPos, count);
      b := data[readPos];
      Wrap(readPos, 1, size);
      readPos := (readPos + 1) % size;
      count := count - 1;
    }

    method Reset()
      requires Valid()
      modifies this`readPos, this`writePos, this`count
      ensures Valid() && Contents() == []
    {
      readPos, writePos, count := 0, 0, 0;
    }
  }
}
