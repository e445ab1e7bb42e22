/** Vocabulary shared by the modules: bytes, suffixes and concatenation of pieces. */
module Seqs {

  type Byte = x: int | 0 <= x < 256

  type Bytes = seq<Byte>

  /** The last `n` elements of `s`, or all of `s` when it is shorter. */
  function Last<T>(s: seq<T>, n: nat): (r: seq<T>)
    ensures |r| == if |s| <= n then |s| else n
  {
    if |s| <= n then s else s[|s| - n..]
  }

  lemma LastIsSuffix<T>(s: seq<T>, n: nat)
    ensures s == s[..|s| - |Last(s, n)|] + Last(s, n)
  {}

  lemma LastOfAppend<T>(a: seq<T>, b: seq<T>, n: nat)
    requires n <= |b|
    ensures Last(a + b, n) == Last(b, n)
  {
    assert (a + b)[|a| + (|b| - n)..] == b[|b| - n..];
  }

  /** Keeping a suffix, growing it and keeping a shorter one forgets nothing that a single cut would keep. */
  lemma LastShrinks<T>(a: seq<T>, b: seq<T>, wide: nat, narrow: nat)
    requires narrow <= wide
    ensures Last(Last(a, wide) + b, narrow) == Last(a + b, narrow)
  {
    if wide < |a| {
      var dropped, kept := a[..|a| - wide], a[|a| - wide..];
      assert a == dropped + kept;
      Regroup(dropped, kept, b);
      LastOfAppend(dropped, kept + b, narrow);
    }
  }

  lemma LastAbsorbs<T>(a: seq<T>, b: seq<T>, n: nat)
    ensures Last(Last(a, n) + b, n) == Last(a + b, n)
  {
    LastShrinks(a, b, n, n);
  }

  lemma SliceOfDrop<T>(s: seq<T>, n: nat, lo: nat, hi: nat)
    requires lo <= hi && n + hi <= |s|
    ensures s[n..][lo..hi] == s[n + lo..n + hi]
  {}

  function Flatten<T>(pieces: seq<seq<T>>): (r: seq<T>)
  {
    if pieces == [] then [] else Flatten(pieces[..|pieces| - 1]) + pieces[|pieces| - 1]
  }

  lemma FlattenSnoc<T>(pieces: seq<seq<T>>, last: seq<T>)
    ensures Flatten(pieces + [last]) == Flatten(pieces) + last
  {
    assert (pieces + [last])[..|pieces|] == pieces;
  }

  lemma Regroup<T>(a: seq<T>, b: seq<T>, c: seq<T>)
    ensures a + b + c == a + (b + c)
  {}
}
