/** The provider gateway's offline detector: the speech runs of a whole audio buffer. */
module SpeechRuns {
  import opened Arithmetic
  import opened Resampling
  import opened Seqs

  type Audio = seq<Sample>

  /** An odd byte at the end of a PCM16 buffer becomes the low byte of a last sample. */
  function Padded(buffer: Bytes): (r: Bytes)
    ensures |r| % 2 == 0 && buffer <= r <= buffer + [0]
  {
    if |buffer| % 2 != 0 then buffer + [0] else buffer
  }

  /** Positions are in samples. */
  datatype VADSegment = VADSegment(startSample: int, endSample: int)

  /** An audio buffer cut into frames, with the energy comparison that tells speech frames. */
  datatype Scan = Scan(audio: Audio, frameSize: nat, isSpeech: Audio -> bool) {

    /** Frame `k` is complete and holds speech. */
    predicate Loud(k: nat) {
      && 0 <= k * frameSize
      && k * frameSize + frameSize <= |audio|
      && isSpeech(audio[k * frameSize..k * frameSize + frameSize])
    }

    /** Frames [a, b) are loud and frame a-1, if any, is not. */
    ghost predicate OpenRun(a: nat, b: nat) {
      && a < b
      && (forall k: nat :: a <= k < b ==> Loud(k))
      && (a == 0 || !Loud(a - 1))
    }

    /** A longest run of loud frames. */
    ghost predicate MaximalRun(a: nat, b: nat) {
      OpenRun(a, b) && !Loud(b)
    }

    function Segment(a: nat, b: nat): (s: VADSegment)
      ensures s.startSample == a * frameSize && s.endSample == b * frameSize
    {
      VADSegment(a * frameSize, b * frameSize)
    }

    /** A maximal run of at least `minSpeechSamples` samples. */
    ghost predicate Reported(minSpeechSamples: int, a: nat, b: nat) {
      MaximalRun(a, b) && b * frameSize - a * frameSize >= minSpeechSamples
    }

    /** `segments` are the reported runs that end before frame `upto`, no more and no fewer. */
    ghost predicate ExactlyBefore(segments: seq<VADSegment>, minSpeechSamples: int, upto: nat) {
      && (forall a: nat, b: nat :: b < upto && Reported(minSpeechSamples, a, b) ==> Segment(a, b) in segments)
      && (forall s :: s in segments ==> exists a: nat, b: nat ::
            b < upto && Reported(minSpeechSamples, a, b) && s == Segment(a, b))
    }

    /** `segments` are the reported runs of the whole buffer. */
    ghost predicate Exactly(segments: seq<VADSegment>, minSpeechSamples: int) {
      && (forall a: nat, b: nat :: Reported(minSpeechSamples, a, b) ==> Segment(a, b) in segments)
      && (forall s :: s in segments ==> exists a: nat, b: nat ::
            Reported(minSpeechSamples, a, b) && s == Segment(a, b))
    }

    // ---------- runs ----------

    /** A maximal run that ends before an open one does lies before it. */
    lemma EarlierRun(a: nat, b: nat, c: nat, d: nat)
      requires MaximalRun(a, b) && OpenRun(c, d) && b < d
      ensures b < c
    {}

    /** Runs with the same end have the same start. */
    lemma SameStart(a: nat, c: nat, d: nat)
      requires OpenRun(a, d) && OpenRun(c, d)
      ensures a == c
    {}

    /** Passing a frame at which no run ends. */
    lemma NothingCloses(segments: seq<VADSegment>, minSpeechSamples: int, k: nat)
      requires ExactlyBefore(segments, minSpeechSamples, k)
      requires Loud(k) || k == 0 || !Loud(k - 1)
      ensures ExactlyBefore(segments, minSpeechSamples, k + 1)
    {
      assert forall a: nat :: OpenRun(a, k) && k > 0 ==> Loud(k - 1);
    }

    /** Closing the run [first, k) when it is long enough. */
    lemma RunReported(segments: seq<VADSegment>, minSpeechSamples: int, first: nat, k: nat)
      requires ExactlyBefore(segments, minSpeechSamples, k) && Reported(minSpeechSamples, first, k)
      ensures ExactlyBefore(segments + [Segment(first, k)], minSpeechSamples, k + 1)
    {
      var now := segments + [Segment(first, k)];
      assert Segment(first, k) == now[|segments|];
      forall a: nat, b: nat | b < k + 1 && Reported(minSpeechSamples, a, b) ensures Segment(a, b) in now {
        if b == k {
          SameStart(a, first, k);
        } else {
          assert Segment(a, b) in segments;
        }
      }
      forall s | s in now
        ensures exists a: nat, b: nat :: b < k + 1 && Reported(minSpeechSamples, a, b) && s == Segment(a, b)
      {
        if s in segments {
          var a: nat, b: nat :| b < k && Reported(minSpeechSamples, a, b) && s == Segment(a, b);
        } else {
          assert s == Segment(first, k);
        }
      }
    }

    /** And when it is too short. */
    lemma RunIgnored(segments: seq<VADSegment>, minSpeechSamples: int, first: nat, k: nat)
      requires ExactlyBefore(segments, minSpeechSamples, k)
      requires MaximalRun(first, k) && !Reported(minSpeechSamples, first, k)
      ensures ExactlyBefore(segments, minSpeechSamples, k + 1)
    {
      forall a: nat, b: nat | b < k + 1 && Reported(minSpeechSamples, a, b) ensures b < k {
        if b == k {
          SameStart(a, first, k);
        }
      }
    }

    lemma StaysSeparated(segments: seq<VADSegment>, minSpeechSamples: int, first: nat, k: nat)
      requires frameSize > 0 && ExactlyBefore(segments, minSpeechSamples, k) && Separated(segments)
      requires MaximalRun(first, k)
      ensures Separated(segments + [Segment(first, k)])
    {
      StrictlyMore(first, k, frameSize);
      forall i | 0 <= i < |segments| ensures segments[i].endSample < first * frameSize {
        assert segments[i] in segments;
        var a: nat, b: nat :| b < k && Reported(minSpeechSamples, a, b) && segments[i] == Segment(a, b);
        EarlierRun(a, b, first, k);
        StrictlyMore(b, first, frameSize);
      }
    }

    /** Every run ends by the last complete frame. */
    lemma RunsEndInside(n: nat, a: nat, b: nat)
      requires frameSize > 0 && n * frameSize + frameSize > |audio| && OpenRun(a, b)
      ensures b <= n
    {
      if b > n {
        assert Loud(b - 1);
        if b - 1 > n {
          StrictlyMore(n, b - 1, frameSize);
        }
      }
    }

    // ---------- the scan ----------

    /** What is known on reaching frame `k`: frame `first` opened the current run, if there is one. */
    ghost predicate Scanned(segments: seq<VADSegment>, minSpeechSamples: int, k: nat, speaking: bool, first: nat) {
      && Separated(segments) && ExactlyBefore(segments, minSpeechSamples, k)
      && if speaking then OpenRun(first, k) else k == 0 || !Loud(k - 1)
    }

    lemma SpeechFrame(segments: seq<VADSegment>, minSpeechSamples: int, k: nat, speaking: bool, first: nat)
      requires Scanned(segments, minSpeechSamples, k, speaking, first) && Loud(k)
      ensures Scanned(segments, minSpeechSamples, k + 1, true, if speaking then first else k)
    {
      NothingCloses(segments, minSpeechSamples, k);
    }

    function Closed(segments: seq<VADSegment>, minSpeechSamples: int, k: nat, speaking: bool, first: nat): seq<VADSegment> {
      if speaking && k * frameSize - first * frameSize >= minSpeechSamples then segments + [Segment(first, k)]
      else segments
    }

    lemma SilentFrame(segments: seq<VADSegment>, minSpeechSamples: int, k: nat, speaking: bool, first: nat)
      requires frameSize > 0 && Scanned(segments, minSpeechSamples, k, speaking, first) && !Loud(k)
      ensures Scanned(Closed(segments, minSpeechSamples, k, speaking, first), minSpeechSamples, k + 1, false, first)
    {
      if !speaking {
        NothingCloses(segments, minSpeechSamples, k);
      } else if Reported(minSpeechSamples, first, k) {
        RunReported(segments, minSpeechSamples, first, k);
        StaysSeparated(segments, minSpeechSamples, first, k);
      } else {
        RunIgnored(segments, minSpeechSamples, first, k);
      }
    }

    lemma ExactlyByTheEnd(segments: seq<VADSegment>, minSpeechSamples: int, n: nat)
      requires frameSize > 0 && n * frameSize + frameSize > |audio|
      requires ExactlyBefore(segments, minSpeechSamples, n + 1)
      ensures Exactly(segments, minSpeechSamples)
    {
      forall a: nat, b: nat | Reported(minSpeechSamples, a, b) ensures b < n + 1 {
        RunsEndInside(n, a, b);
      }
    }
  }

  /** In order, disjoint and not even adjacent. */
  ghost predicate Separated(segments: seq<VADSegment>) {
    && (forall i :: 0 <= i < |segments| ==> segments[i].startSample < segments[i].endSample)
    && (forall i, j :: 0 <= i < j < |segments| ==> segments[i].endSample < segments[j].startSample)
  }

  /** There is one such list of segments: order and contents determine it. */
  lemma {:induction false} SegmentsUnique(scan: Scan, minSpeechSamples: int, s: seq<VADSegment>, t: seq<VADSegment>)
    requires Separated(s) && Separated(t)
    requires scan.Exactly(s, minSpeechSamples) && scan.Exactly(t, minSpeechSamples)
    ensures s == t
  {
    SubsetOf(scan, minSpeechSamples, s, t);
    SubsetOf(scan, minSpeechSamples, t, s);
    SameElementsSameList(s, t);
  }

  lemma SubsetOf(scan: Scan, minSpeechSamples: int, s: seq<VADSegment>, t: seq<VADSegment>)
    requires scan.Exactly(s, minSpeechSamples) && scan.Exactly(t, minSpeechSamples)
    ensures forall x :: x in s ==> x in t
  {}

  lemma {:induction false} SameElementsSameList(s: seq<VADSegment>, t: seq<VADSegment>)
    requires Separated(s) && Separated(t)
    requires forall x :: x in s <==> x in t
    ensures s == t
    decreases |s|
  {
    HeadIn(s);
    HeadIn(t);
    if s != [] && t != [] {
      assert s[0] == t[0];
      TailElements(s);
      TailElements(t);
      SameElementsSameList(s[1..], t[1..]);
      assert s == [s[0]] + s[1..] && t == [t[0]] + t[1..];
    }
  }

  lemma HeadIn(s: seq<VADSegment>)
    ensures s != [] ==> s[0] in s
  {}

  lemma TailElements(s: seq<VADSegment>)
    requires s != [] && Separated(s)
    ensures Separated(s[1..])
    ensures forall x :: x in s[1..] <==> x in s && x != s[0]
  {
    forall x | x in s && x != s[0] ensures x in s[1..] {
      var i :| 0 <= i < |s| && s[i] == x;
      assert s[1..][i - 1] == x;
    }
  }

  // ---------- implementation ----------

  class EnergyVADProvider {
    const isSpeech: Audio -> bool
    const minSpeechDurationMs: int

    constructor (isSpeech: Audio -> bool, minSpeechDurationMs: int)
      ensures this.isSpeech == isSpeech && this.minSpeechDurationMs == minSpeechDurationMs
    {
      this.isSpeech := isSpeech;
      this.minSpeechDurationMs := minSpeechDurationMs;
    }

    /** Below 34 Hz a 30 ms frame holds no sample and the scan would not advance. */
    method ProcessBuffer(buffer: Bytes, sampleRate: nat) returns (segments: seq<VADSegment>)
      requires sampleRate >= 34
      ensures Separated(segments)
      ensures Scan(Samples(Padded(buffer)), sampleRate * 30 / 1000, isSpeech)
              .Exactly(segments, TruncDiv(sampleRate * minSpeechDurationMs, 1000))
    {
      var audioBuffer := buffer;
      if |audioBuffer| % 2 != 0 {
        audioBuffer := audioBuffer + [0];
      }
      var audio := BytesToSamples(audioBuffer);
      var frameSize := sampleRate * 30 / 1000;
      var minSpeechSamples := TruncDiv(sampleRate * minSpeechDurationMs, 1000);
      ghost var scan := Scan(audio, frameSize, isSpeech);

      segments := [];
      var currentSample := 0;
      var speaking := false;
      var speechStart := 0;

      ghost var k: nat := 0;       // the frame at currentSample
      ghost var first: nat := 0;   // the frame at speechStart
      while currentSample + frameSize <= |audio|
        invariant 0 <= currentSample == k * frameSize
        invariant speaking ==> speechStart == first * frameSize
        invariant scan.Scanned(segments, minSpeechSamples, k, speaking, first)
        decreases |audio| - currentSample
      {
        Distribute(k, 1, frameSize);
        if isSpeech(audio[currentSample..currentSample + frameSize]) {
          scan.SpeechFrame(segments, minSpeechSamples, k, speaking, first);
          if !speaking {
            speaking := true;
            speechStart := currentSample;
            first := k;
          }
        } else {
          scan.SilentFrame(segments, minSpeechSamples, k, speaking, first);
          if speaking {
            var speechDuration := currentSample - speechStart;
            if speechDuration >= minSpeechSamples {
              segments := segments + [VADSegment(speechStart, currentSample)];
            }
            speaking := false;
          }
        }
        currentSample := currentSample + frameSize;
        k := k + 1;
      }

      scan.SilentFrame(segments, minSpeechSamples, k, speaking, first);
      if speaking {
        var speechDuration := currentSample - speechStart;
        if speechDuration >= minSpeechSamples {
          segments := segments + [VADSegment(speechStart, currentSample)];
        }
      }
      scan.ExactlyByTheEnd(segments, minSpeechSamples, k);
    }
  }
}
