/** An assistant turn: generated text, and how much of its audio has been sent. */
module AssistantTurns {
  import opened Arithmetic

  const NANOS := 1_000_000_000

  const BYTES_PER_SAMPLE := 2   // PCM16
  const CHARS_PER_SECOND := 15
  const MANAGER_RATE := 16000   // the rate the turn manager assumes

  // ---------- duration arithmetic (exact rationals in place of float64) ----------

  /** calculateDurationFromBytes, in nanoseconds. */
  function Duration(sampleRate: nat, bytes: nat): nat {
    if sampleRate == 0 then 0 else bytes / BYTES_PER_SAMPLE * NANOS / sampleRate
  }

  /** The characters spoken in a duration. */
  function CharsIn(nanos: nat): nat {
    nanos * CHARS_PER_SECOND / NANOS
  }

  /** The manager's conversion of a duration back to bytes. */
  function BytesAt16k(nanos: nat): nat {
    nanos * MANAGER_RATE / NANOS * BYTES_PER_SAMPLE
  }

  function Prefix(text: string, chars: nat): string {
    if |text| > chars then text[..chars] else text
  }

  function Chars(sampleRate: nat, cursor: nat): nat {
    CharsIn(Duration(sampleRate, cursor))
  }

  /** The text that matches the audio sent so far. */
  function Committable(text: string, sampleRate: nat, cursor: nat): string {
    Prefix(text, Chars(sampleRate, cursor))
  }

  function Interrupted(cursor: nat, position: nat): nat {
    if position < cursor then position else cursor
  }

  /** `q` is the whole part of `x / n`. */
  ghost predicate IsWhole(q: int, x: int, n: int) {
    q * n <= x < q * n + n
  }

  /** 2 bytes a sample, 15 characters a second, 16000 samples a second; times in nanoseconds. */
  lemma ConversionsExactly(sampleRate: nat, bytes: nat, nanos: nat)
    ensures if sampleRate == 0 then Duration(sampleRate, bytes) == 0
            else IsWhole(Duration(sampleRate, bytes), bytes / 2 * 1_000_000_000, sampleRate)
    ensures IsWhole(CharsIn(nanos), nanos * 15, 1_000_000_000)
    ensures BytesAt16k(nanos) % 2 == 0 && IsWhole(BytesAt16k(nanos) / 2, nanos * 16000, 1_000_000_000)
  {
    if sampleRate > 0 {
      QuotientBounds(bytes / 2 * 1_000_000_000, sampleRate);
    }
  }

  /** The committable text is the beginning of the text, 15 characters for every second of audio, or all of it. */
  lemma CommittableExactly(text: string, sampleRate: nat, cursor: nat)
    ensures var spoken := Committable(text, sampleRate, cursor);
            && spoken <= text
            && (|spoken| == |text| || IsWhole(|spoken|, Duration(sampleRate, cursor) * 15, 1_000_000_000))
            && |spoken| * 1_000_000_000 <= Duration(sampleRate, cursor) * 15
  {
    ConversionsExactly(sampleRate, cursor, Duration(sampleRate, cursor));
  }

  // ---------- less audio, less text ----------

  lemma CharsMonotone(sampleRate: nat, a: nat, b: nat)
    requires a <= b
    ensures Chars(sampleRate, a) <= Chars(sampleRate, b)
  {
    if sampleRate > 0 {
      QuotientMonotone(a / BYTES_PER_SAMPLE * NANOS, b / BYTES_PER_SAMPLE * NANOS, sampleRate);
    }
    QuotientMonotone(Duration(sampleRate, a) * CHARS_PER_SECOND, Duration(sampleRate, b) * CHARS_PER_SECOND, NANOS);
  }

  /** No interruption, at whatever position and rate, moves the cursor forward or adds committable text. */
  lemma InterruptionNeverAdds(text: string, sampleRate: nat, cursor: nat, position: nat)
    ensures Interrupted(cursor, position) <= cursor
    ensures Committable(text, sampleRate, Interrupted(cursor, position)) <= Committable(text, sampleRate, cursor)
  {
    CharsMonotone(sampleRate, Interrupted(cursor, position), cursor);
  }

  // ---------- interrupting at the current position ----------

  /** The cursor after HandleInterruption(GetCurrentPosition()). */
  function InterruptedHere(sampleRate: nat, cursor: nat): nat {
    Interrupted(cursor, BytesAt16k(Duration(sampleRate, cursor)))
  }

  lemma RoundTripKeepsSamples(sampleRate: nat, cursor: nat)
    requires 0 < sampleRate <= MANAGER_RATE
    ensures cursor - 1 <= InterruptedHere(sampleRate, cursor) <= cursor
    ensures InterruptedHere(sampleRate, cursor) / BYTES_PER_SAMPLE == cursor / BYTES_PER_SAMPLE
    ensures sampleRate == MANAGER_RATE ==> InterruptedHere(sampleRate, cursor) == cursor - cursor % BYTES_PER_SAMPLE
  {
    var samples := cursor / BYTES_PER_SAMPLE;
    var nanos := Duration(sampleRate, cursor);
    SlowerRateLastsLonger(samples, sampleRate);
    QuotientAtLeast(nanos * MANAGER_RATE, NANOS, samples);
  }

  lemma SlowerRateLastsLonger(samples: nat, sampleRate: nat)
    requires 0 < sampleRate <= MANAGER_RATE
    ensures samples * 62500 <= samples * NANOS / sampleRate
  {
    assert samples * 62500 * sampleRate <= samples * 62500 * MANAGER_RATE by {
      ProductNonNegative(samples * 62500, MANAGER_RATE - sampleRate);
      Distribute(sampleRate, MANAGER_RATE - sampleRate, samples * 62500);
    }
    QuotientAtLeast(samples * NANOS, sampleRate, samples * 62500);
  }

  /** Faster than the assumed rate, the position comes back too early: after 1000 seconds of audio and with
      enough text, an interruption takes back text that was already heard. */
  lemma FasterRateLosesText(sampleRate: nat, text: string)
    requires sampleRate > MANAGER_RATE && |text| == 15000
    ensures var cursor := 2000 * sampleRate;
            && Committable(text, sampleRate, cursor) == text
            && |Committable(text, sampleRate, InterruptedHere(sampleRate, cursor))| < 15000
  {
    var cursor := 2000 * sampleRate;
    assert cursor / BYTES_PER_SAMPLE == 1000 * sampleRate;
    DivModUnique(1000 * sampleRate * NANOS, sampleRate, 1000 * NANOS, 0);
    assert Duration(sampleRate, cursor) == 1000 * NANOS;
    assert InterruptedHere(sampleRate, cursor) == 32_000_000;
    var nanos := Duration(sampleRate, 32_000_000);
    QuotientBounds(16_000_000 * NANOS, sampleRate);
    assert nanos * sampleRate <= 16_000_000 * NANOS;
    if nanos >= 1000 * NANOS {
      StrictlyMore(MANAGER_RATE, sampleRate, nanos);
    }
    QuotientAtLeast(nanos * CHARS_PER_SECOND, NANOS, 15000);
  }

  /** The interruption at the current position leaves the committable text of `text` as it was. */
  ghost predicate Harmless(sampleRate: nat, cursor: nat, text: string) {
    Committable(text, sampleRate, InterruptedHere(sampleRate, cursor)) == Committable(text, sampleRate, cursor)
  }

  /** An interruption at the current position is harmless for every turn exactly up to 16 kHz. */
  lemma InterruptionHarmlessIff(sampleRate: nat)
    ensures (forall cursor, text :: Harmless(sampleRate, cursor, text)) <==> sampleRate <= MANAGER_RATE
  {
    if sampleRate > MANAGER_RATE {
      var text := seq(15000, _ => 'a');
      FasterRateLosesText(sampleRate, text);
      assert !Harmless(sampleRate, 2000 * sampleRate, text);
    } else {
      forall cursor, text ensures Harmless(sampleRate, cursor, text) {
        if sampleRate > 0 {
          RoundTripKeepsSamples(sampleRate, cursor);
        }
      }
    }
  }

  // ---------- reported time ----------

  /** The characters heard in `nanos` of reported time and `bytes` of audio sent: the whole part of
      15 * (nanos / NANOS + bytes / (2 * sampleRate)). */
  function CharsHeard(sampleRate: nat, nanos: nat, bytes: nat): nat {
    if sampleRate == 0 then 0
    else
      HeardScale(sampleRate, nanos, bytes);
      HeardAmount(sampleRate, nanos, bytes) * CHARS_PER_SECOND / (2 * sampleRate * NANOS)
  }

  function HeardAmount(sampleRate: nat, nanos: nat, bytes: nat): int {
    2 * sampleRate * nanos + bytes * NANOS
  }

  lemma HeardScale(sampleRate: nat, nanos: nat, bytes: nat)
    requires sampleRate > 0
    ensures 2 * sampleRate * NANOS > 0
    ensures HeardAmount(sampleRate, nanos, bytes) * CHARS_PER_SECOND / (2 * sampleRate * NANOS) >= 0
  {
    ProductNonNegative(2 * sampleRate, nanos);
    QuotientAtLeast(HeardAmount(sampleRate, nanos, bytes) * CHARS_PER_SECOND, 2 * sampleRate * NANOS, 0);
  }

  /** Without audio sent in bytes, the characters heard are those of the reported time. */
  lemma HeardInTime(sampleRate: nat, nanos: nat)
    requires sampleRate > 0
    ensures CharsHeard(sampleRate, nanos, 0) == CharsIn(nanos)
  {
    var x, q := nanos * CHARS_PER_SECOND, CharsIn(nanos);
    var r := x - q * NANOS;
    QuotientBounds(x, NANOS);
    HeardScale(sampleRate, nanos, 0);
    Distribute(q * NANOS, r, 2 * sampleRate);
    ProductNonNegative(r, 2 * sampleRate);
    StrictlyMore(r, NANOS, 2 * sampleRate);
    assert HeardAmount(sampleRate, nanos, 0) * CHARS_PER_SECOND == x * (2 * sampleRate) by {
      Commute(2 * sampleRate, nanos, CHARS_PER_SECOND);
    }
    Commute(q, NANOS, 2 * sampleRate);
    DivModUnique(x * (2 * sampleRate), 2 * sampleRate * NANOS, q, r * (2 * sampleRate));
  }

  lemma Commute(a: int, b: int, c: int)
    ensures a * b * c == b * c * a
    ensures a * b * c == a * (c * b)
  {}

  /** A cursor within the audio heard commits no more than was heard. */
  lemma CursorWithinHeard(sampleRate: nat, cursor: nat, nanos: nat, bytes: nat)
    requires sampleRate > 0 && cursor * NANOS <= HeardAmount(sampleRate, nanos, bytes)
    ensures Chars(sampleRate, cursor) <= CharsHeard(sampleRate, nanos, bytes)
  {
    var chars, duration := Chars(sampleRate, cursor), Duration(sampleRate, cursor);
    var scale, samples := 2 * sampleRate, cursor / BYTES_PER_SAMPLE;
    HeardScale(sampleRate, nanos, bytes);
    QuotientBounds(samples * NANOS, sampleRate);
    assert duration * sampleRate <= samples * NANOS;
    QuotientBounds(duration * CHARS_PER_SECOND, NANOS);
    assert chars * NANOS <= duration * CHARS_PER_SECOND;
    assert chars * NANOS * scale <= duration * CHARS_PER_SECOND * scale by {
      ProductNonNegative(duration * CHARS_PER_SECOND - chars * NANOS, scale);
      Distribute(duration * CHARS_PER_SECOND - chars * NANOS, chars * NANOS, scale);
    }
    assert duration * CHARS_PER_SECOND * scale == 2 * CHARS_PER_SECOND * (duration * sampleRate);
    assert chars * NANOS * scale == chars * (scale * NANOS) by {
      Commute(chars, NANOS, scale);
    }
    QuotientAtLeast(HeardAmount(sampleRate, nanos, bytes) * CHARS_PER_SECOND, scale * NANOS, chars);
  }

  /** At 16 kHz and above, the manager's bytes for a duration last no longer than the duration. */
  lemma ConvertedWithinReported(sampleRate: nat, nanos: nat)
    requires sampleRate >= MANAGER_RATE
    ensures BytesAt16k(nanos) * NANOS <= 2 * sampleRate * nanos
  {
    QuotientBounds(nanos * MANAGER_RATE, NANOS);
    ProductNonNegative(sampleRate - MANAGER_RATE, nanos);
    Distribute(sampleRate - MANAGER_RATE, MANAGER_RATE, nanos);
    Commute(2, sampleRate, nanos);
  }

  /** Slower than the assumed rate, 2000 seconds reported are counted as more: text nobody heard is committable. */
  lemma SlowerRateInventsText(sampleRate: nat)
    requires 0 < sampleRate < MANAGER_RATE
    ensures Chars(sampleRate, BytesAt16k(2000 * NANOS)) > CharsIn(2000 * NANOS)
  {
    var q := 2000 * NANOS + 66_666_667;
    assert BytesAt16k(2000 * NANOS) == 64_000_000;
    ProductNonNegative(MANAGER_RATE - 1 - sampleRate, q);
    Distribute(MANAGER_RATE - 1 - sampleRate, sampleRate, q);
    QuotientAtLeast(32_000_000 * NANOS, sampleRate, q);
    QuotientAtLeast(Duration(sampleRate, 64_000_000) * CHARS_PER_SECOND, NANOS, 30001);
  }

  /** Converting a duration to bytes and on to text never yields more text than the duration itself. */
  ghost predicate NeverAhead(sampleRate: nat) {
    forall nanos :: Ahead(sampleRate, nanos) <= 0
  }

  /** By how many characters the converted text exceeds the text of the duration. */
  function Ahead(sampleRate: nat, nanos: nat): int {
    Chars(sampleRate, BytesAt16k(nanos)) - CharsIn(nanos)
  }

  /** A reported duration is never counted as more than it is exactly from 16 kHz on (or without a rate). */
  lemma NeverAheadIff(sampleRate: nat)
    ensures NeverAhead(sampleRate) <==> sampleRate == 0 || sampleRate >= MANAGER_RATE
  {
    if 0 < sampleRate < MANAGER_RATE {
      SlowerRateInventsText(sampleRate);
      assert Ahead(sampleRate, 2000 * NANOS) > 0;
    } else {
      forall nanos ensures Ahead(sampleRate, nanos) <= 0 {
        if sampleRate > 0 {
          ConvertedWithinReported(sampleRate, nanos);
          CursorWithinHeard(sampleRate, BytesAt16k(nanos), nanos, 0);
          HeardInTime(sampleRate, nanos);
        }
      }
    }
  }

  /** The conversions neither lose nor invent text exactly at the rate they assume (or without a rate). */
  lemma ConversionExactOnlyAt16k(sampleRate: nat)
    ensures NeverAhead(sampleRate) && (forall cursor, text :: Harmless(sampleRate, cursor, text))
       <==> sampleRate == 0 || sampleRate == MANAGER_RATE
  {
    NeverAheadIff(sampleRate);
    InterruptionHarmlessIff(sampleRate);
  }

  // ---------- committing twice ----------

  /** CommitSpokenText drops what it commits from the text but leaves the cursor, so that a second call commits
      the same amount again: beyond the audio sent exactly when text and audio were left. */
  lemma CommitSpokenTwice(text: string, sampleRate: nat, cursor: nat)
    ensures var first := Committable(text, sampleRate, cursor);
            var second := Committable(text[|first|..], sampleRate, cursor);
            && first + second <= text
            && (|first + second| <= Chars(sampleRate, cursor) <==>
                |text| <= Chars(sampleRate, cursor) || Chars(sampleRate, cursor) == 0)
  {
    var chars := Chars(sampleRate, cursor);
    var first := Prefix(text, chars);
    var rest := text[|first|..];
    var second := Prefix(rest, chars);
    assert text == first + rest;
    assert rest == second + rest[|second|..];
    assert first + second == text[..|first| + |second|];
  }

  /** Two seconds of audio and 60 characters: 30 were heard, two commits hand out all 60. */
  lemma SpokenTwiceExample(text: string)
    requires |text| == 60
    ensures Chars(MANAGER_RATE, 64000) == 30
    ensures Committable(text, MANAGER_RATE, 64000) + Committable(text[30..], MANAGER_RATE, 64000) == text
  {
    assert Duration(MANAGER_RATE, 64000) == 2 * NANOS;
    assert text[30..][..30] == text[30..] && text[..30] + text[30..] == text;
  }

  // ---------- implementation ----------

  class AssistantTurn {
    const sampleRate: nat
    var generatedText: string
    var queuedForTTSText: string
    var spokenText: string
    var interrupted: bool
    var playoutCursor: nat

    constructor (sampleRate: nat)
      ensures this.sampleRate == sampleRate && playoutCursor == 0 && !interrupted
      ensures generatedText == queuedForTTSText == spokenText == ""
    {
      this.sampleRate := sampleRate;
      generatedText, queuedForTTSText, spokenText := "", "", "";
      interrupted, playoutCursor := false, 0;
    }

    method AppendGeneratedText(text: string)
      modifies this`generatedText
      ensures generatedText == old(generatedText) + text
    {
      generatedText := generatedText + text;
    }

    method QueueForTTS(text: string)
      modifies this`queuedForTTSText
      ensures queuedForTTSText == old(queuedForTTSText) + text
    {
      queuedForTTSText := queuedForTTSText + text;
    }

    method CalculateDurationFromBytes(bytes: nat) returns (nanos: nat)
      ensures nanos == Duration(sampleRate, bytes)
      ensures if sampleRate == 0 then nanos == 0 else IsWhole(nanos, bytes / 2 * 1_000_000_000, sampleRate)
    {
      ConversionsExactly(sampleRate, bytes, 0);
      if sampleRate == 0 {
        return 0;
      }
      var samples := bytes / BYTES_PER_SAMPLE;
      nanos := samples * NANOS / sampleRate;
    }

    /** Splits the generated text into what was spoken and what was not. */
    method CommitSpokenText() returns (committed: string)
      modifies this
      ensures committed == Committable(old(generatedText), sampleRate, playoutCursor)
      ensures committed + generatedText == old(generatedText)
      ensures generatedText == "" || |committed| == Chars(sampleRate, playoutCursor)
      ensures spokenText == committed && queuedForTTSText == ""
      ensures playoutCursor == old(playoutCursor) && interrupted == old(interrupted)
    {
      var spokenDuration := CalculateDurationFromBytes(playoutCursor);
      var spokenChars := CharsIn(spokenDuration);
      if spokenChars > |generatedText| {
        spokenChars := |generatedText|;
      }
      committed := generatedText[..spokenChars];
      spokenText := committed;
      generatedText := generatedText[spokenChars..];
      queuedForTTSText := "";
    }

    method MarkInterrupted(playoutPosition: nat)
      modifies this`interrupted, this`playoutCursor
      ensures interrupted && playoutCursor == Interrupted(old(playoutCursor), playoutPosition)
      ensures playoutCursor <= old(playoutCursor) && playoutCursor <= playoutPosition
      ensures playoutCursor == old(playoutCursor) || playoutCursor == playoutPosition
    {
      interrupted := true;
      if playoutPosition < playoutCursor {
        playoutCursor := playoutPosition;
      }
    }

    method GetCommittableText() returns (text: string)
      ensures text == Committable(generatedText, sampleRate, playoutCursor)
    {
      var duration := CalculateDurationFromBytes(playoutCursor);
      var chars := CharsIn(duration);
      if |generatedText| > chars {
        return generatedText[..chars];
      }
      return generatedText;
    }

    method AdvancePlayout(bytes: nat)
      modifies this`playoutCursor
      ensures playoutCursor == old(playoutCursor) + bytes
    {
      playoutCursor := playoutCursor + bytes;
    }

    method CurrentPosition() returns (nanos: nat)
      ensures nanos == Duration(sampleRate, playoutCursor)
    {
      nanos := CalculateDurationFromBytes(playoutCursor);
    }
  }
}
