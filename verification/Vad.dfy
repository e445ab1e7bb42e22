/** The energy-based voice activity detector. Whether a frame's energy exceeds the threshold is its input. */
module VoiceActivity {
  import opened Arithmetic

  datatype VADState = Silence | SpeechStart | Speech | SpeechEnd

  datatype Config = Config(minSpeechMs: int, minSilenceMs: int, hangoverFrames: int, frameSizeMs: int)

  datatype VADResult = VADResult(isSpeech: bool, state: VADState, speechStart: bool, speechEnd: bool)

  function MsToFrames(c: Config, ms: int): int {
    if c.frameSizeMs <= 0 then TruncDiv(ms, 10) else TruncDiv(ms, c.frameSizeMs)
  }

  // ---------- the transition system ----------

  datatype Detector = Detector(state: VADState, speechFrames: int, silenceFrames: int, hangoverCount: int)

  const INITIAL := Detector(Silence, 0, 0, 0)

  function StartDue(c: Config, speechFrames: int): bool {
    speechFrames >= TruncDiv(MsToFrames(c, c.minSpeechMs), 2)
  }

  function EndDue(c: Config, silenceFrames: int, hangoverCount: int): bool {
    hangoverCount > c.hangoverFrames && silenceFrames >= MsToFrames(c, c.minSilenceMs)
  }

  function Next(c: Config, d: Detector, speech: bool): Detector {
    match d.state
    case Silence =>
      if !speech then d.(speechFrames := 0)
      else if StartDue(c, d.speechFrames + 1) then Detector(SpeechStart, d.speechFrames + 1, 0, 0)
      else d.(speechFrames := d.speechFrames + 1)
    case SpeechStart =>
      if speech then d.(state := Speech, speechFrames := d.speechFrames + 1, silenceFrames := 0)
      else d.(state := Silence, speechFrames := 0)
    case Speech =>
      if speech then Detector(Speech, d.speechFrames + 1, 0, 0)
      else d.(silenceFrames := d.silenceFrames + 1, hangoverCount := d.hangoverCount + 1,
              state := if EndDue(c, d.silenceFrames + 1, d.hangoverCount + 1) then SpeechEnd else Speech)
    case SpeechEnd =>
      if speech then Detector(SpeechStart, 1, 0, 0) else Detector(Silence, 0, 0, 0)
  }

  /** The detector's answer is a matter of the two states it moves between. */
  function Answer(before: VADState, after: VADState): VADResult {
    VADResult(before == Speech && after == Speech,
              after,
              after == SpeechStart,
              after == SpeechEnd)
  }

  function Run(c: Config, frames: seq<bool>): Detector {
    if frames == [] then INITIAL else Next(c, Run(c, frames[..|frames| - 1]), frames[|frames| - 1])
  }

  /** The answer to the last frame of a history. */
  function LastAnswer(c: Config, frames: seq<bool>): VADResult
    requires frames != []
  {
    Answer(Run(c, frames[..|frames| - 1]).state, Run(c, frames).state)
  }

  // ---------- the counters are run lengths of the frame history ----------

  /** The number of frames at the end of the history that are all `speech`. */
  function TrailingRun(frames: seq<bool>, speech: bool): nat {
    if frames == [] || frames[|frames| - 1] != speech then 0
    else 1 + TrailingRun(frames[..|frames| - 1], speech)
  }

  lemma {:induction false} TrailingRunMeaning(frames: seq<bool>, speech: bool)
    ensures var n := TrailingRun(frames, speech);
            && n <= |frames|
            && (forall i :: |frames| - n <= i < |frames| ==> frames[i] == speech)
            && (n < |frames| ==> frames[|frames| - n - 1] != speech)
    decreases |frames|
  {
    if frames != [] && frames[|frames| - 1] == speech {
      TrailingRunMeaning(frames[..|frames| - 1], speech);
    }
  }

  /** The length of a frame; 10 ms unless configured. */
  function FrameMs(c: Config): (ms: int)
    ensures ms > 0
  {
    if c.frameSizeMs <= 0 then 10 else c.frameSizeMs
  }

  function Max(a: int, b: int): int {
    if a < b then b else a
  }

  /** Speech frames in a row that start an utterance: half of the minimum speech, but at least one frame. */
  function StartRun(c: Config): nat {
    Max(1, c.minSpeechMs / FrameMs(c) / 2)
  }

  /** Silent frames in a row that end one: the minimum silence, but more than the hangover and at least one. */
  function EndRun(c: Config): nat {
    Max(1, Max(c.hangoverFrames + 1, c.minSilenceMs / FrameMs(c)))
  }

  /** The thresholds of the code are these runs, whatever the sign of the configured durations. */
  lemma DueExactly(c: Config, frames: int, hangover: int)
    ensures frames >= 1 ==> (StartDue(c, frames) <==> frames >= StartRun(c))
    ensures frames >= 1 && hangover == frames ==> (EndDue(c, frames, hangover) <==> frames >= EndRun(c))
  {
    NegativeMeansNone(c.minSpeechMs, FrameMs(c));
    NegativeMeansNone(c.minSilenceMs, FrameMs(c));
    NegativeMeansNone(MsToFrames(c, c.minSpeechMs), 2);
  }

  lemma NegativeMeansNone(ms: int, size: int)
    requires size > 0
    ensures ms < 0 ==> TruncDiv(ms, size) <= 0 && ms / size < 0
    ensures ms >= 0 ==> TruncDiv(ms, size) == ms / size >= 0
  {
    QuotientAtLeast(ms, size, 0);
    QuotientAtLeast(-ms, size, 0);
  }

  ghost predicate CountersAreRuns(c: Config, frames: seq<bool>) {
    var d := Run(c, frames);
    var loud, quiet := TrailingRun(frames, true), TrailingRun(frames, false);
    match d.state
    case Silence => d.speechFrames == loud < StartRun(c)
    case SpeechStart => d.speechFrames == loud && 1 <= loud <= StartRun(c) && d.hangoverCount == 0
    case Speech => d.silenceFrames == d.hangoverCount == quiet < EndRun(c)
    case SpeechEnd => quiet == EndRun(c)
  }

  lemma {:induction false} CountersAlwaysRuns(c: Config, frames: seq<bool>)
    ensures CountersAreRuns(c, frames)
    decreases |frames|
  {
    if frames != [] {
      var front := frames[..|frames| - 1];
      CountersAlwaysRuns(c, front);
      DueExactly(c, TrailingRun(frames, true), 0);
      DueExactly(c, TrailingRun(frames, false), TrailingRun(frames, false));
    }
  }

  // ---------- when the detector answers what ----------

  /** Which state a frame leads to, from each state. */
  lemma StateExactly(c: Config, frames: seq<bool>, speech: bool)
    ensures var before, all := Run(c, frames).state, frames + [speech]; var after := Run(c, all).state;
            && (after == SpeechStart <==>
                speech && (before == SpeechEnd || (before == Silence && TrailingRun(all, true) == StartRun(c))))
            && (after == Speech <==>
                (speech && before == SpeechStart) || (before == Speech && TrailingRun(all, false) < EndRun(c)))
            && (after == SpeechEnd <==> before == Speech && TrailingRun(all, false) == EndRun(c))
            && (after == Silence <==>
                || (before == Silence && !(speech && TrailingRun(all, true) == StartRun(c)))
                || (!speech && (before == SpeechStart || before == SpeechEnd)))
  {
    assert (frames + [speech])[..|frames|] == frames;
    CountersAlwaysRuns(c, frames);
    CountersAlwaysRuns(c, frames + [speech]);
  }

  /** Speech starts from silence exactly on the `StartRun`-th speech frame in a row; right after an end, on any
      speech frame. It ends exactly on the `EndRun`-th silent frame in a row. */
  lemma EventsExactly(c: Config, frames: seq<bool>, speech: bool)
    ensures var before, all := Run(c, frames).state, frames + [speech];
            && (LastAnswer(c, all).speechStart <==>
                speech && (before == SpeechEnd || (before == Silence && TrailingRun(all, true) == StartRun(c))))
            && (LastAnswer(c, all).speechEnd <==>
                before == Speech && !speech && TrailingRun(all, false) == EndRun(c))
  {
    assert (frames + [speech])[..|frames|] == frames;
    StateExactly(c, frames, speech);
  }

  /** The answer reports the state; speech within an utterance, from its third frame on until the one that ends it;
      and the two events. */
  lemma AnswerExactly(c: Config, frames: seq<bool>, speech: bool)
    ensures var all := frames + [speech]; var answer := LastAnswer(c, all);
            && answer.state == Run(c, all).state
            && (answer.isSpeech <==> Run(c, frames).state == Speech && TrailingRun(all, false) < EndRun(c))
            && (answer.speechStart <==> Run(c, all).state == SpeechStart)
            && (answer.speechEnd <==> Run(c, all).state == SpeechEnd)
  {
    assert (frames + [speech])[..|frames|] == frames;
    StateExactly(c, frames, speech);
  }

  /** Enough speech frames in a row are answered as speech, whatever happened before. */
  lemma SustainedSpeechIsReported(c: Config, frames: seq<bool>)
    requires TrailingRun(frames, true) > StartRun(c) + 1
    ensures LastAnswer(c, frames).isSpeech
  {
    var front := frames[..|frames| - 1];
    SustainedFramesDecide(c, front);
    AnswerExactly(c, front, true);
    assert frames == front + [true];
  }

  /** Whatever happened before, enough speech frames in a row mean speech and enough silent ones silence. */
  lemma SustainedFramesDecide(c: Config, frames: seq<bool>)
    ensures TrailingRun(frames, true) > StartRun(c) ==> Run(c, frames).state == Speech
    ensures TrailingRun(frames, false) > EndRun(c) ==> Run(c, frames).state == Silence
  {
    CountersAlwaysRuns(c, frames);
    TrailingRunMeaning(frames, true);
    TrailingRunMeaning(frames, false);
  }

  // ---------- implementation ----------

  class EnergyVAD {
    const config: Config
    var state: VADState
    var speechFrames: int
    var silenceFrames: int
    var hangoverCount: int

    ghost var frames: seq<bool>   // the frames processed since construction or Reset

    ghost function Abs(): Detector
      reads this
    {
      Detector(state, speechFrames, silenceFrames, hangoverCount)
    }

    ghost predicate Valid()
      reads this
    {
      Abs() == Run(config, frames)
    }

    constructor (config: Config)
      ensures Valid() && this.config == config && frames == []
    {
      this.config := config;
      state, speechFrames, silenceFrames, hangoverCount := Silence, 0, 0, 0;
      frames := [];
    }

    method Process(isSpeechFrame: bool) returns (result: VADResult)
      requires Valid()
      modifies this
      ensures Valid() && frames == old(frames) + [isSpeechFrame]
      ensures result == LastAnswer(config, frames)
      ensures result.state == state
      ensures result.isSpeech <==> old(state) == Speech && state == Speech
      ensures result.speechStart <==> state == SpeechStart
      ensures result.speechEnd <==> state == SpeechEnd
    {
      assert (frames + [isSpeechFrame])[..|frames|] == frames;
      frames := frames + [isSpeechFrame];
      result := VADResult(false, state, false, false);

      match state {
        case Silence =>
          if isSpeechFrame {
            speechFrames := speechFrames + 1;
            var minFrames := MsToFrames(config, config.minSpeechMs);
            if speechFrames >= TruncDiv(minFrames, 2) {
              state := SpeechStart;
              result := result.(speechStart := true, state := SpeechStart);
              silenceFrames := 0;
              hangoverCount := 0;
            }
          } else {
            speechFrames := 0;
          }

        case SpeechStart =>
          if isSpeechFrame {
            speechFrames := speechFrames + 1;
            state := Speech;
            result := result.(state := Speech);
            silenceFrames := 0;
          } else {
            state := Silence;
            speechFrames := 0;
            result := result.(state := Silence);
          }

        case Speech =>
          result := result.(isSpeech := true);
          if isSpeechFrame {
            speechFrames := speechFrames + 1;
            silenceFrames := 0;
            hangoverCount := 0;
          } else {
            silenceFrames := silenceFrames + 1;
            hangoverCount := hangoverCount + 1;
            if hangoverCount > config.hangoverFrames {
              var minSilenceFrames := MsToFrames(config, config.minSilenceMs);
              if silenceFrames >= minSilenceFrames {
                state := SpeechEnd;
                result := VADResult(false, SpeechEnd, false, true);
              }
            }
          }

        case SpeechEnd =>
          state := Silence;
          speechFrames, silenceFrames, hangoverCount := 0, 0, 0;
          result := result.(state := Silence);
          if isSpeechFrame {
            speechFrames := 1;
            state := SpeechStart;
            result := result.(speechStart := true, state := SpeechStart);
          }
      }
    }

    method Reset()
      modifies this
      ensures Valid() && frames == []
    {
      state, speechFrames, silenceFrames, hangoverCount := Silence, 0, 0, 0;
      frames := [];
    }
  }
}
