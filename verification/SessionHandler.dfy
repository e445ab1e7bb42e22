/** The session handler's frame loop: it turns detector answers into the speech events a client sees. */
module SpeechEvents {
  import opened Seqs
  import opened Framing
  import opened VoiceActivity

  datatype ClientEvent = ClientSpeechStart | ClientSpeechEnd

  /** `active` is the handler's isSpeechActive flag; `kept` numbers the frames whose audio is accumulated. */
  datatype Client = Client(active: bool, events: seq<ClientEvent>, kept: seq<nat>)

  /** The answer to frame number `now`. */
  function OnAnswer(client: Client, r: VADResult, now: nat): Client {
    if r.isSpeech || r.speechStart then
      if client.active then client.(kept := client.kept + [now])
      else Client(true, client.events + [ClientSpeechStart], [now])
    else if r.speechEnd && client.active then Client(false, client.events + [ClientSpeechEnd], client.kept)
    else client
  }

  function View(c: Config, frames: seq<bool>): Client {
    if frames == [] then Client(false, [], [])
    else OnAnswer(View(c, frames[..|frames| - 1]), LastAnswer(c, frames), |frames| - 1)
  }

  // ---------- what the client sees ----------

  function EndsFired(c: Config, frames: seq<bool>): nat {
    if frames == [] then 0
    else EndsFired(c, frames[..|frames| - 1]) + (if LastAnswer(c, frames).speechEnd then 1 else 0)
  }

  /** The detector has started speech since it last ended it. */
  predicate StartPending(c: Config, frames: seq<bool>) {
    frames != [] &&
    (LastAnswer(c, frames).speechStart ||
     (!LastAnswer(c, frames).speechEnd && StartPending(c, frames[..|frames| - 1])))
  }

  function Count(events: seq<ClientEvent>, e: ClientEvent): nat {
    if events == [] then 0
    else Count(events[..|events| - 1], e) + (if events[|events| - 1] == e then 1 else 0)
  }

  ghost predicate Alternating(events: seq<ClientEvent>) {
    forall i :: 0 <= i < |events| ==> events[i] == if i % 2 == 0 then ClientSpeechStart else ClientSpeechEnd
  }

  lemma CountSnoc(events: seq<ClientEvent>, last: ClientEvent, e: ClientEvent)
    ensures Count(events + [last], e) == Count(events, e) + (if last == e then 1 else 0)
  {
    assert (events + [last])[..|events|] == events;
  }

  ghost predicate Faithful(c: Config, frames: seq<bool>) {
    var client := View(c, frames);
    && Ordered(client)
    && (client.active <==> StartPending(c, frames))
    && Count(client.events, ClientSpeechEnd) == EndsFired(c, frames)
    && (match Run(c, frames).state
        case Silence => true
        case SpeechEnd => !client.active
        case _ => client.active)
  }

  /** For every frame history: the client's events alternate, starting with a start; every end the detector
      fires reaches the client as exactly one end; and the flag says that a start is still pending. */
  lemma {:induction false} ClientAlwaysFaithful(c: Config, frames: seq<bool>)
    ensures Faithful(c, frames)
    decreases |frames|
  {
    if frames != [] {
      var front := frames[..|frames| - 1];
      ClientAlwaysFaithful(c, front);
      AnswerKeepsOrder(View(c, front), LastAnswer(c, frames), |front|);
    }
  }

  ghost predicate Ordered(client: Client) {
    Alternating(client.events) && (client.active <==> |client.events| % 2 == 1)
  }

  lemma AnswerKeepsOrder(client: Client, r: VADResult, now: nat)
    requires Ordered(client)
    ensures Ordered(OnAnswer(client, r, now))
    ensures Count(OnAnswer(client, r, now).events, ClientSpeechEnd) == Count(client.events, ClientSpeechEnd)
              + (if client.active && r.speechEnd && !r.isSpeech && !r.speechStart then 1 else 0)
  {
    if (r.isSpeech || r.speechStart) && !client.active {
      AlternatingSnoc(client.events, ClientSpeechStart);
      CountSnoc(client.events, ClientSpeechStart, ClientSpeechEnd);
    } else if !r.isSpeech && !r.speechStart && r.speechEnd && client.active {
      AlternatingSnoc(client.events, ClientSpeechEnd);
      CountSnoc(client.events, ClientSpeechEnd, ClientSpeechEnd);
    }
  }

  lemma AlternatingSnoc(events: seq<ClientEvent>, e: ClientEvent)
    requires Alternating(events)
    requires e == if |events| % 2 == 0 then ClientSpeechStart else ClientSpeechEnd
    ensures Alternating(events + [e])
  {}

  /** A start fired while one is pending - after a false start - is not repeated to the client. */
  lemma StartReachesClientIff(c: Config, frames: seq<bool>, speech: bool)
    requires LastAnswer(c, frames + [speech]).speechStart
    ensures View(c, frames + [speech]).events ==
            View(c, frames).events + (if StartPending(c, frames) then [] else [ClientSpeechStart])
  {
    assert (frames + [speech])[..|frames|] == frames;
    ClientAlwaysFaithful(c, frames);
    assert View(c, frames).events + [] == View(c, frames).events;
  }

  // ---------- false starts ----------

  function Quiet(n: nat): (r: seq<bool>)
    ensures |r| == n
  {
    if n == 0 then [] else Quiet(n - 1) + [false]
  }

  lemma {:induction false} SilenceChangesNothing(c: Config, frames: seq<bool>, n: nat)
    requires Run(c, frames).state == Silence
    ensures Run(c, frames + Quiet(n)).state == Silence
    ensures View(c, frames + Quiet(n)) == View(c, frames)
    decreases n
  {
    if n == 0 {
      assert frames + [] == frames;
    } else {
      SilenceChangesNothing(c, frames, n - 1);
      assert (frames + Quiet(n))[..|frames| + n - 1] == frames + Quiet(n - 1);
    }
  }

  /** After a false start the client keeps believing in speech, however long the silence that follows. */
  lemma FalseStartLingers(c: Config, frames: seq<bool>, n: nat)
    requires Run(c, frames).state == SpeechStart
    ensures Run(c, frames + [false] + Quiet(n)).state == Silence
    ensures View(c, frames + [false] + Quiet(n)) == View(c, frames)
    ensures View(c, frames).active
  {
    assert (frames + [false])[..|frames|] == frames;
    ClientAlwaysFaithful(c, frames);
    SilenceChangesNothing(c, frames + [false], n);
  }

  /** The last state other than silence the detector was in. */
  function LastActivity(c: Config, frames: seq<bool>): VADState {
    if frames == [] || Run(c, frames).state != Silence then Run(c, frames).state
    else LastActivity(c, frames[..|frames| - 1])
  }

  lemma {:induction false} FlagInSilence(c: Config, frames: seq<bool>)
    requires Run(c, frames).state == Silence
    ensures View(c, frames).active <==> LastActivity(c, frames) == SpeechStart
    decreases |frames|
  {
    if frames != [] {
      var front := frames[..|frames| - 1];
      ClientAlwaysFaithful(c, front);
      if Run(c, front).state == Silence {
        FlagInSilence(c, front);
      }
    }
  }

  /** The client hears of no speech while the detector is silent, unless its last attempt was a false start: the
      detector fell back to silence straight from SpeechStart. No amount of silence repairs that. */
  lemma ClientAgreesIff(c: Config, frames: seq<bool>)
    requires Run(c, frames).state == Silence
    ensures forall n: nat ::
      !View(c, frames + Quiet(n)).active <==> LastActivity(c, frames) != SpeechStart
  {
    FlagInSilence(c, frames);
    forall n: nat ensures View(c, frames + Quiet(n)).active == View(c, frames).active {
      SilenceChangesNothing(c, frames, n);
    }
  }

  /** Two frames of which only the first is speech, with a start due at once. */
  lemma FalseStartExample()
    ensures var c := Config(0, 0, 0, 10);
            Run(c, [true, false]).state == Silence && View(c, [true, false]) == Client(true, [ClientSpeechStart], [0])
  {
    var c := Config(0, 0, 0, 10);
    assert [true, false][..1] == [true] && [true][..0] == [];
    assert Run(c, [true]).state == SpeechStart;
    assert View(c, [true]) == Client(true, [ClientSpeechStart], [0]);
  }

  // ---------- the audio accumulated for recognition ----------

  /** Frame `i` is answered as speech or as its start. */
  predicate Voiced(c: Config, frames: seq<bool>, i: nat)
    requires i < |frames|
  {
    var before, after := Run(c, frames[..i]).state, Run(c, frames[..i + 1]).state;
    after == SpeechStart || (before == Speech && after == Speech)
  }

  /** The client was told of a start at frame `i`. */
  predicate StartSent(c: Config, frames: seq<bool>, i: nat)
    requires i < |frames|
  {
    Run(c, frames[..i + 1]).state == SpeechStart && !StartPending(c, frames[..i])
  }

  /** Frame `m` is the last one at which the client was told of a start. */
  ghost predicate LastStart(c: Config, frames: seq<bool>, m: nat) {
    && m < |frames| && StartSent(c, frames, m)
    && forall j :: m < j < |frames| ==> !StartSent(c, frames, j)
  }

  ghost predicate NeverStarted(c: Config, frames: seq<bool>) {
    forall j :: 0 <= j < |frames| ==> !StartSent(c, frames, j)
  }

  /** `kept` are the voiced frames since the last start, in order. */
  ghost predicate KeepsVoiced(c: Config, frames: seq<bool>, kept: seq<nat>) {
    && (forall a, b :: 0 <= a < b < |kept| ==> kept[a] < kept[b])
    && (forall i :: i in kept ==> i < |frames|)
    && (NeverStarted(c, frames) ==> kept == [])
    && (forall m :: LastStart(c, frames, m) ==> KeptSince(c, frames, kept, m))
  }

  ghost predicate KeptSince(c: Config, frames: seq<bool>, kept: seq<nat>, m: nat) {
    forall i: nat :: i < |frames| ==> (i in kept <==> m <= i && Voiced(c, frames, i))
  }

  lemma SameEarlier(c: Config, frames: seq<bool>, speech: bool, i: nat)
    requires i < |frames|
    ensures Voiced(c, frames + [speech], i) == Voiced(c, frames, i)
    ensures StartSent(c, frames + [speech], i) == StartSent(c, frames, i)
  {
    assert (frames + [speech])[..i] == frames[..i] && (frames + [speech])[..i + 1] == frames[..i + 1];
  }

  lemma NowSent(c: Config, frames: seq<bool>, speech: bool)
    ensures var all, answer := frames + [speech], LastAnswer(c, frames + [speech]);
            && (Voiced(c, all, |frames|) <==> answer.isSpeech || answer.speechStart)
            && (StartSent(c, all, |frames|) <==> answer.speechStart && !View(c, frames).active)
            && (answer.isSpeech ==> View(c, frames).active)
            && View(c, all) == OnAnswer(View(c, frames), answer, |frames|)
  {
    var all := frames + [speech];
    assert all[..|frames|] == frames && all[..|all|] == all;
    ClientAlwaysFaithful(c, frames);
  }

  lemma LastStartGrows(c: Config, frames: seq<bool>, speech: bool, m: nat)
    requires LastStart(c, frames + [speech], m)
    ensures StartSent(c, frames + [speech], |frames|) <==> m == |frames|
    ensures m < |frames| ==> LastStart(c, frames, m)
  {
    forall j | m < j < |frames| ensures !StartSent(c, frames, j) {
      SameEarlier(c, frames, speech, j);
    }
    if m < |frames| {
      SameEarlier(c, frames, speech, m);
    }
  }

  lemma NeverStartedFront(c: Config, frames: seq<bool>, speech: bool)
    requires NeverStarted(c, frames + [speech])
    ensures NeverStarted(c, frames)
    ensures !StartSent(c, frames + [speech], |frames|)
  {
    forall j | 0 <= j < |frames| ensures !StartSent(c, frames, j) {
      SameEarlier(c, frames, speech, j);
    }
  }

  /** Before the first start the flag is down. */
  lemma {:induction false} NeverStartedMeansIdle(c: Config, frames: seq<bool>)
    requires NeverStarted(c, frames)
    ensures !View(c, frames).active
    decreases |frames|
  {
    if frames != [] {
      var front, last := frames[..|frames| - 1], frames[|frames| - 1];
      assert frames == front + [last];
      NeverStartedFront(c, front, last);
      NeverStartedMeansIdle(c, front);
      NowSent(c, front, last);
    }
  }

  lemma KeptSinceGrows(c: Config, front: seq<bool>, last: bool, kept: seq<nat>, now: seq<nat>, m: nat)
    requires KeptSince(c, front, kept, m) && m <= |front| && forall i :: i in kept ==> i < |front|
    requires now == if Voiced(c, front + [last], |front|) then kept + [|front|] else kept
    ensures KeptSince(c, front + [last], now, m)
  {
    forall i: nat | i < |front| + 1 ensures i in now <==> m <= i && Voiced(c, front + [last], i) {
      if i < |front| {
        SameEarlier(c, front, last, i);
      }
    }
  }

  lemma StartStep(c: Config, front: seq<bool>, last: bool)
    requires StartSent(c, front + [last], |front|)
    ensures KeepsVoiced(c, front + [last], [|front|])
  {
    forall m: nat | LastStart(c, front + [last], m) ensures KeptSince(c, front + [last], [|front|], m) {
      LastStartGrows(c, front, last, m);
    }
  }

  lemma NoStartStep(c: Config, front: seq<bool>, last: bool, kept: seq<nat>, now: seq<nat>)
    requires !StartSent(c, front + [last], |front|) && KeepsVoiced(c, front, kept)
    requires now == if Voiced(c, front + [last], |front|) then kept + [|front|] else kept
    requires NeverStarted(c, front) ==> !Voiced(c, front + [last], |front|)
    ensures KeepsVoiced(c, front + [last], now)
  {
    assert forall a :: 0 <= a < |kept| ==> kept[a] in kept;
    if NeverStarted(c, front + [last]) {
      NeverStartedFront(c, front, last);
    }
    forall m: nat | LastStart(c, front + [last], m) ensures KeptSince(c, front + [last], now, m) {
      LastStartGrows(c, front, last, m);
      KeptSinceGrows(c, front, last, kept, now, m);
    }
  }

  /** The handler accumulates exactly the voiced frames since the start it last reported. */
  lemma {:induction false} KeptExactly(c: Config, frames: seq<bool>)
    ensures KeepsVoiced(c, frames, View(c, frames).kept)
    decreases |frames|
  {
    if frames != [] {
      var front, last := frames[..|frames| - 1], frames[|frames| - 1];
      assert frames == front + [last];
      KeptExactly(c, front);
      NowSent(c, front, last);
      if StartSent(c, frames, |front|) {
        StartStep(c, front, last);
      } else {
        if NeverStarted(c, front) {
          NeverStartedMeansIdle(c, front);
        }
        NoStartStep(c, front, last, View(c, front).kept, View(c, frames).kept);
      }
    }
  }

  /** The frame that confirms a start is neither: its audio is never accumulated, whatever follows. */
  lemma {:induction false} ConfirmingFrameDropped(c: Config, frames: seq<bool>, later: seq<bool>)
    requires Run(c, frames).state == SpeechStart
    ensures Run(c, frames + [true]).state == Speech
    ensures |frames| !in View(c, frames + [true] + later).kept
    decreases |later|
  {
    var all := frames + [true] + later;
    if later == [] {
      assert all == frames + [true];
      NowSent(c, frames, true);
      KeptExactly(c, frames);
      assert (frames + [true])[..|frames|] == frames;
    } else {
      var front, last := later[..|later| - 1], later[|later| - 1];
      ConfirmingFrameDropped(c, frames, front);
      assert all == (frames + [true] + front) + [last];
      NowSent(c, frames + [true] + front, last);
    }
  }

  lemma NotVoicedAfterStart(c: Config, frames: seq<bool>, i: nat)
    requires i < |frames| && Run(c, frames[..i]).state == SpeechStart
    ensures !Voiced(c, frames, i)
  {
    assert frames[..i + 1] == frames[..i] + [frames[i]];
    StateExactly(c, frames[..i], frames[i]);
  }

  /** Hence the accumulated audio is all of the audio since the start only on the very frame of the start. */
  lemma NothingMissingIff(c: Config, frames: seq<bool>, m: nat)
    requires LastStart(c, frames, m)
    ensures (forall i :: m <= i < |frames| ==> i in View(c, frames).kept) <==> m + 1 == |frames|
  {
    KeptExactly(c, frames);
    assert KeptSince(c, frames, View(c, frames).kept, m) && Voiced(c, frames, m);
    if m + 1 < |frames| {
      NotVoicedAfterStart(c, frames, m + 1);
      assert m + 1 !in View(c, frames).kept;
    }
  }

  // ---------- implementation ----------

  const FRAME_BYTES := 320   // 10ms of 16kHz PCM16

  predicate Within(kept: seq<nat>, n: nat) {
    forall i :: 0 <= i < |kept| ==> kept[i] < n
  }

  /** The audio of the numbered frames. */
  function Audio(frames: seq<Bytes>, kept: seq<nat>): Bytes
    requires Within(kept, |frames|)
  {
    if kept == [] then [] else Audio(frames, kept[..|kept| - 1]) + frames[kept[|kept| - 1]]
  }

  lemma {:induction false} AudioOfMore(frames: seq<Bytes>, frame: Bytes, kept: seq<nat>)
    requires Within(kept, |frames|)
    ensures Within(kept, |frames| + 1)
    ensures Audio(frames + [frame], kept) == Audio(frames, kept)
    decreases |kept|
  {
    if kept != [] {
      AudioOfMore(frames, frame, kept[..|kept| - 1]);
    }
  }

  lemma AudioSnoc(frames: seq<Bytes>, frame: Bytes, kept: seq<nat>)
    requires Within(kept, |frames|)
    ensures Within(kept + [|frames|], |frames| + 1)
    ensures Audio(frames + [frame], kept + [|frames|]) == Audio(frames, kept) + frame
  {
    assert (kept + [|frames|])[..|kept|] == kept;
    AudioOfMore(frames, frame, kept);
  }

  lemma AudioOfOne(frames: seq<Bytes>, frame: Bytes)
    ensures Audio(frames + [frame], [|frames|]) == frame
  {
    assert [|frames|][..0] == [];
    assert Audio(frames + [frame], []) == [] && [] + frame == frame;
  }

  /** Which of the frames carry speech. */
  function Loudness(frames: seq<Bytes>, isSpeech: Bytes -> bool): (r: seq<bool>)
    ensures |r| == |frames|
    ensures forall i :: 0 <= i < |frames| ==> r[i] == isSpeech(frames[i])
  {
    seq(|frames|, i requires 0 <= i < |frames| => isSpeech(frames[i]))
  }

  lemma LoudnessSnoc(frames: seq<Bytes>, frame: Bytes, isSpeech: Bytes -> bool)
    ensures Loudness(frames + [frame], isSpeech) == Loudness(frames, isSpeech) + [isSpeech(frame)]
  {}

  lemma CutIntoFrames(result: ChunkResult, data: Bytes)
    requires CutsAt(result, data, FRAME_BYTES)
    ensures result.frames == Frames(data, 320)
  {
    FramesCutAtMultiples(data, FRAME_BYTES);
    CutsAtUnique(result, ChunkResult(Frames(data, FRAME_BYTES), Rest(data, FRAME_BYTES)), data, FRAME_BYTES);
  }

  lemma TakeMore<T>(before: seq<T>, s: seq<T>, i: nat)
    requires i < |s|
    ensures before + s[..i] + [s[i]] == before + s[..i + 1]
  {}

  /** After the frames `shown`: what the client has seen, and the audio accumulated. */
  ghost predicate Heard(c: Config, isSpeech: Bytes -> bool, shown: seq<Bytes>, client: Client, buffer: Bytes) {
    && client == View(c, Loudness(shown, isSpeech))
    && Within(client.kept, |shown|)
    && buffer == Audio(shown, client.kept)
  }

  function OnBuffer(client: Client, r: VADResult, buffer: Bytes, frame: Bytes): Bytes {
    if !r.isSpeech && !r.speechStart then buffer
    else if client.active then buffer + frame
    else frame
  }

  lemma HearAudio(shown: seq<Bytes>, client: Client, r: VADResult, buffer: Bytes, frame: Bytes)
    requires Within(client.kept, |shown|) && buffer == Audio(shown, client.kept)
    ensures var kept := OnAnswer(client, r, |shown|).kept;
            Within(kept, |shown| + 1) && OnBuffer(client, r, buffer, frame) == Audio(shown + [frame], kept)
  {
    if !r.isSpeech && !r.speechStart {
      AudioOfMore(shown, frame, client.kept);
    } else if client.active {
      AudioSnoc(shown, frame, client.kept);
    } else {
      AudioOfOne(shown, frame);
    }
  }

  lemma HearFrame(c: Config, isSpeech: Bytes -> bool, shown: seq<Bytes>, client: Client, buffer: Bytes, frame: Bytes)
    requires Heard(c, isSpeech, shown, client, buffer)
    ensures Loudness(shown + [frame], isSpeech) == Loudness(shown, isSpeech) + [isSpeech(frame)]
    ensures var r := LastAnswer(c, Loudness(shown, isSpeech) + [isSpeech(frame)]);
            Heard(c, isSpeech, shown + [frame], OnAnswer(client, r, |shown|), OnBuffer(client, r, buffer, frame))
  {
    LoudnessSnoc(shown, frame, isSpeech);
    NowSent(c, Loudness(shown, isSpeech), isSpeech(frame));
    HearAudio(shown, client, LastAnswer(c, Loudness(shown, isSpeech) + [isSpeech(frame)]), buffer, frame);
  }

  class SessionHandler {
    const vad: EnergyVAD
    const isSpeech: Bytes -> bool     // the energy comparison
    var idle: bool
    var isSpeechActive: bool
    var events: seq<ClientEvent>      // sent to the client, in order
    var speechBuffer: Bytes

    ghost var shown: seq<Bytes>       // the frames processed
    ghost var kept: seq<nat>          // those whose audio is in speechBuffer

    ghost predicate Valid()
      reads this, vad
    {
      && vad.Valid()
      && vad.frames == Loudness(shown, isSpeech)
      && Heard(vad.config, isSpeech, shown, Client(isSpeechActive, events, kept), speechBuffer)
    }

    constructor (config: Config, isSpeech: Bytes -> bool)
      ensures Valid() && idle && fresh(vad) && vad.config == config && shown == []
      ensures this.isSpeech == isSpeech
    {
      vad := new EnergyVAD(config);
      this.isSpeech := isSpeech;
      idle, isSpeechActive, events, speechBuffer := true, false, [], [];
      shown, kept := [], [];
    }

    method Start() returns (ok: bool)
      requires Valid()
      modifies this`idle
      ensures Valid() && ok == old(idle) && !idle
    {
      ok := idle;
      idle := false;
    }

    /** The detector sees the complete 320-byte frames of this chunk alone: a partial tail is not joined to the next
        chunk. */
    method ProcessAudioChunk(data: Bytes) returns (ok: bool)
      requires Valid()
      modifies this, vad
      ensures Valid() && idle == old(idle) && ok == !idle
      ensures shown == if ok then old(shown) + Frames(data, 320) else old(shown)
    {
      if idle {
        return false;
      }
      var result := ChunkStatic(data, FRAME_BYTES);
      CutIntoFrames(result, data);
      for i := 0 to |result.frames|
        invariant Valid() && !idle && idle == old(idle)
        invariant shown == old(shown) + result.frames[..i]
      {
        OnFrame(result.frames[i]);
        TakeMore(old(shown), result.frames, i);
      }
      assert result.frames[..|result.frames|] == result.frames;
      return true;
    }

    method OnFrame(frame: Bytes)
      requires Valid()
      modifies this`isSpeechActive, this`events, this`speechBuffer, this`shown, this`kept, vad
      ensures Valid() && shown == old(shown) + [frame]
    {
      HearFrame(vad.config, isSpeech, shown, Client(isSpeechActive, events, kept), speechBuffer, frame);
      var result := vad.Process(isSpeech(frame));
      HandleAnswer(result, frame);
      shown := shown + [frame];
    }

    method HandleAnswer(result: VADResult, frame: Bytes)
      modifies this`isSpeechActive, this`events, this`speechBuffer, this`kept
      ensures Client(isSpeechActive, events, kept)
           == OnAnswer(old(Client(isSpeechActive, events, kept)), result, |shown|)
      ensures speechBuffer
           == OnBuffer(old(Client(isSpeechActive, events, kept)), result, old(speechBuffer), frame)
    {
      if result.isSpeech || result.speechStart {
        kept := (if isSpeechActive then kept else []) + [|shown|];
        HandleSpeechFrame(frame);
      } else if result.speechEnd {
        HandleSpeechEnd();
      }
    }

    /** The first frame of an utterance empties the buffer; every one is appended to it. */
    method HandleSpeechFrame(frame: Bytes)
      modifies this`isSpeechActive, this`events, this`speechBuffer
      ensures isSpeechActive
      ensures events == old(events) + (if old(isSpeechActive) then [] else [ClientSpeechStart])
      ensures speechBuffer == (if old(isSpeechActive) then old(speechBuffer) else []) + frame
    {
      if !isSpeechActive {
        isSpeechActive := true;
        speechBuffer := [];
        events := events + [ClientSpeechStart];
      }
      speechBuffer := speechBuffer + frame;
    }

    method HandleSpeechEnd()
      modifies this`isSpeechActive, this`events
      ensures !isSpeechActive
      ensures events == old(events) + (if old(isSpeechActive) then [ClientSpeechEnd] else [])
    {
      if !isSpeechActive {
        return;
      }
      isSpeechActive := false;
      events := events + [ClientSpeechEnd];
    }
  }
}
