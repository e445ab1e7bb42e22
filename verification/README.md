# Verified models of a real-time voice server

The voice server reassembles caller audio, detects speech, cuts generated text into speakable segments, guards
its providers with a circuit breaker and keeps a bounded dialogue history that is meant to hold the text that was
heard and no other. This project models those in-memory components in Dafny and proves what they guarantee over
every run, and exactly where a guarantee fails (that one does for turns at any sample rate other than 16 kHz).

How the files are organised:

- One module per source component. Code that changes state is a class with the source's fields; each method is
  proved against a log of the operations so far (`Valid()` says that the fields are what that log leads to).
- The meaning of a log is stated declaratively (a window of the log, a run length of the frame history, the first
  gap in the arrivals, the audio sent in a turn) and the lemmas connect the two for all logs.
- Concurrent objects are transition systems whose steps are the sections run under the lock; a lemma about all
  event sequences is a statement about all interleavings.

Where a law the code is meant to obey does not hold for every input, the exact condition under which it holds is
proved as an equivalence, next to a lemma at a concrete failing input:

| law | exact condition | failing input |
|---|---|---|
| chunks come out in order | `InOrderIffNoOverflow` | `OneChunkTooMany` |
| deliveries ascend | `NeverOutOfOrder` | `WrapStartsOver` |
| the buffer stays within its maximum | `WithinCapacityIff`, `DistinctWithinCapacityIff` | `CapacityIsNoBound` |
| a received chunk is delivered or waits | `AlwaysAccountedIff` | `ReceivedAndLost` |
| the detector sees the caller's stream | `StreamShownIffContinuous` | `SomeAudioIsNotShown` |
| every buffered chunk is still awaited | `AlwaysFreshIff` | `RoomTakenForGood` |
| a silent detector means a silent client | `ClientAgreesIff` | `FalseStartExample` |
| all audio since a speech start is accumulated | `NothingMissingIff` | `ConfirmingFrameDropped` |
| the segments spell the text | `VerbatimIffCleanCuts` | `FineDayIsNotClean` |
| half-open calls stay within their limit | `LimitHoldsIffSerial` | `HalfOpenBoundAttained` |
| no reader sleeps on a non-empty buffer | `WakeupsSafeIff` | `TwoReadersLoseAWakeup` |
| trimming does not show in a prompt | `ContextUnaffectedIff` | `ForgottenQuestion` |
| the utterance closes the prompt | `UtteranceSurvivesIff` | `UtteranceDropped` |
| a token trim meets its limit | `TokenTrimFitsIff` | `TrimOverLimit` |
| an interruption keeps the text heard | `InterruptionHarmlessIff` | `FasterRateLosesText` |
| a duration is not counted as more than it is | `NeverAheadIff` | `SlowerRateInventsText` |
| only text reported as heard is committed | `OnlyHeardTextIff` | `HalfOfItUnheard` |
| spoken text is committed once | `CommitSpokenTwice` | `SpokenTwiceExample` |
| the mean is the mean | `MeanExactIff` | `MeanWrapsAround` |

Modelling conventions:

- float64 computations are exact rationals: durations, sample positions and percentile positions carry no rounding
  error, and conversions to integers truncate toward zero as in Go. In IEEE doubles a quotient can end up just below
  a whole number and truncate to one less. Two results are then off by one sample: at 16 kHz a cursor of 61868 bytes
  (30934 samples) comes back from an interruption as 61866 bytes, and the text drops from 29 to 28 characters; and
  one sample resampled up by k = 49 (or 98, 103, ...) and down again yields none.
- uint32 sequence numbers wrap, and the int64 accumulator of the mean wraps. Other integers are unbounded.
- Text is ASCII, so that byte offsets and character offsets agree.
- Callbacks (frames, chunks, client events) are fields that log the calls; the clock, provider outcomes and energy
  comparisons are parameters.

Where code and comments disagree, the model follows the code:

- `maxBufferSize` of the reassembler is described as a maximum, but an overflow makes room only when the skipped
  chunk is buffered (`WithinCapacityIff`; for distinct chunks, whenever nothing overflows at all); a chunk that was
  received can be skipped and is then never delivered (`AlwaysAccountedIff`, `PassedOverForever`).
- `HalfOpenMaxCalls` is described as the maximum number of calls in the half-open state, but only completed calls
  are counted (`LimitHoldsIffSerial`).
- `TrimToTokenLimit` keeps the last message and all system messages even when they do not fit (`TokenTrimFitsIff`).
- `MarkSpoken` and `HandleInterruption` assume 16 kHz whatever the rate of the turn. Above, an interruption takes back
  text that was heard (`InterruptionHarmlessIff`); below, text nobody heard is committed (`NeverAheadIff`,
  `OnlyHeardTextIff`); only at 16 kHz neither happens (`ConversionExactOnlyAt16k`).
- `handleSpeechFrame` accumulates audio for recognition, but the frame that confirms a start is not answered as speech,
  so that every utterance lacks it (`ConfirmingFrameDropped`, `NothingMissingIff`).
- A chunk that arrives in turn while a copy of it is buffered leaves the copy behind for good (`AlwaysFreshIff`,
  `RoomTakenForGood`).
- After a false start the detector falls silent without an end, and the client is never told (`ClientAgreesIff`).
- `ProcessAudioChunk` says that a partial frame is buffered for the next chunk; nothing reads that buffer, so the
  detector sees the complete frames of each chunk alone (`StreamShownIffContinuous`).
- The comment "at least 10 characters before punctuation" is implemented as an index greater than 10.

## Model

| member | source | states |
|---|---|---|
| `Framing.FramesContinue` | go/pkg/audio/chunk.go:24-40 | framing a longer stream continues from where framing its prefix stopped |
| `Framing.FramesConserve` | go/pkg/audio/chunk.go:24-53 | the frames followed by the flushed tail are the stream: no byte lost, added or moved |
| `Framing.FramesCutAtMultiples` | go/pkg/audio/chunk.go:77-101 | cutting frames off the front equals cutting at multiples of the frame size |
| `Framing.FeedFramesTheWhole` | go/pkg/audio/chunk.go:24-40 | however a stream is split into writes, the emitted frames and the pending tail are those of the whole stream |
| `Framing.StreamingEqualsOneShot` | go/pkg/audio/chunk.go:23-101 | the one-shot result of the concatenation is exactly what streaming and flushing produce, for every split |
| `Framing.Chunker.constructor` | go/pkg/audio/chunk.go:15-21 | a chunker starts with no pending bytes and nothing emitted |
| `Framing.Chunker.Write` | go/pkg/audio/chunk.go:24-40 | terminates, and leaves the frames and tail of all writes so far; without a callback nothing is emitted |
| `Framing.Chunker.Flush` | go/pkg/audio/chunk.go:43-53 | returns the tail of the writes since the last flush and starts afresh |
| `Framing.Chunker.Reset` | go/pkg/audio/chunk.go:56-58 | drops the pending tail, keeps what was emitted |
| `Framing.ChunkStatic` | go/pkg/audio/chunk.go:77-101 | frame i is bytes i*n to (i+1)*n, the rest is the partial frame; a non-positive size makes all of it partial |
| `Reassembly.DrainToFirstGap` | go/pkg/audio/chunk.go:157-167 | draining delivers exactly up to the first number not yet arrived |
| `Reassembly.DeliversInOrder` | go/pkg/audio/chunk.go:125-167 | without overflow: expected is the least number not arrived, delivered is the stream up to it, the buffer holds exactly the arrived later chunks and stays within capacity |
| `Reassembly.NeverOutOfOrder` | go/pkg/audio/chunk.go:125-174 | for every order of arrivals, overflowing or not: what is delivered has arrived with this data, and the deliveries ascend strictly exactly as long as none follows number 2^32-1 |
| `Reassembly.OverflowLosesForGood` | go/pkg/audio/chunk.go:139-174 | after one overflow fewer chunks are delivered than numbers passed over, forever |
| `Reassembly.InOrderIffNoOverflow` | go/pkg/audio/chunk.go:125-174 | in-order delivery holds exactly when no arrival overflows the buffer, a condition on the arrivals alone |
| `Reassembly.WithinCapacityIff` | go/pkg/audio/chunk.go:139-146 | the buffer stays within its maximum exactly when no new chunk finds it full with the expected chunk not in it |
| `Reassembly.DistinctWithinCapacityIff` | go/pkg/audio/chunk.go:139-146 | without retransmissions: exactly when no arrival overflows it |
| `Reassembly.AlwaysAccountedIff` | go/pkg/audio/chunk.go:132-174 | at every point each received number is delivered or buffered at or beyond the expected one, exactly when no overflow skips a buffered chunk and none arrives below the expected number undelivered |
| `Reassembly.PassedOverForever` | go/pkg/audio/chunk.go:132-137 | a number passed over undelivered is never delivered, whatever arrives later |
| `Reassembly.ReceivedAndLost` | go/pkg/audio/chunk.go:139-174 | capacity 1, chunks 1, 2, 3: chunk 1 was received, is neither delivered nor buffered, and 2 is expected |
| `Reassembly.InTurnReleases` | go/pkg/audio/chunk.go:127-132 | in every state, overflowed or not, the expected chunk is delivered with all chunks buffered behind it up to the first gap, in order modulo 2^32, and nothing else leaves the buffer |
| `Reassembly.OutOfTurnWaits` | go/pkg/audio/chunk.go:134-147 | an old chunk changes nothing; one ahead is buffered, a full buffer giving up the expected number |
| `Reassembly.AlwaysFreshIff` | go/pkg/audio/chunk.go:127-132 | everything buffered is still awaited, at every point, exactly when no chunk arrives in turn that is buffered already |
| `Reassembly.StaleForever` | go/pkg/audio/chunk.go:127-174 | a chunk left buffered below the expected number keeps its place, whatever arrives later |
| `Reassembly.RoomTakenForGood` | go/pkg/audio/chunk.go:127-146 | capacity 1, chunks 1, 2, 3, 2: from then on every chunk ahead of its turn overflows |
| `Reassembly.EnoughRoom` | go/pkg/audio/chunk.go:139-143 | a capacity for all chunks, or all but one distinct ones, never overflows |
| `Reassembly.AnyOrderYieldsTheStream` | go/pkg/audio/chunk.go:125-167 | every order of chunks 0..n-1 delivers the original stream and empties the buffer, for n up to capacity+1 distinct or capacity repeated chunks |
| `Reassembly.OneChunkTooMany` | go/pkg/audio/chunk.go:139-143 | the bound is tight: some order of capacity+2 chunks is not reassembled |
| `Reassembly.CapacityIsNoBound` | go/pkg/audio/chunk.go:139-146 | a burst of n chunks far ahead leaves n buffered chunks, whatever the capacity |
| `Reassembly.InTurn` | go/pkg/audio/chunk.go:125-132 | chunks that arrive in turn are delivered as they come, and after 2^32 of them number 0 is expected again |
| `Reassembly.WrapStartsOver` | go/pkg/audio/chunk.go:127-132 | the run of all 2^32 numbers and an old chunk 0 delivers that chunk again, out of order |
| `Reassembly.Reassembler.constructor` | go/pkg/audio/chunk.go:112-122 | starts expecting 0 with an empty buffer; a non-positive capacity becomes 100 |
| `Reassembly.Reassembler.AddChunk` | go/pkg/audio/chunk.go:125-147 | keeps the object at the state its arrivals lead to; after an in-turn chunk the expected number is not buffered |
| `Reassembly.Reassembler.EmitBuffered` | go/pkg/audio/chunk.go:157-167 | terminates and drains, including across the uint32 wrap-around |
| `Reassembly.Reassembler.AdvanceExpected` | go/pkg/audio/chunk.go:170-174 | skips one number without delivering anything |
| `Reassembly.Reassembler.Reset` | go/pkg/audio/chunk.go:177-180 | starts a new stream, keeps what was delivered |
| `SpeechSegmentation.ExtractSpeakableSegment` | go/orchestrator/internal/pipeline/tts_stage.go:289-312 | the backward scan returns the trimmed text before the last sentence end, phrase end or space, in that order |
| `SpeechSegmentation.SpeakableExactly` | go/orchestrator/internal/pipeline/tts_stage.go:272-286 | speakable means: last of . ! ? beyond position 10; without one, last of , ; : beyond 20; without either, longer than 50 |
| `SpeechSegmentation.WhitespaceExactly` | go/orchestrator/internal/pipeline/tts_stage.go:306-307 | whitespace is space, tab, line feed, vertical tab, form feed and carriage return |
| `SpeechSegmentation.TrimExactly` | go/orchestrator/internal/pipeline/tts_stage.go:289-312 | trimming takes away the whitespace on both sides and nothing else |
| `SpeechSegmentation.SegmentExactly` | go/orchestrator/internal/pipeline/tts_stage.go:289-312 | the segment is the trimmed text up to that end, or before the last whitespace of a long text without one |
| `SpeechSegmentation.SegmentParts` | go/orchestrator/internal/pipeline/tts_stage.go:289-312 | a segment is a contiguous, trimmed part of the text, right behind its leading whitespace |
| `SpeechSegmentation.CutEffect` | go/orchestrator/internal/pipeline/tts_stage.go:218-229 | segment plus kept text contains all non-whitespace of the text in order, and is the text exactly when it starts with no whitespace |
| `SpeechSegmentation.DispatchExactly` | go/orchestrator/internal/pipeline/tts_stage.go:207-312 | when a token is followed by a cut and what is said: behind the last . ! ? beyond 10; lacking any, behind the last , ; : beyond 20; lacking both, before the last whitespace of more than 50 characters; else, or refused, everything stays buffered |
| `SpeechSegmentation.RunLosesNothing` | go/orchestrator/internal/pipeline/tts_stage.go:198-233 | after any tokens, accepted or not, lengths balance exactly and the non-whitespace text survives in order |
| `SpeechSegmentation.VerbatimIffCleanCuts` | go/orchestrator/internal/pipeline/tts_stage.go:198-233 | the segments spell the stream verbatim exactly when no accepted cut saw leading whitespace; an unclean cut is never repaired |
| `SpeechSegmentation.SentenceCut` | go/orchestrator/internal/pipeline/tts_stage.go:272-293 | a text ending its sentence is cut at its end |
| `SpeechSegmentation.SecondSentenceStutters` | go/orchestrator/internal/pipeline/tts_stage.go:218-229 | two space-separated sentences, one token each: the second full stop is spoken again alone |
| `SpeechSegmentation.FineDayIsNotClean` | go/orchestrator/internal/pipeline/tts_stage.go:218-229 | a concrete pair of sentences whose cuts are not clean |
| `SpeechSegmentation.EarlyFullStopBlocks` | go/orchestrator/internal/pipeline/tts_stage.go:272-286 | a sentence end within the first 11 characters holds back any amount of later text without one |
| `SpeechSegmentation.SynthesizeIncremental` | go/orchestrator/internal/pipeline/tts_stage.go:198-233 | the token loop dispatches all text: same total length, all non-whitespace in order, verbatim exactly for clean cuts; a refused final text is dropped, an accepted one is the last segment |
| `CircuitBreaking.CountersAlwaysExplained` | go/orchestrator/internal/pipeline/circuit_breaker.go:92-171 | in every interleaving: closed means the failure count is the trailing failure run, below threshold; half-open means no failures and fewer than the maximum successes since it half-opened |
| `CircuitBreaking.LastFailureTimeExplained` | go/orchestrator/internal/pipeline/circuit_breaker.go:136-138 | the stored time is that of the latest failure recorded in any state |
| `CircuitBreaking.OpensExactlyAtThreshold` | go/orchestrator/internal/pipeline/circuit_breaker.go:140-144 | a closed circuit opens exactly on the failure completing a run of the threshold |
| `CircuitBreaking.HalfOpenLeftExactly` | go/orchestrator/internal/pipeline/circuit_breaker.go:111-170 | half-open is left exactly on the first failure, the last required success or a reset, and its rejection branch is never taken |
| `CircuitBreaking.OpenLeftExactly` | go/orchestrator/internal/pipeline/circuit_breaker.go:97-171 | an open circuit half-opens exactly on an attempt later than the timeout since the latest failure, closes exactly on a reset, and stays open on every result |
| `CircuitBreaking.LateSuccessChangesNothing` | go/orchestrator/internal/pipeline/circuit_breaker.go:155-171 | a success of a call still in flight leaves an open circuit refusing exactly as before |
| `CircuitBreaking.ResetCloses` | go/orchestrator/internal/pipeline/circuit_breaker.go:192-198 | a reset closes the circuit from every state and starts a new failure run |
| `CircuitBreaking.RefusedExactlyWhileOpen` | go/orchestrator/internal/pipeline/circuit_breaker.go:97-120 | a call is refused exactly while open and within the timeout of the latest failure, stragglers included |
| `CircuitBreaking.OpenMeansQuiet` | go/orchestrator/internal/pipeline/circuit_breaker.go:101-109 | with a monotone clock nothing is admitted until the timeout has passed since every recorded failure |
| `CircuitBreaking.ProbesInFlight` | go/orchestrator/internal/pipeline/circuit_breaker.go:111-116 | in a half-open phase, the unanswered calls include all its attempts beyond its successes |
| `CircuitBreaking.HalfOpenCallsBounded` | go/orchestrator/internal/pipeline/circuit_breaker.go:111-116 | with at most k calls in flight, a half-open phase lets through at most maximum-1+k |
| `CircuitBreaking.HalfOpenBoundAttained` | go/orchestrator/internal/pipeline/circuit_breaker.go:111-116 | that bound is attained for every configuration and k |
| `CircuitBreaking.LimitHoldsIffSerial` | go/orchestrator/internal/pipeline/circuit_breaker.go:44-45 | the documented limit on half-open calls holds exactly for callers that never overlap |
| `CircuitBreaking.CircuitBreaker.constructor` | go/orchestrator/internal/pipeline/circuit_breaker.go:69-75 | starts closed with zero counters |
| `CircuitBreaking.CircuitBreaker.BeforeCall` | go/orchestrator/internal/pipeline/circuit_breaker.go:93-121 | admits exactly what the state reached by the log admits, half-opens exactly when it admits from open, and records the attempt |
| `CircuitBreaking.CircuitBreaker.AfterCall` | go/orchestrator/internal/pipeline/circuit_breaker.go:124-133 | records one failure or success |
| `CircuitBreaking.CircuitBreaker.RecordFailure` | go/orchestrator/internal/pipeline/circuit_breaker.go:136-152 | the whole new state after a failure, in each of the three states |
| `CircuitBreaking.CircuitBreaker.RecordSuccess` | go/orchestrator/internal/pipeline/circuit_breaker.go:155-171 | the whole new state after a success, in each of the three states; only the last required success of a half-open circuit closes it |
| `CircuitBreaking.CircuitBreaker.ResetBreaker` | go/orchestrator/internal/pipeline/circuit_breaker.go:192-198 | closes the circuit and clears both counters |
| `DialogueHistory.ContextUnaffectedIff` | go/pkg/session/history.go:86-115 | the prompt of the trimmed history equals that of the full log exactly when nothing was dropped or no more is asked for than is kept |
| `DialogueHistory.ContextHolds` | go/pkg/session/history.go:86-115 | a prompt is the instructions, if any, and all system messages, then the latest of the others, in order |
| `DialogueHistory.ForgottenQuestion` | go/pkg/session/history.go:86-198 | with room for one message, the question before an answer is missing from the prompt |
| `DialogueHistory.ConversationHistory.constructor` | go/pkg/session/history.go:20-28 | starts empty; a non-positive size becomes 100 |
| `DialogueHistory.ConversationHistory.AppendUserMessage` | go/pkg/session/history.go:31-41 | after any appends the history is the window of the whole log |
| `DialogueHistory.ConversationHistory.AppendAssistantMessage` | go/pkg/session/history.go:45-59 | likewise; an empty text is not logged |
| `DialogueHistory.ConversationHistory.AppendSystemMessage` | go/pkg/session/history.go:62-72 | likewise for system messages, which are never dropped |
| `DialogueHistory.ConversationHistory.TrimIfNeeded` | go/pkg/session/history.go:158-163 | cuts the messages to their window |
| `DialogueHistory.ConversationHistory.TrimOldestNonSystem` | go/pkg/session/history.go:166-198 | all system messages, then the latest others there is room for |
| `DialogueHistory.ConversationHistory.GetPromptContext` | go/pkg/session/history.go:86-115 | builds that prompt, and says exactly when it is the prompt of the untrimmed log |
| `DialogueHistory.ConversationHistory.Clear` | go/pkg/session/history.go:144-148 | forgets the log |
| `PromptAssembly.WindowKeeps` | go/pkg/session/history.go:166-198 | a window keeps every system message in order and exactly the last min(T, max(0, limit-S)) others; it meets the limit exactly when the system messages do |
| `PromptAssembly.WindowIncremental` | go/pkg/session/history.go:31-72 | trimming after every append gives the window of the unbounded log |
| `PromptAssembly.WindowIdempotent` | go/orchestrator/internal/pipeline/prompt.go:108-142 | applying the context limit twice changes nothing |
| `PromptAssembly.SplitByRole` | go/orchestrator/internal/pipeline/prompt.go:113-123 | separates system from other messages, each in order |
| `PromptAssembly.PromptAssembler.constructor` | go/orchestrator/internal/pipeline/prompt.go:14-21 | a non-positive limit becomes 20 |
| `PromptAssembly.PromptAssembler.ApplyContextLimit` | go/orchestrator/internal/pipeline/prompt.go:108-142 | returns the window of the messages |
| `PromptAssembly.PromptAssembler.AssemblePromptWithHistory` | go/orchestrator/internal/pipeline/prompt.go:64-104 | the window of system prompt, usable history and utterance |
| `PromptAssembly.AssembledExactly` | go/orchestrator/internal/pipeline/prompt.go:71-101 | before trimming, the prompt holds exactly the instructions, the non-empty user, assistant and system messages of the history, and the utterance |
| `PromptAssembly.AssembledInOrder` | go/orchestrator/internal/pipeline/prompt.go:71-101 | in this order, each message of the history once |
| `PromptAssembly.UtteranceSurvivesIff` | go/orchestrator/internal/pipeline/prompt.go:92-139 | the utterance closes the prompt exactly when the system messages leave room for one more |
| `PromptAssembly.UtteranceDropped` | go/orchestrator/internal/pipeline/prompt.go:108-142 | with a limit of 1 and a system prompt the utterance is not in the prompt |
| `PromptAssembly.PromptAssembler.CountTotalTokens` | go/orchestrator/internal/pipeline/prompt.go:152-160 | a quarter of the characters plus 4 per message |
| `PromptAssembly.TokensExactly` | go/orchestrator/internal/pipeline/prompt.go:144-160 | four times the estimate is the characters plus 16 a message, up to 3 a message lost to rounding |
| `PromptAssembly.PromptAssembler.TrimToTokenLimit` | go/orchestrator/internal/pipeline/prompt.go:164-203 | terminates with all system messages and the longest suffix of the others that fits the rest of the budget, or just the last one |
| `PromptAssembly.TokensSplit` | go/orchestrator/internal/pipeline/prompt.go:152-189 | the cost of a list is the cost of its system messages plus that of the others |
| `PromptAssembly.TokenTrimUnique` | go/orchestrator/internal/pipeline/prompt.go:164-203 | that description determines the result |
| `PromptAssembly.TokenTrimIdempotent` | go/orchestrator/internal/pipeline/prompt.go:164-203 | trimming a trimmed list changes nothing |
| `PromptAssembly.TokenTrimFitsIff` | go/orchestrator/internal/pipeline/prompt.go:162-203 | the result fits the limit exactly when the system messages and the last other message do |
| `PromptAssembly.TrimOverLimit` | go/orchestrator/internal/pipeline/prompt.go:188-200 | a single message of 5 tokens is kept under a limit of 3 |
| `JitterBuffering.AlwaysConsistent` | go/pkg/audio/buffer.go:39-172 | in every interleaving of any number of readers and writers: no send on a closed channel and no second close, at most maxSize frames, accepted = removed then buffered frames, in order |
| `JitterBuffering.DeliveredInOrder` | go/pkg/audio/buffer.go:39-110 | without Clear, accepted frames are exactly the frames handed to readers followed by the buffered ones |
| `JitterBuffering.NoLostWakeup` | go/pkg/audio/buffer.go:58-95 | with one reader, or room for one frame, no reader ever sleeps on a non-empty buffer without a wakeup coming |
| `JitterBuffering.SoleReaderIsWoken` | go/pkg/audio/buffer.go:67-95 | a sole parked reader with frames buffered has a token or closed channel pending, and its next two steps deliver the oldest frame |
| `JitterBuffering.TwoReadersLoseAWakeup` | go/pkg/audio/buffer.go:58-95 | a schedule of two readers and two writes that loses a wakeup |
| `JitterBuffering.WakeupsSafeIff` | go/pkg/audio/buffer.go:34-95 | some interleaving loses a wakeup exactly when there are two or more readers and room for two or more frames |
| `JitterBuffering.JitterBuffer.constructor` | go/pkg/audio/buffer.go:27-37 | starts empty and open; a non-positive size becomes 100 |
| `JitterBuffering.JitterBuffer.Write` | go/pkg/audio/buffer.go:41-65 | refuses when closed, then when full, else appends and leaves a notification; a refusal changes nothing |
| `JitterBuffering.JitterBuffer.ReadCheck` | go/pkg/audio/buffer.go:71-85 | hands out and removes the oldest frame; of an empty buffer says closed or wait |
| `JitterBuffering.JitterBuffer.TryRead` | go/pkg/audio/buffer.go:99-110 | removes and returns the oldest frame, if any |
| `JitterBuffering.JitterBuffer.Peek` | go/pkg/audio/buffer.go:114-125 | the oldest frame, if any, left in place |
| `JitterBuffering.JitterBuffer.Close` | go/pkg/audio/buffer.go:149-157 | closes buffer and channel once, keeps the frames |
| `JitterBuffering.JitterBuffer.Clear` | go/pkg/audio/buffer.go:167-172 | drops the frames and nothing else |
| `RingBuffering.PiecesDoNotMatter` | go/pkg/audio/buffer.go:272-290 | writing in pieces keeps the same last bytes as writing at once |
| `RingBuffering.WindowExactly` | go/pkg/audio/buffer.go:272-290 | what a write drops is the oldest bytes, and only when the ring is left full |
| `RingBuffering.CircularBuffer.constructor` | go/pkg/audio/buffer.go:263-268 | starts empty |
| `RingBuffering.CircularBuffer.Write` | go/pkg/audio/buffer.go:272-290 | the contents become the last size bytes of old contents and input; all of the input counts as written; the write position stays read position plus count, modulo size |
| `RingBuffering.CircularBuffer.Read` | go/pkg/audio/buffer.go:294-310 | removes a prefix of the contents, as much as fits, into the front of the destination and leaves the rest of it alone |
| `RingBuffering.CircularBuffer.Reset` | go/pkg/audio/buffer.go:327-333 | empties the ring |
| `VoiceActivity.CountersAlwaysRuns` | go/media-edge/internal/vad/vad.go:126-194 | over any frame history the counters are trailing run lengths, bounded by the two thresholds |
| `VoiceActivity.DueExactly` | go/media-edge/internal/vad/vad.go:130-181 | the code's thresholds are max(1, minSpeech/frame/2) frames of speech and max(1, hangover+1, minSilence/frame) frames of silence, whatever the sign of the durations |
| `VoiceActivity.StateExactly` | go/media-edge/internal/vad/vad.go:125-194 | from each state, the state a frame leads to, in terms of the trailing runs |
| `VoiceActivity.AnswerExactly` | go/media-edge/internal/vad/vad.go:118-197 | the answer reports the new state; speech exactly within an utterance that the frame does not end; the events exactly on entering their states |
| `VoiceActivity.SustainedSpeechIsReported` | go/media-edge/internal/vad/vad.go:125-160 | more than one speech frame beyond the starting run is answered as speech, whatever came before |
| `VoiceActivity.EventsExactly` | go/media-edge/internal/vad/vad.go:125-246 | speech starts exactly on speech run max(1, minSpeech/2) from silence or on any speech frame right after an end; it ends exactly on silent run max(1, hangover+1, minSilence) |
| `VoiceActivity.SustainedFramesDecide` | go/media-edge/internal/vad/vad.go:126-194 | longer runs than the thresholds force speech and silence, whatever came before |
| `VoiceActivity.EnergyVAD.constructor` | go/media-edge/internal/vad/vad.go:94-103 | starts in silence |
| `VoiceActivity.EnergyVAD.Process` | go/media-edge/internal/vad/vad.go:106-197 | state and answer are those of the frame history |
| `VoiceActivity.EnergyVAD.Reset` | go/media-edge/internal/vad/vad.go:200-209 | forgets the history |
| `SpeechEvents.ClientAlwaysFaithful` | go/media-edge/internal/handler/session_handler.go:197-256 | client events alternate from a start; every detector end reaches the client exactly once; the flag says a start is pending |
| `SpeechEvents.StartReachesClientIff` | go/media-edge/internal/handler/session_handler.go:228-238 | a detector start reaches the client exactly when none is pending |
| `SpeechEvents.FalseStartLingers` | go/media-edge/internal/handler/session_handler.go:200-205 | after a false start the client hears of no end, however long the silence |
| `SpeechEvents.ClientAgreesIff` | go/media-edge/internal/vad/vad.go:143-154 | while the detector is silent, and however long it stays so, the client believes in speech exactly when the detector's last state other than silence was SpeechStart, a false start |
| `SpeechEvents.FalseStartExample` | go/media-edge/internal/vad/vad.go:126-154 | two frames, the first of them speech: the detector is silent, the client was told of a start only |
| `SpeechEvents.KeptExactly` | go/media-edge/internal/handler/session_handler.go:197-242 | the audio accumulated for recognition is exactly that of the frames answered as speech or start since the last start sent, in order |
| `SpeechEvents.ConfirmingFrameDropped` | go/media-edge/internal/vad/vad.go:143-151 | the frame that confirms a start is answered as neither: its audio is never accumulated, whatever follows |
| `SpeechEvents.NothingMissingIff` | go/media-edge/internal/handler/session_handler.go:200-241 | the accumulated audio is all of the audio since the start exactly on the frame of the start |
| `SpeechEvents.SessionHandler.constructor` | go/media-edge/internal/handler/session_handler.go:65-117 | starts idle with nothing sent |
| `SpeechEvents.SessionHandler.ProcessAudioChunk` | go/media-edge/internal/handler/session_handler.go:177-225 | refused while idle; else detector, client events and accumulated audio are those of all complete 320-byte frames of this and the earlier chunks |
| `SpeechEvents.SessionHandler.HandleSpeechFrame` | go/media-edge/internal/handler/session_handler.go:228-242 | raises the flag, sends a start and empties the audio buffer only when it was down, and appends the frame |
| `SpeechEvents.SessionHandler.HandleSpeechEnd` | go/media-edge/internal/handler/session_handler.go:245-265 | lowers the flag, sends an end only when it was up |
| `ChunkwiseFraming.ContinuousShowsTheStream` | go/media-edge/internal/handler/session_handler.go:193-217 | when chunks end on frame boundaries the detector is shown exactly the frames of the stream |
| `ChunkwiseFraming.SomeAudioIsNotShown` | go/media-edge/internal/handler/session_handler.go:213-217 | otherwise some audio of the stream is in no frame the detector is shown |
| `ChunkwiseFraming.StreamShownIffContinuous` | go/media-edge/internal/handler/session_handler.go:193-217 | for given chunk lengths the detector is shown the stream's frames, whatever its contents, exactly when the lengths are continuous |
| `AssistantTurns.CharsMonotone` | go/pkg/session/turn.go:110-123 | less audio never means more committable text |
| `AssistantTurns.ConversionsExactly` | go/orchestrator/internal/statemachine/turn_manager.go:66-71 | 2 bytes a sample, 15 characters and 16000 samples a second, each the whole part of the exact quotient |
| `AssistantTurns.CommittableExactly` | go/pkg/session/turn.go:110-123 | the committable text is the beginning of the text, 15 characters for every second of audio, or all of it |
| `AssistantTurns.InterruptionNeverAdds` | go/pkg/session/turn.go:98-123 | no interruption moves the cursor forward or extends the committable text |
| `AssistantTurns.RoundTripKeepsSamples` | go/orchestrator/internal/statemachine/turn_manager.go:88-103 | interrupting at the current position, up to 16 kHz, loses at most one byte and no sample; at 16 kHz exactly the odd byte |
| `AssistantTurns.FasterRateLosesText` | go/orchestrator/internal/statemachine/turn_manager.go:96-102 | above 16 kHz it takes back text already heard |
| `AssistantTurns.InterruptionHarmlessIff` | go/orchestrator/internal/statemachine/turn_manager.go:88-103 | it leaves the text of every turn alone exactly up to 16 kHz |
| `AssistantTurns.NeverAheadIff` | go/orchestrator/internal/statemachine/turn_manager.go:58-103 | converting a duration to bytes and on to text never yields more text than the duration holds, exactly from 16 kHz on |
| `AssistantTurns.SlowerRateInventsText` | go/orchestrator/internal/statemachine/turn_manager.go:66-73 | below 16 kHz, 2000 seconds reported as spoken are counted as more |
| `AssistantTurns.ConversionExactOnlyAt16k` | go/orchestrator/internal/statemachine/turn_manager.go:58-103 | the conversions neither lose nor invent text exactly at 16 kHz |
| `AssistantTurns.CommitSpokenTwice` | go/pkg/session/turn.go:73-95 | committing spoken text twice stays within the audio sent exactly when the text or the audio is exhausted |
| `AssistantTurns.SpokenTwiceExample` | go/pkg/session/turn.go:73-95 | 2 seconds of audio and 60 characters: two commits hand out all 60 |
| `AssistantTurns.AssistantTurn.constructor` | go/pkg/session/turn.go:28-34 | starts without text and audio |
| `AssistantTurns.AssistantTurn.CommitSpokenText` | go/pkg/session/turn.go:73-95 | splits the text into what the audio covers and the rest, leaving the cursor |
| `AssistantTurns.AssistantTurn.MarkInterrupted` | go/pkg/session/turn.go:98-106 | lowers the cursor to the position, never raises it |
| `AssistantTurns.AssistantTurn.GetCommittableText` | go/pkg/session/turn.go:110-123 | the prefix of the text the audio covers |
| `AssistantTurns.AssistantTurn.AdvancePlayout` | go/pkg/session/turn.go:126-137 | moves the cursor by the bytes sent |
| `AssistantTurns.AssistantTurn.CalculateDurationFromBytes` | go/pkg/session/turn.go:208-215 | whole samples over the rate, 0 without a rate |
| `TurnManagement.OnlySpokenTextIsCommitted` | go/orchestrator/internal/statemachine/turn_manager.go:28-130 | in every session, commits come in turn order, at most one per start, each the part of its turn's text covered by the least audio, in bytes as the manager counts them, that any report or interruption of the turn allows |
| `TurnManagement.SpokenTextIsCommitted` | go/orchestrator/internal/statemachine/turn_manager.go:28-130 | conversely, whatever happened before, committing a turn adds one message with exactly the text its audio covers, unless that is empty, and keeps all earlier ones |
| `TurnManagement.CommitsOnlyGrow` | go/orchestrator/internal/statemachine/turn_manager.go:28-130 | no operation takes a message back, and only a commit adds one |
| `TurnManagement.CommitsNeverRunAhead` | go/orchestrator/internal/statemachine/turn_manager.go:56-130 | a commit is a prefix of its turn's text, within the bytes advanced and within the bytes of each interruption plus those after it, as the manager counts them |
| `TurnManagement.CommitsWithinHeard` | go/orchestrator/internal/statemachine/turn_manager.go:56-130 | from 16 kHz on, no session commits more text than the reported durations and bytes hold, nor more than the position of any interruption and what is reported after it |
| `TurnManagement.OnlyHeardTextIff` | go/orchestrator/internal/statemachine/turn_manager.go:56-130 | every session keeps to the reported durations, and every session to the interruption positions, exactly for turns from 16 kHz on |
| `TurnManagement.HalfOfItUnheard` | go/orchestrator/internal/statemachine/turn_manager.go:58-130 | at 8 kHz one second reported as spoken commits 30 characters, of which 15 were heard |
| `TurnManagement.StrayTextIsDropped` | go/orchestrator/internal/statemachine/turn_manager.go:37-44 | text appended while no turn is open reaches no message, then or later |
| `TurnManagement.TurnManager.constructor` | go/orchestrator/internal/statemachine/turn_manager.go:20-25 | starts without a turn |
| `TurnManagement.TurnManager.StartNewTurn` | go/orchestrator/internal/statemachine/turn_manager.go:28-34 | replaces the current turn by a fresh one |
| `TurnManagement.TurnManager.Append` | go/orchestrator/internal/statemachine/turn_manager.go:37-44 | extends the text of the current turn, if any |
| `TurnManagement.TurnManager.MarkQueued` | go/orchestrator/internal/statemachine/turn_manager.go:47-54 | changes nothing that is committed |
| `TurnManagement.TurnManager.Spoken` | go/orchestrator/internal/statemachine/turn_manager.go:58-74 | advances the cursor by the 16 kHz bytes of a duration |
| `TurnManagement.TurnManager.Advance` | go/orchestrator/internal/statemachine/turn_manager.go:77-84 | advances the cursor by bytes |
| `TurnManagement.TurnManager.Interrupt` | go/orchestrator/internal/statemachine/turn_manager.go:88-103 | lowers the cursor to the 16 kHz bytes of the position |
| `TurnManagement.TurnManager.Commit` | go/orchestrator/internal/statemachine/turn_manager.go:107-130 | appends to the history exactly the commit the session gains, and closes the turn; over a whole session the appended messages are the commits, in order |
| `TurnManagement.TurnManager.GetCurrentPosition` | go/orchestrator/internal/statemachine/turn_manager.go:152-161 | the duration of the audio sent, 0 without a turn |
| `TurnManagement.TurnManager.ResetTurn` | go/orchestrator/internal/statemachine/turn_manager.go:188-192 | drops the turn without committing it |
| `Resampling.SamplesOfBytes` | go/pkg/audio/resample.go:87-103 | encoding then decoding samples is the identity |
| `Resampling.BytesOfSamples` | go/pkg/audio/resample.go:87-103 | decoding then encoding an even-length buffer is the identity |
| `Resampling.SourceInRange` | go/pkg/audio/resample.go:46-58 | at every rate each source position lies inside the input |
| `Resampling.OutputBetweenNeighbours` | go/pkg/audio/resample.go:54-84 | each output sample lies between its two neighbouring inputs |
| `Resampling.Decimation` | go/pkg/audio/resample.go:27-84 | dividing the rate by k keeps every k-th sample, n/k of them |
| `Resampling.Expansion` | go/pkg/audio/resample.go:27-84 | multiplying the rate by k keeps every sample, k positions apart |
| `Resampling.UpAndDownIsIdentity` | go/pkg/audio/resample.go:27-103 | up by a whole factor and back down is the identity on every even-length buffer |
| `Resampling.LinearResampler.Resample` | go/pkg/audio/resample.go:27-61 | equal rates pass the data through; bad rates and odd lengths are errors; else floor(n*to/from) samples, the i-th the truncated linear interpolation at i*from/to |
| `Resampling.InterpolateExactly` | go/pkg/audio/resample.go:68-84 | the value at a position is a*(1-t)+b*t of the two samples around it, truncated toward zero, and the last sample from there on |
| `Resampling.ResampledUnique` | go/pkg/audio/resample.go:27-61 | that description determines the output |
| `Resampling.BytesToSamples` | go/pkg/audio/resample.go:87-93 | sample i is bytes 2i and 2i+1, low byte first, as a signed 16-bit value |
| `Resampling.SamplesToBytes` | go/pkg/audio/resample.go:96-103 | bytes 2i and 2i+1 are sample i modulo 2^16, low byte first |
| `BenchStatistics.PercentileOfMultiset` | go/bench/internal/report/report.go:174-190 | a percentile depends only on the multiset of its inputs |
| `BenchStatistics.PercentileExactly` | go/bench/internal/report/report.go:174-190 | the truncated linear interpolation at position p/100*(n-1) of the ascending values, the greatest value from the last position on |
| `BenchStatistics.PercentileMonotone` | go/bench/internal/report/report.go:182-189 | percentiles grow with p |
| `BenchStatistics.PercentileEnds` | go/bench/internal/report/report.go:174-190 | the minimum at 0, the maximum from 100 on |
| `BenchStatistics.PercentileInRange` | go/bench/internal/report/report.go:174-190 | every percentile lies between minimum and maximum |
| `BenchStatistics.TrueMeanInRange` | go/bench/internal/report/report.go:163-172 | the truncated mean lies between minimum and maximum |
| `BenchStatistics.MeanExactIff` | go/bench/internal/report/report.go:167-171 | the computed mean is the mean exactly when the total fits the int64 accumulator |
| `BenchStatistics.MeanWrapsAround` | go/bench/internal/report/report.go:167-171 | the mean of twice the greatest int64 value is computed as -1 |
| `BenchStatistics.Mean` | go/bench/internal/report/report.go:163-172 | 0 for no values; exact, and between minimum and maximum, when the total fits |
| `BenchStatistics.Min` | go/bench/internal/report/report.go:192-203 | the least value, 0 for none |
| `BenchStatistics.Max` | go/bench/internal/report/report.go:205-216 | the greatest value, 0 for none |
| `SpeechRuns.EnergyVADProvider.ProcessBuffer` | py/provider_gateway/app/providers/vad/energy_vad.py:96-146 | of a byte buffer, padded and decoded: exactly the maximal runs of speech frames that are long enough, frame-aligned, in order and apart, including one open at the end |
| `SpeechRuns.SegmentsUnique` | py/provider_gateway/app/providers/vad/energy_vad.py:96-146 | that description determines the list of segments |

## Left out

- Transport, HTTP middleware, gRPC, Redis and Postgres stores, telemetry, configuration and scripts: I/O or library plumbing.
- The engine's goroutines and the stages' cancel maps: they depend on contexts and providers outside the model. The engine appends an interrupted turn's message a second time (go/orchestrator/internal/pipeline/engine.go:419-421); committing once is a property of the turn manager.
- The session state table, the G.711 codecs and the channel bridge: enumeration, a finite domain, and no clean guarantee.
- The adaptive detector, configuration updates, playout callbacks, wall-clock timestamps, clones and statistics accessors: easy members.
- Rounding of float64, energy computations, and the confidence field of a segment: energies enter as a comparison result per frame.
- Zero and negative frame sizes of a streaming chunker, zero-sized rings, thresholds below 1, sample rates below 34 Hz in the offline detector, negative rates, byte counts and positions: the code loops, divides by zero or panics there.
- Multi-byte text: whitespace and boundaries outside ASCII.
- Cancellation in the middle of a segment, and errors after a segment was partly forwarded: a segment is accepted or refused as a whole.
- The handler's bot interruption and orchestrator state: only the speech flag, the client's speech events and the accumulated audio.
- Reordering by several goroutines inside the turn manager: each operation is one step under its lock, as in the source.
- Reassembly.AlwaysAccountedIff: says nothing of runs that have delivered number 2^32-1; the same numbers then mean new chunks (WrapStartsOver).
- Reassembly.AlwaysFreshIff: likewise.
- Reassembly.OverflowLosesForGood: likewise only until number 2^32-1 is delivered.
- AssistantTurns.InterruptionHarmlessIff: float64 rounding is left out; at 16 kHz it costs a sample at some cursors (30934 samples is one).
- AssistantTurns.RoundTripKeepsSamples: likewise.
- Resampling.Decimation: float64 rounding of the output length is left out; at k = 49 it loses the only sample of 49.
- Resampling.UpAndDownIsIdentity: likewise; one sample up and down by k = 49 yields none.
- BenchStatistics.PercentileMonotone: int64 overflow of the difference of two neighbouring values is not modelled; sorting is the library's.
