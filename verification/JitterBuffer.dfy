/** The blocking audio queue: a mutex-protected slice and a one-slot notification channel. Each section run
    under the lock, and each outcome of the reader's `select`, is one atomic step. */
module JitterBuffering {
  import opened Options
  import opened Seqs

  type Frame = Bytes

  datatype WriteResult = Accepted | BufferFull | BufferClosed

  /** What the locked section of Read decides. */
  datatype ReadResult = Delivered(frame: Frame) | ReadClosed | Wait

  // ---------- the shared object ----------

  /** `closed` is the field; `channelClosed` and `token` are the state of the notification channel. */
  datatype Queue = Queue(frames: seq<Frame>, closed: bool, channelClosed: bool, token: bool)

  const EMPTY := Queue([], false, false, false)

  function WriteOutcome(q: Queue, maxSize: nat): WriteResult {
    if q.closed then BufferClosed else if |q.frames| >= maxSize then BufferFull else Accepted
  }

  function AfterWrite(q: Queue, maxSize: nat, frame: Frame): Queue {
    if WriteOutcome(q, maxSize) == Accepted then q.(frames := q.frames + [frame], token := true) else q
  }

  function ReadOutcome(q: Queue): ReadResult {
    if q.frames != [] then Delivered(q.frames[0]) else if q.closed then ReadClosed else Wait
  }

  function AfterRead(q: Queue): Queue {
    if q.frames != [] then q.(frames := q.frames[1..]) else q
  }

  function AfterClose(q: Queue): Queue {
    q.(closed := true, channelClosed := true)
  }

  /** A pending notification outlives the frames it announced. */
  function AfterClear(q: Queue): Queue {
    q.(frames := [])
  }

  // ---------- the protocol ----------

  /** Where a goroutine stands in Read: not reading, about to take the lock, or parked at the select. */
  datatype Reader = Idle | AtCheck | AtSelect

  /** A frame that left the buffer: delivered to some reader, or thrown away by Clear. */
  datatype Removal = Removal(frame: Frame, delivered: bool)

  datatype State = State(q: Queue, readers: seq<Reader>, accepted: seq<Frame>, removed: seq<Removal>, panicked: bool)

  datatype Event =
    | Write(frame: Frame)
    | TryRead
    | Clear
    | Close
    | StartRead(r: nat)
    | Check(r: nat)        // the locked section of Read
    | Receive(r: nat)      // the select takes the notification (or finds the channel closed)
    | Cancel(r: nat)       // the select takes ctx.Done()

  function Initial(readers: nat): State {
    State(EMPTY, seq(readers, _ => Idle), [], [], false)
  }

  predicate Enabled(s: State, e: Event) {
    match e
    case StartRead(r) => r < |s.readers| && s.readers[r] == Idle
    case Check(r) => r < |s.readers| && s.readers[r] == AtCheck
    case Receive(r) => r < |s.readers| && s.readers[r] == AtSelect && (s.q.token || s.q.channelClosed)
    case Cancel(r) => r < |s.readers| && s.readers[r] == AtSelect
    case _ => true
  }

  function Move(s: State, r: nat, to: Reader): State
    requires r < |s.readers|
  {
    s.(readers := s.readers[r := to])
  }

  /** What the reader gets is logged; the queue moves on independently of it. */
  function Pop(s: State): State {
    s.(q := AfterRead(s.q), removed := s.removed + Handed(ReadOutcome(s.q)))
  }

  function Handed(r: ReadResult): seq<Removal> {
    match r
    case Delivered(frame) => [Removal(frame, true)]
    case _ => []
  }

  /** A send on a closed channel and a second close panic. */
  function Step(maxSize: nat, s: State, e: Event): State {
    if !Enabled(s, e) then s
    else
      match e
      case Write(frame) =>
        if WriteOutcome(s.q, maxSize) == Accepted
        then s.(q := AfterWrite(s.q, maxSize, frame), accepted := s.accepted + [frame],
                panicked := s.panicked || s.q.channelClosed)
        else s
      case TryRead => Pop(s)
      case Clear =>
        s.(q := AfterClear(s.q), removed := s.removed + Discarded(s.q.frames))
      case Close =>
        if s.q.closed then s else s.(q := AfterClose(s.q), panicked := s.panicked || s.q.channelClosed)
      case StartRead(r) => Move(s, r, AtCheck)
      case Check(r) => Move(Pop(s), r, if ReadOutcome(s.q) == Wait then AtSelect else Idle)
      case Receive(r) => Move(s.(q := s.q.(token := false)), r, AtCheck)
      case Cancel(r) => Move(s, r, Idle)
  }

  function Discarded(frames: seq<Frame>): seq<Removal> {
    if frames == [] then [] else [Removal(frames[0], false)] + Discarded(frames[1..])
  }

  function Run(maxSize: nat, readers: nat, events: seq<Event>): State {
    if events == [] then Initial(readers)
    else Step(maxSize, Run(maxSize, readers, events[..|events| - 1]), events[|events| - 1])
  }

  // ---------- frames are neither lost, repeated nor reordered; nothing panics ----------

  function AllFrames(removed: seq<Removal>): seq<Frame> {
    if removed == [] then [] else AllFrames(removed[..|removed| - 1]) + [removed[|removed| - 1].frame]
  }

  function DeliveredFrames(removed: seq<Removal>): seq<Frame> {
    if removed == [] then []
    else
      var last := removed[|removed| - 1];
      DeliveredFrames(removed[..|removed| - 1]) + (if last.delivered then [last.frame] else [])
  }

  ghost predicate Consistent(maxSize: nat, s: State) {
    && !s.panicked
    && s.q.channelClosed == s.q.closed
    && |s.q.frames| <= maxSize
    && s.accepted == AllFrames(s.removed) + s.q.frames
  }

  lemma {:induction false} DiscardAll(removed: seq<Removal>, frames: seq<Frame>)
    ensures AllFrames(removed + Discarded(frames)) == AllFrames(removed) + frames
    decreases |frames|
  {
    if frames == [] {
      assert removed + [] == removed;
    } else {
      var first := Removal(frames[0], false);
      Regroup(removed, [first], Discarded(frames[1..]));
      DiscardAll(removed + [first], frames[1..]);
      AllFramesSnoc(removed, first);
      Regroup(AllFrames(removed), [frames[0]], frames[1..]);
      assert [frames[0]] + frames[1..] == frames;
    }
  }

  lemma AllFramesSnoc(removed: seq<Removal>, last: Removal)
    ensures AllFrames(removed + [last]) == AllFrames(removed) + [last.frame]
  {
    assert (removed + [last])[..|removed|] == removed;
  }

  lemma PopConsistent(maxSize: nat, s: State)
    requires Consistent(maxSize, s)
    ensures Consistent(maxSize, Pop(s))
  {
    assert s.removed + [] == s.removed;
    if s.q.frames != [] {
      AllFramesSnoc(s.removed, Removal(s.q.frames[0], true));
      Regroup(AllFrames(s.removed), [s.q.frames[0]], s.q.frames[1..]);
      assert s.q.frames == [s.q.frames[0]] + s.q.frames[1..];
    }
  }

  lemma StepConsistent(maxSize: nat, s: State, e: Event)
    requires Consistent(maxSize, s)
    ensures Consistent(maxSize, Step(maxSize, s, e))
  {
    match e {
      case Write(frame) => Regroup(AllFrames(s.removed), s.q.frames, [frame]);
      case TryRead => PopConsistent(maxSize, s);
      case Check(r) => PopConsistent(maxSize, s);
      case Clear =>
        DiscardAll(s.removed, s.q.frames);
        assert s.accepted + [] == s.accepted;
      case _ =>
    }
  }

  /** In every interleaving of any number of readers and writers: no panic, never more than `maxSize` frames
      buffered, and the accepted frames are the removed ones followed by the buffered ones, in order. */
  lemma {:induction false} AlwaysConsistent(maxSize: nat, readers: nat, events: seq<Event>)
    ensures Consistent(maxSize, Run(maxSize, readers, events))
    ensures |Run(maxSize, readers, events).readers| == readers
    decreases |events|
  {
    if events != [] {
      var front := events[..|events| - 1];
      AlwaysConsistent(maxSize, readers, front);
      StepConsistent(maxSize, Run(maxSize, readers, front), events[|events| - 1]);
    }
  }

  /** Unless Clear is called, the accepted frames are exactly the delivered ones followed by the buffered ones. */
  lemma {:induction false} DeliveredInOrder(maxSize: nat, readers: nat, events: seq<Event>)
    requires Clear !in events
    ensures var s := Run(maxSize, readers, events);
            && DeliveredFrames(s.removed) == AllFrames(s.removed)
            && s.accepted == DeliveredFrames(s.removed) + s.q.frames
    decreases |events|
  {
    AlwaysConsistent(maxSize, readers, events);
    if events != [] {
      var front, e := events[..|events| - 1], events[|events| - 1];
      assert e in events;
      DeliveredInOrder(maxSize, readers, front);
      var s, t := Run(maxSize, readers, front), Run(maxSize, readers, events);
      assert t.removed == s.removed || t.removed[..|t.removed| - 1] == s.removed;
    }
  }

  // ---------- lost wakeups ----------

  ghost predicate Someone(s: State, at: Reader) {
    exists r :: 0 <= r < |s.readers| && s.readers[r] == at
  }

  /** A reader sleeps on a non-empty open buffer, with no notification pending and no other reader awake. */
  ghost predicate LostWakeup(s: State) {
    && s.q.frames != [] && !s.q.channelClosed && !s.q.token
    && Someone(s, AtSelect) && !Someone(s, AtCheck)
  }

  lemma MoveKeepsOthers(s: State, r: nat, to: Reader, at: Reader)
    requires r < |s.readers| && Someone(s, at) && s.readers[r] != at
    ensures Someone(Move(s, r, to), at)
  {
    var i :| 0 <= i < |s.readers| && s.readers[i] == at;
    assert Move(s, r, to).readers[i] == at;
  }

  lemma MoveArrives(s: State, r: nat, to: Reader)
    requires r < |s.readers|
    ensures Someone(Move(s, r, to), to)
  {
    assert Move(s, r, to).readers[r] == to;
  }

  lemma StepLosesNoWakeup(maxSize: nat, s: State, e: Event)
    requires |s.readers| <= 1 || maxSize <= 1
    requires Consistent(maxSize, s) && !LostWakeup(s)
    ensures !LostWakeup(Step(maxSize, s, e))
  {
    var t := Step(maxSize, s, e);
    if Enabled(s, e) {
      match e {
        case StartRead(r) => MoveArrives(s, r, AtCheck);
        case Receive(r) => MoveArrives(s.(q := s.q.(token := false)), r, AtCheck);
        case Check(r) =>
          // a frame is left behind only if there was a second one, and a sleeper only if there is a second reader
          assert t.q.frames != [] ==> |s.q.frames| > 1 && t.readers[r] == Idle;
        case Cancel(r) =>
          if LostWakeup(t) && Someone(s, AtCheck) {
            MoveKeepsOthers(s, r, Idle, AtCheck);
          }
        case _ =>
      }
    }
  }

  lemma {:induction false} NoLostWakeup(maxSize: nat, readers: nat, events: seq<Event>)
    requires readers <= 1 || maxSize <= 1
    ensures !LostWakeup(Run(maxSize, readers, events))
    decreases |events|
  {
    if events != [] {
      var front := events[..|events| - 1];
      AlwaysConsistent(maxSize, readers, front);
      NoLostWakeup(maxSize, readers, front);
      StepLosesNoWakeup(maxSize, Run(maxSize, readers, front), events[|events| - 1]);
    }
  }

  /** A sole reader parked while frames are buffered always has a wakeup coming, and its next two steps
      deliver the oldest frame. */
  lemma {:induction false} SoleReaderIsWoken(maxSize: nat, events: seq<Event>)
    requires var s := Run(maxSize, 1, events); s.readers == [AtSelect] && s.q.frames != []
    ensures var s := Run(maxSize, 1, events);
            && (s.q.token || s.q.channelClosed)
            && var t := Step(maxSize, Step(maxSize, s, Receive(0)), Check(0));
               && t.removed == s.removed + [Removal(s.q.frames[0], true)]
               && t.q.frames == s.q.frames[1..]
               && t.readers == [Idle]
  {
    var s := Run(maxSize, 1, events);
    NoLostWakeup(maxSize, 1, events);
    assert s.readers[0] == AtSelect;
    assert Someone(s, AtSelect) && !Someone(s, AtCheck);
  }

  // ---------- and with two readers ----------

  function Idlers(n: nat): seq<Reader> {
    seq(n, _ => Idle)
  }

  /** Two readers park, two frames arrive: the second notification finds the slot taken, and the one reader that
      is woken leaves with the first frame. */
  function LosingSchedule(a: Frame, b: Frame): seq<Event> {
    [StartRead(0), Check(0), StartRead(1), Check(1), Write(a), Write(b), Receive(0), Check(0)]
  }

  function RunFrom(maxSize: nat, s: State, events: seq<Event>): State
    decreases |events|
  {
    if events == [] then s else RunFrom(maxSize, Step(maxSize, s, events[0]), events[1..])
  }

  lemma {:induction false} RunIsRunFrom(maxSize: nat, readers: nat, done: seq<Event>, more: seq<Event>)
    ensures Run(maxSize, readers, done + more) == RunFrom(maxSize, Run(maxSize, readers, done), more)
    decreases |more|
  {
    if more == [] {
      assert done + more == done;
    } else {
      assert done + more == (done + [more[0]]) + more[1..];
      assert (done + [more[0]])[..|done|] == done;
      RunIsRunFrom(maxSize, readers, done + [more[0]], more[1..]);
    }
  }

  lemma TwoReadersPark(maxSize: nat, readers: nat)
    requires readers >= 2
    ensures RunFrom(maxSize, Initial(readers), [StartRead(0), Check(0), StartRead(1), Check(1)])
         == State(EMPTY, [AtSelect, AtSelect] + Idlers(readers - 2), [], [], false)
  {
    var s0 := Initial(readers);
    var s1 := Step(maxSize, s0, StartRead(0));
    var s2 := Step(maxSize, s1, Check(0));
    var s3 := Step(maxSize, s2, StartRead(1));
    var s4 := Step(maxSize, s3, Check(1));
    assert s4.readers == [AtSelect, AtSelect] + Idlers(readers - 2);
    Unroll4(maxSize, s0, StartRead(0), Check(0), StartRead(1), Check(1));
  }

  lemma Unroll4(maxSize: nat, s: State, e0: Event, e1: Event, e2: Event, e3: Event)
    ensures RunFrom(maxSize, s, [e0, e1, e2, e3])
         == Step(maxSize, Step(maxSize, Step(maxSize, Step(maxSize, s, e0), e1), e2), e3)
  {
    RunFromCons(maxSize, s, e0, [e1, e2, e3]);
    var s1 := Step(maxSize, s, e0);
    RunFromCons(maxSize, s1, e1, [e2, e3]);
    var s2 := Step(maxSize, s1, e1);
    RunFromCons(maxSize, s2, e2, [e3]);
    RunFromCons(maxSize, Step(maxSize, s2, e2), e3, []);
    assert [e0] + [e1, e2, e3] == [e0, e1, e2, e3] && [e1] + [e2, e3] == [e1, e2, e3];
    assert [e2] + [e3] == [e2, e3] && [e3] + [] == [e3];
  }

  lemma RunFromCons(maxSize: nat, s: State, e: Event, rest: seq<Event>)
    ensures RunFrom(maxSize, s, [e] + rest) == RunFrom(maxSize, Step(maxSize, s, e), rest)
  {
    assert ([e] + rest)[1..] == rest;
  }

  lemma OneOfTwoWakes(maxSize: nat, readers: nat, a: Frame, b: Frame)
    requires readers >= 2 && maxSize >= 2
    ensures RunFrom(maxSize, State(EMPTY, [AtSelect, AtSelect] + Idlers(readers - 2), [], [], false),
                    [Write(a), Write(b), Receive(0), Check(0)])
         == State(Queue([b], false, false, false), [Idle, AtSelect] + Idlers(readers - 2),
                  [a, b], [Removal(a, true)], false)
  {
    var s0 := State(EMPTY, [AtSelect, AtSelect] + Idlers(readers - 2), [], [], false);
    var s1 := Step(maxSize, s0, Write(a));
    assert s1.q.frames == [a] && s1.accepted == [a];
    var s2 := Step(maxSize, s1, Write(b));
    assert s2.q.frames == [a, b] && s2.accepted == [a, b];
    var s3 := Step(maxSize, s2, Receive(0));
    var s4 := Step(maxSize, s3, Check(0));
    assert s4.q.frames == [b] && s4.removed == [Removal(a, true)];
    assert s4.readers == [Idle, AtSelect] + Idlers(readers - 2);
    Unroll4(maxSize, s0, Write(a), Write(b), Receive(0), Check(0));
  }

  lemma TwoReadersLoseAWakeup(maxSize: nat, readers: nat, a: Frame, b: Frame)
    requires readers >= 2 && maxSize >= 2
    ensures LostWakeup(Run(maxSize, readers, LosingSchedule(a, b)))
  {
    var first := [StartRead(0), Check(0), StartRead(1), Check(1)];
    var second := [Write(a), Write(b), Receive(0), Check(0)];
    assert LosingSchedule(a, b) == first + second && [] + first == first;
    RunIsRunFrom(maxSize, readers, [], first);
    RunIsRunFrom(maxSize, readers, first, second);
    TwoReadersPark(maxSize, readers);
    OneOfTwoWakes(maxSize, readers, a, b);
    ParkedSecond(Run(maxSize, readers, LosingSchedule(a, b)), readers, b);
  }

  lemma ParkedSecond(s: State, readers: nat, b: Frame)
    requires readers >= 2 && s.q == Queue([b], false, false, false)
    requires s.readers == [Idle, AtSelect] + Idlers(readers - 2)
    ensures LostWakeup(s)
  {
    assert s.readers[1] == AtSelect;
  }

  /** The interleaving `events` ends in a lost wakeup. */
  ghost predicate Loses(maxSize: nat, readers: nat, events: seq<Event>) {
    LostWakeup(Run(maxSize, readers, events))
  }

  /** The one-slot channel is enough exactly for a sole reader or a one-frame buffer. */
  lemma WakeupsSafeIff(maxSize: nat, readers: nat)
    ensures (exists events :: Loses(maxSize, readers, events)) <==> readers >= 2 && maxSize >= 2
  {
    if readers >= 2 && maxSize >= 2 {
      TwoReadersLoseAWakeup(maxSize, readers, [], []);
      assert Loses(maxSize, readers, LosingSchedule([], []));
    } else {
      forall events ensures !Loses(maxSize, readers, events) {
        NoLostWakeup(maxSize, readers, events);
      }
    }
  }

  // ---------- implementation ----------

  class JitterBuffer {
    var buffer: seq<Frame>
    const maxSize: nat
    var closed: bool
    var channelClosed: bool
    var token: bool              // the notification slot is taken

    ghost function Abs(): Queue
      reads this
    {
      Queue(buffer, closed, channelClosed, token)
    }

    ghost predicate Valid()
      reads this
    {
      && maxSize > 0 && |buffer| <= maxSize
      && channelClosed == closed
    }

    constructor (maxSize: int)
      ensures Valid() && Abs() == EMPTY
      ensures this.maxSize == if maxSize <= 0 then 100 else maxSize
    {
      this.maxSize := if maxSize <= 0 then 100 else maxSize;
      buffer, closed, channelClosed, token := [], false, false, false;
    }

    method Write(frame: Frame) returns (r: WriteResult)
      requires Valid()
      modifies this
      ensures Valid() && r == WriteOutcome(old(Abs()), maxSize)
      ensures Abs() == AfterWrite(old(Abs()), maxSize, frame)
      ensures r == BufferClosed <==> old(closed)
      ensures r == BufferFull <==> !old(closed) && |old(buffer)| == maxSize
      ensures buffer == if r == Accepted then old(buffer) + [frame] else old(buffer)
      ensures token <==> r == Accepted || old(token)
      ensures closed == old(closed)
    {
      if closed {
        return BufferClosed;
      }
      if |buffer| >= maxSize {
        return BufferFull;
      }
      buffer := buffer + [frame];
      Notify();
      return Accepted;
    }

    /** The non-blocking send; it would panic on a closed channel. */
    method Notify()
      requires !channelClosed
      modifies this`token
      ensures token
    {
      if !token {
        token := true;
      }
    }

    /** The locked section of Read. */
    method ReadCheck() returns (r: ReadResult)
      requires Valid()
      modifies this`buffer
      ensures Valid() && r == ReadOutcome(old(Abs())) && Abs() == AfterRead(old(Abs()))
      ensures old(buffer) != [] ==> r == Delivered(old(buffer)[0]) && buffer == old(buffer)[1..]
      ensures old(buffer) == [] ==> buffer == [] && r == if closed then ReadClosed else Wait
    {
      if closed && |buffer| == 0 {
        return ReadClosed;
      }
      if |buffer| > 0 {
        r := Delivered(buffer[0]);
        buffer := buffer[1..];
        return;
      }
      return Wait;
    }

    method TryRead() returns (r: Option<Frame>)
      requires Valid()
      modifies this`buffer
      ensures Valid() && Abs() == AfterRead(old(Abs()))
      ensures old(buffer) == [] ==> r == None && buffer == []
      ensures old(buffer) != [] ==> r == Some(old(buffer)[0]) && buffer == old(buffer)[1..]
    {
      if |buffer| == 0 {
        return None;
      }
      r := Some(buffer[0]);
      buffer := buffer[1..];
    }

    method Peek() returns (r: Option<Frame>)
      ensures r == if buffer == [] then None else Some(buffer[0])
    {
      if |buffer| == 0 {
        return None;
      }
      return Some(buffer[0]);
    }

    method Close()
      requires Valid()
      modifies this
      ensures Valid() && Abs() == AfterClose(old(Abs()))
      ensures closed && channelClosed && buffer == old(buffer) && token == old(token)
    {
      if !closed {
        closed := true;
        CloseChannel();
      }
    }

    /** It would panic on a closed channel. */
    method CloseChannel()
      requires !channelClosed
      modifies this`channelClosed
      ensures channelClosed
    {
      channelClosed := true;
    }

    method Clear()
      requires Valid()
      modifies this`buffer
      ensures Valid() && Abs() == AfterClear(old(Abs())) && buffer == []
    {
      buffer := [];
    }
  }
}
