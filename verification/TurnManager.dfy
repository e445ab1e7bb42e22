/** The turn manager: assistant turns within a session, and what of them enters the dialogue history. */
module TurnManagement {
  import opened Arithmetic
  import opened AssistantTurns
  import opened DialogueHistory
  import opened Options
  import opened PromptAssembly

  // ---------- the transition system ----------

  datatype Op =
    | StartTurn(sampleRate: nat)
    | AppendGenerated(text: string)
    | MarkSpoken(nanos: nat)
    | AdvancePlayout(bytes: nat)
    | HandleInterruption(position: nat)
    | CommitTurn
    | Reset

  /** `start` is the index of the StartTurn operation. */
  datatype Turn = Turn(start: nat, sampleRate: nat, text: string, cursor: nat)

  /** A message that entered the history: the operations that started and committed its turn, and its text. */
  datatype Commit = Commit(start: nat, end: nat, text: string)

  datatype State = State(turn: Option<Turn>, commits: seq<Commit>)

  /** Bytes of audio an operation reports as sent. */
  function BytesOf(op: Op): nat {
    match op
    case MarkSpoken(nanos) => BytesAt16k(nanos)
    case AdvancePlayout(bytes) => bytes
    case _ => 0
  }

  function TextOf(op: Op): string {
    if op.AppendGenerated? then op.text else ""
  }

  function CursorAfter(cursor: nat, op: Op): nat {
    if op.HandleInterruption? then Interrupted(cursor, BytesAt16k(op.position)) else cursor + BytesOf(op)
  }

  function TurnStep(t: Turn, op: Op): Turn {
    t.(text := t.text + TextOf(op), cursor := CursorAfter(t.cursor, op))
  }

  /** The operation numbered `now` of a session. */
  function Step(s: State, op: Op, now: nat): State {
    if op.StartTurn? then s.(turn := Some(Turn(now, op.sampleRate, "", 0)))
    else if op.Reset? || s.turn.None? then s.(turn := None)
    else if op.CommitTurn? then State(None, s.commits + CommitOf(s.turn.value, now))
    else s.(turn := Some(TurnStep(s.turn.value, op)))
  }

  /** Committing a turn adds a message only when something was spoken. */
  function CommitOf(t: Turn, now: nat): seq<Commit> {
    var spoken := Committable(t.text, t.sampleRate, t.cursor);
    if spoken == "" then [] else [Commit(t.start, now, spoken)]
  }

  function Run(ops: seq<Op>): State {
    if ops == [] then State(None, []) else Step(Run(ops[..|ops| - 1]), ops[|ops| - 1], |ops| - 1)
  }

  // ---------- what a turn amounts to, in terms of the operations alone ----------

  function TextIn(ops: seq<Op>): string {
    if ops == [] then "" else TextIn(ops[..|ops| - 1]) + TextOf(ops[|ops| - 1])
  }

  function BytesIn(ops: seq<Op>): nat {
    if ops == [] then 0 else BytesIn(ops[..|ops| - 1]) + BytesOf(ops[|ops| - 1])
  }

  /** The operations of one turn, between its start and its commit. */
  ghost predicate OneTurn(ops: seq<Op>) {
    forall i :: 0 <= i < |ops| ==> !ops[i].StartTurn? && !ops[i].CommitTurn? && !ops[i].Reset?
  }

  /** The audio sent up to an interruption at operation `i`, as the interruption reports it, and after it. */
  function BytesFrom(ops: seq<Op>, i: nat): nat
    requires i < |ops| && ops[i].HandleInterruption?
  {
    BytesAt16k(ops[i].position) + BytesIn(ops[i..])
  }

  /** `bytes` is the least of the bytes sent in all and the bytes any of the interruptions allows for. */
  ghost predicate AudioSent(bytes: nat, ops: seq<Op>) {
    && bytes <= BytesIn(ops)
    && (forall i :: 0 <= i < |ops| && ops[i].HandleInterruption? ==> bytes <= BytesFrom(ops, i))
    && (bytes == BytesIn(ops)
        || exists i :: 0 <= i < |ops| && ops[i].HandleInterruption? && bytes == BytesFrom(ops, i))
  }

  /** The commit is the text of its turn, as far as the audio sent in that turn reaches, and not empty. */
  ghost predicate Justified(ops: seq<Op>, c: Commit) {
    && c.start < c.end < |ops|
    && ops[c.start].StartTurn? && ops[c.end].CommitTurn?
    && OneTurn(ops[c.start + 1..c.end])
    && c.text != ""
    && SpokenPart(c.text, ops[c.start].sampleRate, ops[c.start + 1..c.end])
  }

  ghost predicate SpokenPart(text: string, sampleRate: nat, window: seq<Op>) {
    exists bytes: nat :: CommitsUpTo(bytes, text, sampleRate, window)
  }

  ghost predicate CommitsUpTo(bytes: nat, text: string, sampleRate: nat, window: seq<Op>) {
    AudioSent(bytes, window) && text == Committable(TextIn(window), sampleRate, bytes)
  }

  /** Commits come in turn order, at most one per turn. */
  ghost predicate InTurnOrder(commits: seq<Commit>) {
    forall i, j :: 0 <= i < j < |commits| ==> commits[i].end < commits[j].start
  }

  ghost predicate Explained(ops: seq<Op>) {
    var s := Run(ops);
    && InTurnOrder(s.commits)
    && (forall i :: 0 <= i < |s.commits| ==> Justified(ops, s.commits[i]))
    && (s.turn.Some? ==> TurnExplained(ops, s.turn.value) && AllBefore(s.commits, s.turn.value.start))
    && AllBefore(s.commits, |ops|)
  }

  ghost predicate AllBefore(commits: seq<Commit>, start: nat) {
    forall i :: 0 <= i < |commits| ==> commits[i].end < start
  }

  ghost predicate TurnExplained(ops: seq<Op>, t: Turn) {
    && t.start < |ops| && ops[t.start] == StartTurn(t.sampleRate)
    && Holds(t, ops[t.start + 1..])
  }

  /** The turn after the operations `window` since its start. */
  ghost predicate Holds(t: Turn, window: seq<Op>) {
    OneTurn(window) && t.text == TextIn(window) && AudioSent(t.cursor, window)
  }

  lemma RunSnoc(ops: seq<Op>, op: Op)
    ensures Run(ops + [op]) == Step(Run(ops), op, |ops|)
  {
    assert (ops + [op])[..|ops|] == ops;
  }

  // ---------- every commit of every session is justified ----------

  lemma BytesFromSnoc(ops: seq<Op>, op: Op, i: nat)
    requires i < |ops| && ops[i].HandleInterruption?
    ensures (ops + [op])[i] == ops[i]
    ensures BytesFrom(ops + [op], i) == BytesFrom(ops, i) + BytesOf(op)
  {
    var tail := ops[i..];
    assert (ops + [op])[i..] == tail + [op];
    assert (tail + [op])[..|tail|] == tail;
  }

  lemma BytesFromLast(ops: seq<Op>, op: Op)
    requires op.HandleInterruption?
    ensures (ops + [op])[|ops|] == op
    ensures BytesFrom(ops + [op], |ops|) == BytesAt16k(op.position)
  {
    assert (ops + [op])[|ops|..] == [op];
    assert [op][..0] == [];
    assert BytesIn([op]) == BytesIn([]) + 0;
  }

  lemma AudioSentSnoc(bytes: nat, ops: seq<Op>, op: Op)
    requires AudioSent(bytes, ops)
    ensures AudioSent(CursorAfter(bytes, op), ops + [op])
  {
    var all, after := ops + [op], CursorAfter(bytes, op);
    assert all[..|ops|] == ops;
    assert BytesIn(all) == BytesIn(ops) + BytesOf(op);
    forall i | 0 <= i < |all| && all[i].HandleInterruption? ensures after <= BytesFrom(all, i) {
      if i < |ops| {
        BytesFromSnoc(ops, op, i);
      } else {
        BytesFromLast(ops, op);
      }
    }
    if op.HandleInterruption? && after != bytes {
      BytesFromLast(ops, op);
    } else if bytes != BytesIn(ops) {
      var i :| 0 <= i < |ops| && ops[i].HandleInterruption? && bytes == BytesFrom(ops, i);
      BytesFromSnoc(ops, op, i);
    }
  }

  lemma JustifiedLater(ops: seq<Op>, c: Commit, op: Op)
    requires Justified(ops, c)
    ensures Justified(ops + [op], c)
  {
    assert (ops + [op])[c.start + 1..c.end] == ops[c.start + 1..c.end];
  }

  lemma TurnContinues(ops: seq<Op>, t: Turn, op: Op)
    requires TurnExplained(ops, t)
    requires !op.StartTurn? && !op.CommitTurn? && !op.Reset?
    ensures TurnExplained(ops + [op], TurnStep(t, op))
  {
    WindowGrows(ops, t.start, op);
    HoldsSnoc(t, ops[t.start + 1..], op);
  }

  lemma HoldsSnoc(t: Turn, window: seq<Op>, op: Op)
    requires Holds(t, window)
    requires !op.StartTurn? && !op.CommitTurn? && !op.Reset?
    ensures Holds(TurnStep(t, op), window + [op])
  {
    TextSnoc(window, op);
    OneTurnSnoc(window, op);
    AudioSentSnoc(t.cursor, window, op);
  }

  lemma WindowGrows(ops: seq<Op>, start: nat, op: Op)
    requires start < |ops|
    ensures (ops + [op])[start] == ops[start]
    ensures (ops + [op])[start + 1..] == ops[start + 1..] + [op]
  {}

  lemma TextSnoc(window: seq<Op>, op: Op)
    ensures TextIn(window + [op]) == TextIn(window) + TextOf(op)
  {
    assert (window + [op])[..|window|] == window;
  }

  lemma OneTurnSnoc(window: seq<Op>, op: Op)
    requires OneTurn(window) && !op.StartTurn? && !op.CommitTurn? && !op.Reset?
    ensures OneTurn(window + [op])
  {}

  lemma CommitJustified(ops: seq<Op>, t: Turn)
    requires TurnExplained(ops, t)
    requires Committable(t.text, t.sampleRate, t.cursor) != ""
    ensures Justified(ops + [CommitTurn], Commit(t.start, |ops|, Committable(t.text, t.sampleRate, t.cursor)))
  {
    var all, c := ops + [CommitTurn], Commit(t.start, |ops|, Committable(t.text, t.sampleRate, t.cursor));
    assert all[c.start + 1..c.end] == ops[t.start + 1..];
    assert CommitsUpTo(t.cursor, c.text, t.sampleRate, ops[t.start + 1..]);
  }

  lemma TurnBegins(ops: seq<Op>, sampleRate: nat)
    ensures TurnExplained(ops + [StartTurn(sampleRate)], Turn(|ops|, sampleRate, "", 0))
  {
    assert (ops + [StartTurn(sampleRate)])[|ops| + 1..] == [];
  }

  /** Only spoken text is committed: in every session, each message in the history belongs to one turn, in turn
      order, and is the part of that turn's text that the audio sent in it covers. */
  lemma {:induction false} OnlySpokenTextIsCommitted(ops: seq<Op>)
    ensures Explained(ops)
    decreases |ops|
  {
    if ops != [] {
      var front, op := ops[..|ops| - 1], ops[|ops| - 1];
      assert ops == front + [op];
      OnlySpokenTextIsCommitted(front);
      CommitsStayJustified(front, op);
      var s := Run(front);
      if op.StartTurn? {
        TurnBegins(front, op.sampleRate);
      } else if s.turn.Some? && !op.CommitTurn? && !op.Reset? {
        TurnContinues(front, s.turn.value, op);
      }
    }
  }

  lemma LaterCommit(commits: seq<Commit>, c: Commit)
    requires InTurnOrder(commits) && AllBefore(commits, c.start)
    ensures InTurnOrder(commits + [c])
  {}

  lemma CommitsStayJustified(front: seq<Op>, op: Op)
    requires Explained(front)
    ensures var commits := Step(Run(front), op, |front|).commits;
            InTurnOrder(commits) && forall i :: 0 <= i < |commits| ==> Justified(front + [op], commits[i])
  {
    var s := Run(front);
    forall i | 0 <= i < |s.commits| ensures Justified(front + [op], s.commits[i]) {
      JustifiedLater(front, s.commits[i], op);
    }
    if op.CommitTurn? && s.turn.Some? && CommitOf(s.turn.value, |front|) != [] {
      CommitJustified(front, s.turn.value);
      LaterCommit(s.commits, CommitOf(s.turn.value, |front|)[0]);
    }
  }

  // ---------- and every turn's spoken text is committed ----------

  lemma AudioSentUnique(a: nat, b: nat, window: seq<Op>)
    requires AudioSent(a, window) && AudioSent(b, window)
    ensures a == b
  {}

  /** Whatever happened before, a turn that is started runs on through its own operations. */
  lemma {:induction false} TurnRunsOn(earlier: seq<Op>, sampleRate: nat, window: seq<Op>)
    requires OneTurn(window)
    ensures var s := Run(earlier + [StartTurn(sampleRate)] + window);
            && s.commits == Run(earlier).commits
            && s.turn.Some? && s.turn.value.start == |earlier| && s.turn.value.sampleRate == sampleRate
            && Holds(s.turn.value, window)
    decreases |window|
  {
    var started := earlier + [StartTurn(sampleRate)];
    if window == [] {
      assert started + [] == started;
      RunSnoc(earlier, StartTurn(sampleRate));
    } else {
      var front, op := window[..|window| - 1], window[|window| - 1];
      assert window == front + [op] && started + window == started + front + [op];
      TurnRunsOn(earlier, sampleRate, front);
      RunSnoc(started + front, op);
      HoldsSnoc(Run(started + front).turn.value, front, op);
    }
  }

  /** Committing a turn adds one message with the part of its text that its audio covers, unless that is empty, and
      keeps all earlier messages. */
  lemma SpokenTextIsCommitted(earlier: seq<Op>, sampleRate: nat, window: seq<Op>, bytes: nat, open: seq<Op>,
                              spoken: string)
    requires OneTurn(window) && AudioSent(bytes, window)
    requires open == earlier + [StartTurn(sampleRate)] + window
    requires spoken == Committable(TextIn(window), sampleRate, bytes)
    ensures Run(open + [CommitTurn]) == State(None, WithMessage(Run(earlier).commits, |earlier|, |open|, spoken))
  {
    OpenTurn(earlier, sampleRate, window, bytes);
    CommitStep(open, Run(earlier).commits, Turn(|earlier|, sampleRate, TextIn(window), bytes), spoken);
  }

  /** `commits` and, if anything was spoken, one more. */
  function WithMessage(commits: seq<Commit>, start: nat, end: nat, spoken: string): seq<Commit> {
    if spoken == "" then commits else commits + [Commit(start, end, spoken)]
  }

  lemma OpenTurn(earlier: seq<Op>, sampleRate: nat, window: seq<Op>, bytes: nat)
    requires OneTurn(window) && AudioSent(bytes, window)
    ensures Run(earlier + [StartTurn(sampleRate)] + window)
         == State(Some(Turn(|earlier|, sampleRate, TextIn(window), bytes)), Run(earlier).commits)
  {
    TurnRunsOn(earlier, sampleRate, window);
    AudioSentUnique(bytes, Run(earlier + [StartTurn(sampleRate)] + window).turn.value.cursor, window);
  }

  lemma CommitStep(open: seq<Op>, commits: seq<Commit>, t: Turn, spoken: string)
    requires Run(open) == State(Some(t), commits)
    requires spoken == Committable(t.text, t.sampleRate, t.cursor)
    ensures Run(open + [CommitTurn]) == State(None, WithMessage(commits, t.start, |open|, spoken))
  {
    RunSnoc(open, CommitTurn);
    assert commits + [] == commits;
  }

  /** No operation takes a message back, and only CommitTurn adds one. */
  lemma CommitsOnlyGrow(ops: seq<Op>, op: Op)
    ensures Run(ops).commits <= Run(ops + [op]).commits
    ensures !op.CommitTurn? ==> Run(ops + [op]).commits == Run(ops).commits
  {
    RunSnoc(ops, op);
  }

  // ---------- consequences ----------

  lemma PartBounds(text: string, sampleRate: nat, window: seq<Op>)
    requires SpokenPart(text, sampleRate, window)
    ensures text <= TextIn(window) && |text| <= Chars(sampleRate, BytesIn(window))
    ensures forall i :: 0 <= i < |window| && window[i].HandleInterruption? ==>
              |text| <= Chars(sampleRate, BytesFrom(window, i))
  {
    var bytes: nat :| CommitsUpTo(bytes, text, sampleRate, window);
    CharsMonotone(sampleRate, bytes, BytesIn(window));
    forall i | 0 <= i < |window| && window[i].HandleInterruption?
      ensures |text| <= Chars(sampleRate, BytesFrom(window, i))
    {
      CharsMonotone(sampleRate, bytes, BytesFrom(window, i));
    }
  }

  /** A committed message is a prefix of its turn's text, no longer than all the audio reported in the turn allows,
      and no longer than what any interruption of the turn, plus the audio after it, allows. */
  lemma CommitsNeverRunAhead(ops: seq<Op>, c: Commit)
    requires c in Run(ops).commits
    ensures c.start < c.end < |ops| && ops[c.start].StartTurn?
    ensures var window, rate := ops[c.start + 1..c.end], ops[c.start].sampleRate;
            && c.text <= TextIn(window)
            && |c.text| <= Chars(rate, BytesIn(window))
            && forall i :: 0 <= i < |window| && window[i].HandleInterruption? ==>
                 |c.text| <= Chars(rate, BytesFrom(window, i))
  {
    OnlySpokenTextIsCommitted(ops);
    assert Justified(ops, c);
    PartBounds(c.text, ops[c.start].sampleRate, ops[c.start + 1..c.end]);
  }

  // ---------- commits against the time reported to have been heard ----------

  function NanosIn(ops: seq<Op>): nat {
    if ops == [] then 0
    else NanosIn(ops[..|ops| - 1]) + (if ops[|ops| - 1].MarkSpoken? then ops[|ops| - 1].nanos else 0)
  }

  function SentIn(ops: seq<Op>): nat {
    if ops == [] then 0
    else SentIn(ops[..|ops| - 1]) + (if ops[|ops| - 1].AdvancePlayout? then ops[|ops| - 1].bytes else 0)
  }

  ghost predicate CommitOfRate(ops: seq<Op>, c: Commit, sampleRate: nat) {
    c in Run(ops).commits && c.start < c.end < |ops| && ops[c.start] == StartTurn(sampleRate)
  }

  /** The commit holds no more text than was heard in the durations reported and the bytes sent in its turn. */
  ghost predicate WithinReports(ops: seq<Op>, c: Commit, sampleRate: nat)
    requires c.start < c.end < |ops|
  {
    var window := ops[c.start + 1..c.end];
    |c.text| <= CharsHeard(sampleRate, NanosIn(window), SentIn(window))
  }

  /** And no more than was heard up to the position of any interruption of the turn, and after it. */
  ghost predicate WithinInterruptions(ops: seq<Op>, c: Commit, sampleRate: nat)
    requires c.start < c.end < |ops|
  {
    var window := ops[c.start + 1..c.end];
    forall i :: 0 <= i < |window| && window[i].HandleInterruption? ==>
      |c.text| <= CharsHeard(sampleRate, window[i].position + NanosIn(window[i..]), SentIn(window[i..]))
  }

  lemma HeardSum(sampleRate: nat, m: nat, a: nat, n: nat, b: nat)
    ensures HeardAmount(sampleRate, m + n, a + b) == HeardAmount(sampleRate, m, a) + HeardAmount(sampleRate, n, b)
  {
    Distribute(m, n, 2 * sampleRate);
  }

  lemma {:induction false} BytesWithinHeard(ops: seq<Op>, sampleRate: nat)
    requires sampleRate >= MANAGER_RATE
    ensures BytesIn(ops) * NANOS <= HeardAmount(sampleRate, NanosIn(ops), SentIn(ops))
    decreases |ops|
  {
    if ops != [] {
      var front, op := ops[..|ops| - 1], ops[|ops| - 1];
      BytesWithinHeard(front, sampleRate);
      var nanos := if op.MarkSpoken? then op.nanos else 0;
      var bytes := if op.AdvancePlayout? then op.bytes else 0;
      HeardSum(sampleRate, NanosIn(front), SentIn(front), nanos, bytes);
      ConvertedWithinReported(sampleRate, nanos);
    }
  }

  lemma BytesFromWithinHeard(window: seq<Op>, i: nat, sampleRate: nat)
    requires sampleRate >= MANAGER_RATE && i < |window| && window[i].HandleInterruption?
    ensures BytesFrom(window, i) * NANOS
         <= HeardAmount(sampleRate, window[i].position + NanosIn(window[i..]), SentIn(window[i..]))
  {
    BytesWithinHeard(window[i..], sampleRate);
    ConvertedWithinReported(sampleRate, window[i].position);
    HeardSum(sampleRate, window[i].position, 0, NanosIn(window[i..]), SentIn(window[i..]));
  }

  lemma ReportsBind(ops: seq<Op>, c: Commit, sampleRate: nat)
    requires CommitOfRate(ops, c, sampleRate)
    requires sampleRate == 0 || sampleRate >= MANAGER_RATE
    ensures WithinReports(ops, c, sampleRate)
  {
    CommitsNeverRunAhead(ops, c);
    var window := ops[c.start + 1..c.end];
    if sampleRate > 0 {
      BytesWithinHeard(window, sampleRate);
      CursorWithinHeard(sampleRate, BytesIn(window), NanosIn(window), SentIn(window));
    }
  }

  lemma InterruptionBinds(ops: seq<Op>, c: Commit, sampleRate: nat, window: seq<Op>, i: nat)
    requires CommitOfRate(ops, c, sampleRate) && window == ops[c.start + 1..c.end]
    requires sampleRate == 0 || sampleRate >= MANAGER_RATE
    requires i < |window| && window[i].HandleInterruption?
    ensures |c.text| <= CharsHeard(sampleRate, window[i].position + NanosIn(window[i..]), SentIn(window[i..]))
  {
    CommitsNeverRunAhead(ops, c);
    var nanos, bytes := window[i].position + NanosIn(window[i..]), SentIn(window[i..]);
    if sampleRate > 0 {
      BytesFromWithinHeard(window, i, sampleRate);
      CursorWithinHeard(sampleRate, BytesFrom(window, i), nanos, bytes);
    }
  }

  /** From 16 kHz on, no session commits text beyond what was reported as heard. */
  lemma CommitsWithinHeard(ops: seq<Op>, c: Commit, sampleRate: nat)
    requires CommitOfRate(ops, c, sampleRate)
    requires sampleRate == 0 || sampleRate >= MANAGER_RATE
    ensures WithinReports(ops, c, sampleRate) && WithinInterruptions(ops, c, sampleRate)
  {
    ReportsBind(ops, c, sampleRate);
    var window := ops[c.start + 1..c.end];
    forall i | 0 <= i < |window| && window[i].HandleInterruption?
      ensures |c.text| <= CharsHeard(sampleRate, window[i].position + NanosIn(window[i..]), SentIn(window[i..]))
    {
      InterruptionBinds(ops, c, sampleRate, window, i);
    }
  }

  lemma TurnWithText(sampleRate: nat, text: string) returns (ops: seq<Op>)
    ensures ops == [StartTurn(sampleRate), AppendGenerated(text)]
    ensures Run(ops) == State(Some(Turn(0, sampleRate, text, 0)), [])
  {
    var o0, o1 := StartTurn(sampleRate), AppendGenerated(text);
    ops := [o0] + [o1];
    RunSnoc([], o0);
    RunSnoc([o0], o1);
    assert [] + [o0] == [o0] && "" + text == text;
  }

  /** A session of one turn: its text, one report of audio, and the commit. */
  lemma SpokenTurn(sampleRate: nat, text: string, nanos: nat)
    returns (ops: seq<Op>, c: Commit)
    requires Chars(sampleRate, BytesAt16k(nanos)) > 0 && text != ""
    ensures ops == [StartTurn(sampleRate), AppendGenerated(text), MarkSpoken(nanos), CommitTurn]
    ensures c == Commit(0, 3, Prefix(text, Chars(sampleRate, BytesAt16k(nanos))))
    ensures Run(ops).commits == [c] && CommitOfRate(ops, c, sampleRate)
    ensures NanosIn(ops[1..3]) == nanos && SentIn(ops[1..3]) == 0
  {
    var o1, o2 := AppendGenerated(text), MarkSpoken(nanos);
    var two := TurnWithText(sampleRate, text);
    ops := two + [o2] + [CommitTurn];
    c := Commit(0, 3, Prefix(text, Chars(sampleRate, BytesAt16k(nanos))));
    RunSnoc(two, o2);
    assert text + "" == text;
    assert Run(two + [o2]).turn == Some(Turn(0, sampleRate, text, BytesAt16k(nanos)));
    RunSnoc(two + [o2], CommitTurn);
    OnlyReport(o1, o2);
    assert ops[1..3] == [o1, o2];
  }

  lemma OnlyReport(o1: Op, o2: Op)
    requires o1.AppendGenerated? && o2.MarkSpoken?
    ensures NanosIn([o1, o2]) == o2.nanos && SentIn([o1, o2]) == 0
  {
    assert [o1, o2][..1] == [o1] && [o1][..0] == [];
    assert NanosIn([o1]) == 0 && SentIn([o1]) == 0;
  }

  /** Likewise with all the audio sent as bytes and then interrupted at a position. */
  lemma InterruptedTurn(sampleRate: nat, text: string, position: nat)
    returns (ops: seq<Op>, c: Commit)
    requires Chars(sampleRate, BytesAt16k(position)) > 0 && text != ""
    ensures ops == [StartTurn(sampleRate), AppendGenerated(text), AdvancePlayout(BytesAt16k(position)),
                    HandleInterruption(position), CommitTurn]
    ensures c == Commit(0, 4, Prefix(text, Chars(sampleRate, BytesAt16k(position))))
    ensures Run(ops).commits == [c] && CommitOfRate(ops, c, sampleRate)
    ensures ops[1..4][2] == HandleInterruption(position)
    ensures NanosIn(ops[1..4][2..]) == 0 && SentIn(ops[1..4][2..]) == 0
  {
    var bytes := BytesAt16k(position);
    var o1, o2, o3 := AppendGenerated(text), AdvancePlayout(bytes), HandleInterruption(position);
    var three := AdvancedTurn(sampleRate, text, bytes);
    ops := three + [o3] + [CommitTurn];
    c := Commit(0, 4, Prefix(text, Chars(sampleRate, bytes)));
    RunSnoc(three, o3);
    assert text + "" == text;
    assert Run(three + [o3]).turn == Some(Turn(0, sampleRate, text, bytes));
    RunSnoc(three + [o3], CommitTurn);
    assert ops[1..4] == [o1, o2, o3];
    OnlyInterruption(o1, o2, o3);
  }

  lemma AdvancedTurn(sampleRate: nat, text: string, bytes: nat) returns (ops: seq<Op>)
    ensures ops == [StartTurn(sampleRate), AppendGenerated(text), AdvancePlayout(bytes)]
    ensures Run(ops) == State(Some(Turn(0, sampleRate, text, bytes)), [])
  {
    var two := TurnWithText(sampleRate, text);
    ops := two + [AdvancePlayout(bytes)];
    RunSnoc(two, AdvancePlayout(bytes));
    assert text + "" == text;
  }

  lemma OnlyInterruption(o1: Op, o2: Op, o3: Op)
    requires o3.HandleInterruption?
    ensures [o1, o2, o3][2..] == [o3] && NanosIn([o3]) == 0 && SentIn([o3]) == 0
  {
    assert [o3][..0] == [];
  }

  /** At 8 kHz, one second reported as heard commits 30 characters; 15 were heard. */
  lemma HalfOfItUnheard(text: string)
    requires |text| == 30
    ensures var ops := [StartTurn(8000), AppendGenerated(text), MarkSpoken(NANOS), CommitTurn];
            && Run(ops).commits == [Commit(0, 3, text)]
            && CharsIn(NANOS) == 15
  {
    assert BytesAt16k(NANOS) == 32000 && Duration(8000, 32000) == 2 * NANOS;
    var ops, c := SpokenTurn(8000, text, NANOS);
  }

  ghost predicate ReportsBindAt(sampleRate: nat) {
    forall ops, c :: CommitOfRate(ops, c, sampleRate) ==> WithinReports(ops, c, sampleRate)
  }

  ghost predicate InterruptionsBindAt(sampleRate: nat) {
    forall ops, c :: CommitOfRate(ops, c, sampleRate) ==> WithinInterruptions(ops, c, sampleRate)
  }

  lemma SlowTurnsOutrunReports(sampleRate: nat)
    requires 0 < sampleRate < MANAGER_RATE
    ensures !ReportsBindAt(sampleRate) && !InterruptionsBindAt(sampleRate)
  {
    var nanos := 2000 * NANOS;
    SlowerRateInventsText(sampleRate);
    HeardInTime(sampleRate, nanos);
    var text := seq(Chars(sampleRate, BytesAt16k(nanos)), _ => 'a');
    var spoken, c := SpokenTurn(sampleRate, text, nanos);
    assert CommitOfRate(spoken, c, sampleRate) && !WithinReports(spoken, c, sampleRate);
    var interrupted, d := InterruptedTurn(sampleRate, text, nanos);
    assert CommitOfRate(interrupted, d, sampleRate) && !WithinInterruptions(interrupted, d, sampleRate) by {
      assert interrupted[1..4][2].HandleInterruption?;
    }
  }

  /** Only text reported as heard is committed exactly for turns of 16 kHz and above: below, reported durations and
      interruption positions are counted as more audio than they are. */
  lemma OnlyHeardTextIff(sampleRate: nat)
    ensures ReportsBindAt(sampleRate) <==> sampleRate == 0 || sampleRate >= MANAGER_RATE
    ensures InterruptionsBindAt(sampleRate) <==> sampleRate == 0 || sampleRate >= MANAGER_RATE
  {
    if 0 < sampleRate < MANAGER_RATE {
      SlowTurnsOutrunReports(sampleRate);
    } else {
      forall ops, c | CommitOfRate(ops, c, sampleRate)
        ensures WithinReports(ops, c, sampleRate) && WithinInterruptions(ops, c, sampleRate)
      {
        CommitsWithinHeard(ops, c, sampleRate);
      }
    }
  }

  // ---------- text outside turns ----------

  /** Text appended while no turn is open - after a commit, before the next start - might as well have been empty:
      it reaches no message, then or later. */
  lemma {:induction false} StrayTextIsDropped(ops: seq<Op>, stray: string, later: seq<Op>)
    requires Run(ops).turn == None
    ensures Run(ops + [AppendGenerated(stray)] + later) == Run(ops + [AppendGenerated("")] + later)
    decreases |later|
  {
    var a, b := ops + [AppendGenerated(stray)], ops + [AppendGenerated("")];
    if later == [] {
      assert a + later == a && b + later == b;
      assert a[..|ops|] == ops && b[..|ops|] == ops;
    } else {
      var front := later[..|later| - 1];
      assert (a + later)[..|a + later| - 1] == a + front;
      assert (b + later)[..|b + later| - 1] == b + front;
      StrayTextIsDropped(ops, stray, front);
    }
  }

  /** The messages that commits put into the history. */
  function Messages(commits: seq<Commit>): (r: seq<Message>)
    ensures |r| == |commits|
  {
    seq(|commits|, i requires 0 <= i < |commits| => Message(Assistant, commits[i].text))
  }

  lemma MessagesGrow(commits: seq<Commit>, t: Turn, now: nat)
    ensures var spoken := Committable(t.text, t.sampleRate, t.cursor);
            Messages(commits + CommitOf(t, now))
              == if spoken == "" then Messages(commits) else Messages(commits) + [Message(Assistant, spoken)]
  {
    assert commits + [] == commits;
  }

  // ---------- implementation ----------

  class TurnManager {
    var currentTurn: AssistantTurn?
    const history: ConversationHistory?

    ghost var ops: seq<Op>              // the operations since construction
    ghost var start: nat                // of the current turn
    ghost var appended: seq<Message>    // what this manager has appended to the history

    ghost function TurnView(): Option<Turn>
      reads this, currentTurn
    {
      if currentTurn == null then None
      else Some(Turn(start, currentTurn.sampleRate, currentTurn.generatedText, currentTurn.playoutCursor))
    }

    ghost predicate Valid()
      reads this, currentTurn, history
    {
      && TurnView() == Run(ops).turn
      && (history != null ==> history.Valid() && appended == Messages(Run(ops).commits))
    }

    constructor (history: ConversationHistory?)
      requires history != null ==> history.Valid()
      ensures Valid() && this.history == history && ops == [] && appended == [] && currentTurn == null
    {
      this.history := history;
      currentTurn, ops, start, appended := null, [], 0, [];
    }

    ghost method Record(op: Op)
      modifies this`ops
      ensures ops == old(ops) + [op] && Run(ops) == Step(Run(old(ops)), op, |old(ops)|)
    {
      assert (ops + [op])[..|ops|] == ops;
      ops := ops + [op];
    }

    method StartNewTurn(sampleRate: nat) returns (turn: AssistantTurn)
      requires Valid()
      modifies this
      ensures Valid() && ops == old(ops) + [StartTurn(sampleRate)]
      ensures turn == currentTurn && fresh(turn)
    {
      start := |ops|;
      Record(StartTurn(sampleRate));
      currentTurn := new AssistantTurn(sampleRate);
      turn := currentTurn;
    }

    method Append(text: string)
      requires Valid()
      modifies this`ops, currentTurn
      ensures Valid() && ops == old(ops) + [AppendGenerated(text)]
    {
      Record(AppendGenerated(text));
      if currentTurn != null {
        currentTurn.AppendGeneratedText(text);
      }
    }

    /** Queueing for synthesis has no effect on what is committed. */
    method MarkQueued(text: string)
      requires Valid()
      modifies currentTurn
      ensures Valid()
      ensures currentTurn != null ==> currentTurn.queuedForTTSText == old(currentTurn.queuedForTTSText) + text
    {
      if currentTurn != null {
        currentTurn.QueueForTTS(text);
      }
    }

    method Spoken(nanos: nat)
      requires Valid()
      modifies this`ops, currentTurn
      ensures Valid() && ops == old(ops) + [MarkSpoken(nanos)]
      ensures currentTurn != null ==>
                currentTurn.playoutCursor == old(currentTurn.playoutCursor) + nanos * 16000 / 1_000_000_000 * 2
    {
      Record(MarkSpoken(nanos));
      assert currentTurn != null ==> currentTurn.generatedText + "" == currentTurn.generatedText;
      if currentTurn == null {
        return;
      }
      var samples := nanos * MANAGER_RATE / NANOS;
      var bytes := samples * BYTES_PER_SAMPLE;
      currentTurn.AdvancePlayout(bytes);
    }

    method Advance(bytes: nat)
      requires Valid()
      modifies this`ops, currentTurn
      ensures Valid() && ops == old(ops) + [AdvancePlayout(bytes)]
      ensures currentTurn != null ==> currentTurn.playoutCursor == old(currentTurn.playoutCursor) + bytes
    {
      Record(AdvancePlayout(bytes));
      assert currentTurn != null ==> currentTurn.generatedText + "" == currentTurn.generatedText;
      if currentTurn != null {
        currentTurn.AdvancePlayout(bytes);
      }
    }

    method Interrupt(position: nat)
      requires Valid()
      modifies this`ops, currentTurn
      ensures Valid() && ops == old(ops) + [HandleInterruption(position)]
      ensures currentTurn != null ==> currentTurn.interrupted
      ensures currentTurn != null ==>
                currentTurn.playoutCursor
                == Interrupted(old(currentTurn.playoutCursor), position * 16000 / 1_000_000_000 * 2)
    {
      Record(HandleInterruption(position));
      assert currentTurn != null ==> currentTurn.generatedText + "" == currentTurn.generatedText;
      if currentTurn == null {
        return;
      }
      var samples := position * MANAGER_RATE / NANOS;
      var bytes := samples * BYTES_PER_SAMPLE;
      currentTurn.MarkInterrupted(bytes);
    }

    /** Appends to the history exactly the commit, if any, that this operation adds to the session: over a whole
        session, the messages appended are the commits (by Valid). */
    method Commit() returns (message: Option<Message>)
      requires Valid()
      modifies this, history
      ensures Valid() && ops == old(ops) + [CommitTurn] && currentTurn == null
      ensures message.None? <==> old(currentTurn) == null
      ensures message.Some? ==> message.value.role == Assistant
      ensures var commits := Run(old(ops)).commits;
              if message == None || message.value.content == "" then Run(ops).commits == commits
              else && |Run(ops).commits| == |commits| + 1 && commits <= Run(ops).commits
                   && Run(ops).commits[|commits|].text == message.value.content
      ensures history != null ==>
                && old(appended) <= appended
                && history.log == old(history.log) + appended[|old(appended)|..]
    {
      Record(CommitTurn);
      if currentTurn == null {
        return None;
      }
      var spokenText := currentTurn.GetCommittableText();
      MessagesGrow(Run(old(ops)).commits, TurnView().value, |old(ops)|);
      if spokenText != "" && history != null {
        history.AppendAssistantMessage(spokenText);
        appended := appended + [Message(Assistant, spokenText)];
      }
      currentTurn := null;
      return Some(Message(Assistant, spokenText));
    }

    method GetCurrentPosition() returns (nanos: nat)
      requires Valid()
      ensures nanos == if currentTurn == null then 0
                       else Duration(currentTurn.sampleRate, currentTurn.playoutCursor)
    {
      if currentTurn == null {
        return 0;
      }
      nanos := currentTurn.CurrentPosition();
    }

    method ResetTurn()
      requires Valid()
      modifies this
      ensures Valid() && ops == old(ops) + [Reset] && currentTurn == null
    {
      Record(Reset);
      currentTurn := null;
    }
  }
}
