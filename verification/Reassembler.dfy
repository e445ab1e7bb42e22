/** Reordering of numbered chunks into a stream: the `Reassembler`, with its uint32 sequence numbers. */
module Reassembly {
  import opened Seqs

  const SEQ_LIMIT := 0x1_0000_0000

  type Seqno = x: int | 0 <= x < SEQ_LIMIT

  const LAST_SEQNO: Seqno := SEQ_LIMIT - 1

  datatype Chunk = Chunk(seqno: Seqno, data: Bytes)

  // ---------- the transition system ----------

  /** `delivered` lists the emitted chunks; the callback itself receives only their data. */
  datatype State = State(expected: Seqno, buffer: map<Seqno, Bytes>, delivered: seq<Chunk>)

  const INITIAL := State(0, map[], [])

  /** uint32 increment, with its wrap-around. */
  function Next(s: Seqno): Seqno {
    if s == LAST_SEQNO then 0 else s + 1
  }

  function Deliver(s: State, data: Bytes): State {
    s.(expected := Next(s.expected), delivered := s.delivered + [Chunk(s.expected, data)])
  }

  function Drain(s: State): State
    decreases s.buffer.Keys
  {
    if s.expected !in s.buffer then s
    else Drain(Deliver(s, s.buffer[s.expected]).(buffer := s.buffer - {s.expected}))
  }

  /** Giving up on the expected chunk: nothing is emitted for it. */
  function Skip(s: State): State {
    s.(expected := Next(s.expected), buffer := s.buffer - {s.expected})
  }

  function Store(s: State, c: Chunk): State {
    s.(buffer := s.buffer[c.seqno := c.data])
  }

  function Arrive(capacity: nat, s: State, c: Chunk): State {
    if c.seqno == s.expected then Drain(Deliver(s, c.data))
    else if c.seqno < s.expected then s
    else if |s.buffer| >= capacity then Store(Skip(s), c)
    else Store(s, c)
  }

  function Run(capacity: nat, arrivals: seq<Chunk>): State {
    if arrivals == [] then INITIAL
    else Arrive(capacity, Run(capacity, arrivals[..|arrivals| - 1]), arrivals[|arrivals| - 1])
  }

  // ---------- what in-order delivery means, in terms of the arrivals alone ----------

  function Numbers(arrivals: seq<Chunk>): set<Seqno> {
    set c | c in arrivals :: c.seqno
  }

  /** The chunk contents are determined by the sequence number (retransmissions repeat them). */
  ghost predicate Carries(arrivals: seq<Chunk>, payload: Seqno -> Bytes) {
    forall c :: c in arrivals ==> c.data == payload(c.seqno)
  }

  /** `numbers` is lo, lo+1, ..., hi-1. */
  ghost predicate Exactly(numbers: set<Seqno>, lo: nat, hi: nat) {
    forall k: Seqno :: k in numbers <==> lo <= k < hi
  }

  /** Chunks first, first+1, ..., first+count-1, in order. */
  function Burst(payload: Seqno -> Bytes, first: nat, count: nat): (r: seq<Chunk>)
    requires first + count <= SEQ_LIMIT
    ensures |r| == count
  {
    if count == 0 then []
    else
      var last := first + count - 1;
      Burst(payload, first, count - 1) + [Chunk(last, payload(last))]
  }

  /** The original stream, up to but excluding chunk `n`. */
  function Stream(payload: Seqno -> Bytes, n: nat): seq<Chunk>
    requires n <= SEQ_LIMIT
  {
    Burst(payload, 0, n)
  }

  ghost predicate LeastMissing(m: Seqno, numbers: set<Seqno>) {
    m !in numbers && forall k: Seqno :: k < m ==> k in numbers
  }

  function From(numbers: set<Seqno>, m: nat): set<Seqno> {
    set k | k in numbers && k >= m
  }

  ghost predicate Holds(buffer: map<Seqno, Bytes>, numbers: set<Seqno>, payload: Seqno -> Bytes) {
    && buffer.Keys == numbers
    && forall k :: k in buffer ==> buffer[k] == payload(k)
  }

  /** Everything up to the first gap has been delivered once, in order; everything behind it is buffered. */
  ghost predicate InOrder(s: State, numbers: set<Seqno>, payload: Seqno -> Bytes) {
    && LeastMissing(s.expected, numbers)
    && s.delivered == Stream(payload, s.expected)
    && Holds(s.buffer, From(numbers, s.expected + 1), payload)
  }

  /** No arrival behind the first gap finds `capacity` other numbers already waiting there. */
  ghost predicate NoOverflow(capacity: nat, arrivals: seq<Chunk>) {
    arrivals == [] ||
    var front, c := arrivals[..|arrivals| - 1], arrivals[|arrivals| - 1];
    NoOverflow(capacity, front) && RoomFor(capacity, Numbers(front), c.seqno)
  }

  ghost predicate RoomFor(capacity: nat, before: set<Seqno>, seqno: Seqno) {
    forall m: Seqno :: LeastMissing(m, before) && m < seqno ==> |From(before, m + 1)| < capacity
  }

  // ---------- lemmas about arrivals ----------

  lemma NumbersSnoc(arrivals: seq<Chunk>)
    requires arrivals != []
    ensures Numbers(arrivals) == Numbers(arrivals[..|arrivals| - 1]) + {arrivals[|arrivals| - 1].seqno}
  {
    var k := |arrivals| - 1;
    assert arrivals == arrivals[..k] + [arrivals[k]];
  }

  lemma LeastMissingUnique(m: Seqno, n: Seqno, numbers: set<Seqno>)
    requires LeastMissing(m, numbers) && LeastMissing(n, numbers)
    ensures m == n
  {}

  // ---------- in-order delivery ----------

  /** Draining from a gapless prefix delivers exactly up to the first gap. */
  lemma {:induction false} DrainToFirstGap(s: State, numbers: set<Seqno>, payload: Seqno -> Bytes, missing: Seqno)
    requires missing !in numbers
    requires forall k: Seqno :: k < s.expected ==> k in numbers
    requires s.delivered == Stream(payload, s.expected)
    requires Holds(s.buffer, From(numbers, s.expected), payload)
    ensures InOrder(Drain(s), numbers, payload)
    decreases s.buffer.Keys
  {
    if s.expected in s.buffer {
      var next := Deliver(s, s.buffer[s.expected]).(buffer := s.buffer - {s.expected});
      StreamSnoc(payload, s.expected, missing);
      assert next.buffer.Keys == From(numbers, next.expected);
      DrainToFirstGap(next, numbers, payload, missing);
    } else {
      assert s.expected !in numbers;
      assert From(numbers, s.expected) == From(numbers, s.expected + 1);
    }
  }

  lemma StreamSnoc(payload: Seqno -> Bytes, n: Seqno, missing: Seqno)
    requires n < missing
    ensures Next(n) == n + 1
    ensures Stream(payload, n + 1) == Stream(payload, n) + [Chunk(n, payload(n))]
  {}

  lemma ArriveInTurn(s: State, numbers: set<Seqno>, c: Chunk, payload: Seqno -> Bytes, missing: Seqno)
    requires InOrder(s, numbers, payload)
    requires c.seqno == s.expected && c.data == payload(c.seqno)
    requires missing !in numbers + {c.seqno}
    ensures InOrder(Drain(Deliver(s, c.data)), numbers + {c.seqno}, payload)
  {
    assert s.expected < missing;
    StreamSnoc(payload, s.expected, missing);
    assert From(numbers + {c.seqno}, s.expected + 1) == From(numbers, s.expected + 1);
    DrainToFirstGap(Deliver(s, c.data), numbers + {c.seqno}, payload, missing);
  }

  lemma ArriveAhead(capacity: nat, s: State, numbers: set<Seqno>, c: Chunk, payload: Seqno -> Bytes)
    requires InOrder(s, numbers, payload)
    requires c.seqno > s.expected && c.data == payload(c.seqno)
    requires RoomFor(capacity, numbers, c.seqno)
    ensures |s.buffer| < capacity
    ensures InOrder(Store(s, c), numbers + {c.seqno}, payload)
  {
    BufferSize(s, numbers, payload);
    FromAdd(numbers, c.seqno, s.expected + 1);
    assert Store(s, c).buffer.Keys == s.buffer.Keys + {c.seqno};
    assert LeastMissing(s.expected, numbers + {c.seqno});
  }

  lemma FromAdd(numbers: set<Seqno>, k: Seqno, m: nat)
    requires k >= m
    ensures From(numbers + {k}, m) == From(numbers, m) + {k}
  {}

  lemma ArriveKeepsOrder(capacity: nat, s: State, numbers: set<Seqno>, c: Chunk,
                         payload: Seqno -> Bytes, missing: Seqno)
    requires InOrder(s, numbers, payload)
    requires c.data == payload(c.seqno)
    requires missing !in numbers + {c.seqno}
    requires RoomFor(capacity, numbers, c.seqno)
    ensures InOrder(Arrive(capacity, s, c), numbers + {c.seqno}, payload)
    ensures |s.buffer| <= capacity ==> |Arrive(capacity, s, c).buffer| <= capacity
  {
    if c.seqno == s.expected {
      ArriveInTurn(s, numbers, c, payload, missing);
      DrainShrinks(Deliver(s, c.data));
    } else if c.seqno < s.expected {
      assert numbers + {c.seqno} == numbers;
    } else {
      ArriveAhead(capacity, s, numbers, c, payload);
    }
  }

  lemma BufferSize(s: State, numbers: set<Seqno>, payload: Seqno -> Bytes)
    requires InOrder(s, numbers, payload)
    ensures |s.buffer| == |From(numbers, s.expected + 1)|
  {
    assert |s.buffer.Keys| == |s.buffer|;
  }

  /** Whatever the order and however often chunks are repeated: without overflow the stream comes out in order. */
  lemma {:induction false} DeliversInOrder(capacity: nat, arrivals: seq<Chunk>, payload: Seqno -> Bytes, missing: Seqno)
    requires Carries(arrivals, payload)
    requires missing !in Numbers(arrivals)
    requires NoOverflow(capacity, arrivals)
    ensures InOrder(Run(capacity, arrivals), Numbers(arrivals), payload)
    ensures |Run(capacity, arrivals).buffer| <= capacity
    decreases |arrivals|
  {
    if arrivals != [] {
      var k := |arrivals| - 1;
      var front, c := arrivals[..k], arrivals[k];
      NumbersSnoc(arrivals);
      DeliversInOrder(capacity, front, payload, missing);
      ArriveKeepsOrder(capacity, Run(capacity, front), Numbers(front), c, payload, missing);
    }
  }

  lemma {:induction false} DrainShrinks(s: State)
    ensures |Drain(s).buffer| <= |s.buffer|
    decreases s.buffer.Keys
  {
    if s.expected in s.buffer {
      var smaller := s.buffer - {s.expected};
      assert smaller.Keys == s.buffer.Keys - {s.expected};
      assert |smaller.Keys| == |smaller| && |s.buffer.Keys| == |s.buffer|;
      DrainShrinks(Deliver(s, s.buffer[s.expected]).(buffer := smaller));
    }
  }

  // ---------- with overflow ----------

  /** Number 2^32-1 has not been delivered, so that `expected` has not wrapped to 0. */
  ghost predicate NoWrap(s: State) {
    forall i :: 0 <= i < |s.delivered| ==> s.delivered[i].seqno != LAST_SEQNO
  }

  /** Nothing has been delivered after number 2^32-1. */
  ghost predicate NothingAfterLast(s: State) {
    forall i :: 0 <= i < |s.delivered| - 1 ==> s.delivered[i].seqno != LAST_SEQNO
  }

  ghost predicate Ascending(s: State) {
    forall i, j :: 0 <= i < j < |s.delivered| ==> s.delivered[i].seqno < s.delivered[j].seqno
  }

  ghost predicate Orderly(s: State) {
    && (NoWrap(s) ==> |s.delivered| <= s.expected
                      && forall i :: 0 <= i < |s.delivered| ==> s.delivered[i].seqno < s.expected)
    && (NothingAfterLast(s) ==> Ascending(s))
  }

  /** Everything delivered or buffered has arrived, with these contents. */
  ghost predicate Authentic(s: State, arrivals: seq<Chunk>) {
    && (forall c :: c in s.delivered ==> c in arrivals)
    && (forall k :: k in s.buffer ==> Chunk(k, s.buffer[k]) in arrivals)
  }

  ghost predicate Delivered(s: State, k: Seqno) {
    exists i :: 0 <= i < |s.delivered| && s.delivered[i].seqno == k
  }

  /** How many sequence numbers have been passed over without a delivery. */
  function Lag(s: State): int {
    s.expected - |s.delivered|
  }

  /** From `s` on, nothing below `s.expected` is delivered any more. */
  ghost predicate Onward(s: State, t: State) {
    && s.delivered <= t.delivered
    && (NoWrap(t) ==> s.expected <= t.expected)
    && (NoWrap(t) ==> forall i :: |s.delivered| <= i < |t.delivered| ==> t.delivered[i].seqno >= s.expected)
  }

  lemma OnwardTransitive(s: State, t: State, u: State)
    requires Onward(s, t) && Onward(t, u)
    ensures Onward(s, u)
    ensures NoWrap(u) ==> NoWrap(t)
  {
    assert forall i :: 0 <= i < |t.delivered| ==> t.delivered[i] == u.delivered[i];
  }

  lemma DeliverOrderly(s: State, data: Bytes)
    requires Orderly(s)
    ensures Orderly(Deliver(s, data)) && Onward(s, Deliver(s, data))
    ensures NoWrap(Deliver(s, data)) ==> Lag(Deliver(s, data)) == Lag(s)
  {
    var t := Deliver(s, data);
    assert t.delivered[|s.delivered|].seqno == s.expected;
    assert forall i :: 0 <= i < |s.delivered| ==> s.delivered[i] == t.delivered[i];
  }

  lemma {:induction false} DrainOrderly(s: State)
    requires Orderly(s)
    ensures Orderly(Drain(s)) && Onward(s, Drain(s))
    ensures NoWrap(Drain(s)) ==> Lag(Drain(s)) == Lag(s)
    decreases s.buffer.Keys
  {
    if s.expected in s.buffer {
      var t := Deliver(s, s.buffer[s.expected]);
      var next := t.(buffer := s.buffer - {s.expected});
      DeliverOrderly(s, s.buffer[s.expected]);
      assert Orderly(next) && Onward(s, next);
      DrainOrderly(next);
      OnwardTransitive(s, next, Drain(next));
    }
  }

  ghost predicate Overflows(capacity: nat, s: State, c: Chunk) {
    c.seqno > s.expected && |s.buffer| >= capacity
  }

  lemma ArriveOrderly(capacity: nat, s: State, c: Chunk)
    requires Orderly(s)
    ensures Orderly(Arrive(capacity, s, c)) && Onward(s, Arrive(capacity, s, c))
    ensures NoWrap(Arrive(capacity, s, c)) ==>
              Lag(Arrive(capacity, s, c)) == Lag(s) + (if Overflows(capacity, s, c) then 1 else 0)
  {
    if c.seqno == s.expected {
      DeliverOrderly(s, c.data);
      DrainOrderly(Deliver(s, c.data));
      OnwardTransitive(s, Deliver(s, c.data), Drain(Deliver(s, c.data)));
    }
  }

  lemma {:induction false} DrainAuthentic(s: State, arrivals: seq<Chunk>)
    requires Authentic(s, arrivals)
    ensures Authentic(Drain(s), arrivals)
    decreases s.buffer.Keys
  {
    if s.expected in s.buffer {
      DrainAuthentic(Deliver(s, s.buffer[s.expected]).(buffer := s.buffer - {s.expected}), arrivals);
    }
  }

  lemma ArriveAuthentic(capacity: nat, s: State, c: Chunk, arrivals: seq<Chunk>)
    requires Authentic(s, arrivals)
    ensures Authentic(Arrive(capacity, s, c), arrivals + [c])
  {
    assert Authentic(s, arrivals + [c]);
    if c.seqno == s.expected {
      DrainAuthentic(Deliver(s, c.data), arrivals + [c]);
    }
  }

  lemma {:induction false} RunOrderly(capacity: nat, arrivals: seq<Chunk>)
    ensures Orderly(Run(capacity, arrivals)) && Authentic(Run(capacity, arrivals), arrivals)
    decreases |arrivals|
  {
    if arrivals != [] {
      var front, c := arrivals[..|arrivals| - 1], arrivals[|arrivals| - 1];
      RunOrderly(capacity, front);
      ArriveOrderly(capacity, Run(capacity, front), c);
      ArriveAuthentic(capacity, Run(capacity, front), c, front);
      assert arrivals == front + [c];
    }
  }

  /** Ordering survives overflow: every delivery is an arrival, and the deliveries ascend strictly exactly as long
      as none follows number 2^32-1. */
  lemma NeverOutOfOrder(capacity: nat, arrivals: seq<Chunk>)
    ensures Authentic(Run(capacity, arrivals), arrivals)
    ensures Ascending(Run(capacity, arrivals)) <==> NothingAfterLast(Run(capacity, arrivals))
  {
    RunOrderly(capacity, arrivals);
    var s := Run(capacity, arrivals);
    if Ascending(s) {
      forall i | 0 <= i < |s.delivered| - 1 ensures s.delivered[i].seqno != LAST_SEQNO {
        assert s.delivered[i].seqno < s.delivered[i + 1].seqno;
      }
    }
  }

  /** The step from all arrivals but the last to all of them. */
  lemma LastStep(capacity: nat, arrivals: seq<Chunk>) returns (front: seq<Chunk>, c: Chunk)
    requires arrivals != []
    ensures front == arrivals[..|arrivals| - 1] && c == arrivals[|arrivals| - 1] && arrivals == front + [c]
    ensures Run(capacity, arrivals) == Arrive(capacity, Run(capacity, front), c)
    ensures Orderly(Run(capacity, front)) && Authentic(Run(capacity, front), front)
    ensures Onward(Run(capacity, front), Run(capacity, arrivals))
    ensures NoWrap(Run(capacity, arrivals)) ==> NoWrap(Run(capacity, front))
    ensures NoWrap(Run(capacity, arrivals)) ==>
              Lag(Run(capacity, arrivals)) == Lag(Run(capacity, front))
                                              + (if Overflows(capacity, Run(capacity, front), c) then 1 else 0)
  {
    front, c := arrivals[..|arrivals| - 1], arrivals[|arrivals| - 1];
    var s := Run(capacity, front);
    RunOrderly(capacity, front);
    ArriveOrderly(capacity, s, c);
    OnwardTransitive(s, s, s);
    OnwardTransitive(s, s, Arrive(capacity, s, c));
  }

  /** One overflow is never made good: from then on fewer chunks are delivered than numbers passed over. */
  lemma {:induction false} OverflowLosesForGood(capacity: nat, arrivals: seq<Chunk>, payload: Seqno -> Bytes)
    requires Carries(arrivals, payload)
    requires NoWrap(Run(capacity, arrivals))
    requires !NoOverflow(capacity, arrivals)
    ensures |Run(capacity, arrivals).delivered| < Run(capacity, arrivals).expected
    decreases |arrivals|
  {
    var front, c := LastStep(capacity, arrivals);
    if NoOverflow(capacity, front) {
      var m: Seqno :| LeastMissing(m, Numbers(front)) && m < c.seqno && |From(Numbers(front), m + 1)| >= capacity;
      OverflowSeen(capacity, front, payload, m);
    } else {
      OverflowLosesForGood(capacity, front, payload);
    }
  }

  /** Before the first overflow, the overflowing state shows in the arrivals. */
  lemma OverflowSeen(capacity: nat, front: seq<Chunk>, payload: Seqno -> Bytes, m: Seqno)
    requires Carries(front, payload) && NoOverflow(capacity, front) && LeastMissing(m, Numbers(front))
    ensures Run(capacity, front).expected == m
    ensures |Run(capacity, front).buffer| == |From(Numbers(front), m + 1)|
    ensures Run(capacity, front).buffer.Keys == From(Numbers(front), m + 1)
    ensures |Run(capacity, front).delivered| == m
  {
    DeliversInOrder(capacity, front, payload, m);
    LeastMissingUnique(m, Run(capacity, front).expected, Numbers(front));
    BufferSize(Run(capacity, front), Numbers(front), payload);
  }

  lemma {:induction false} StreamNumbers(payload: Seqno -> Bytes, n: nat, i: nat)
    requires i < n <= SEQ_LIMIT
    ensures Stream(payload, n)[i].seqno == i
    decreases n
  {
    if i < n - 1 {
      StreamNumbers(payload, n - 1, i);
    }
  }

  /** With some number not yet arrived, in-order delivery holds exactly when no arrival overflows the buffer. */
  lemma InOrderIffNoOverflow(capacity: nat, arrivals: seq<Chunk>, payload: Seqno -> Bytes, missing: Seqno)
    requires Carries(arrivals, payload)
    requires missing !in Numbers(arrivals)
    ensures InOrder(Run(capacity, arrivals), Numbers(arrivals), payload) <==> NoOverflow(capacity, arrivals)
  {
    var s := Run(capacity, arrivals);
    if NoOverflow(capacity, arrivals) {
      DeliversInOrder(capacity, arrivals, payload, missing);
    } else if InOrder(s, Numbers(arrivals), payload) {
      forall i | 0 <= i < |s.delivered| ensures s.delivered[i].seqno != LAST_SEQNO {
        StreamNumbers(payload, s.expected, i);
      }
      OverflowLosesForGood(capacity, arrivals, payload);
    }
  }

  // ---------- when the capacity is a bound ----------

  /** After every arrival at most `capacity` chunks are buffered. */
  ghost predicate WithinCapacity(capacity: nat, arrivals: seq<Chunk>) {
    && |Run(capacity, arrivals).buffer| <= capacity
    && (arrivals == [] || WithinCapacity(capacity, arrivals[..|arrivals| - 1]))
  }

  /** The arrival of a new chunk finds the buffer full, and skipping the expected number frees nothing. */
  ghost predicate Overfills(capacity: nat, s: State, c: Chunk) {
    Overflows(capacity, s, c) && s.expected !in s.buffer && c.seqno !in s.buffer
  }

  ghost predicate NeverOverfills(capacity: nat, arrivals: seq<Chunk>) {
    arrivals == [] ||
    var front, c := arrivals[..|arrivals| - 1], arrivals[|arrivals| - 1];
    NeverOverfills(capacity, front) && !Overfills(capacity, Run(capacity, front), c)
  }

  lemma StoreSize(s: State, c: Chunk)
    ensures |Store(s, c).buffer| == |s.buffer| + if c.seqno in s.buffer then 0 else 1
  {}

  lemma SkipSize(s: State)
    ensures |Skip(s).buffer| == |s.buffer| - if s.expected in s.buffer then 1 else 0
  {
    var rest := s.buffer - {s.expected};
    assert rest.Keys == s.buffer.Keys - {s.expected};
    assert |rest.Keys| == |rest| && |s.buffer.Keys| == |s.buffer|;
  }

  lemma OverfillsExactly(capacity: nat, s: State, c: Chunk)
    requires |s.buffer| <= capacity
    ensures |Arrive(capacity, s, c).buffer| <= capacity <==> !Overfills(capacity, s, c)
  {
    if c.seqno == s.expected {
      DrainShrinks(Deliver(s, c.data));
    } else if c.seqno > s.expected {
      SkipSize(s);
      StoreSize(s, c);
      StoreSize(Skip(s), c);
      assert c.seqno in Skip(s).buffer <==> c.seqno in s.buffer;
    }
  }

  /** The capacity bounds the buffer exactly as long as no arrival overfills it. */
  lemma {:induction false} WithinCapacityIff(capacity: nat, arrivals: seq<Chunk>)
    ensures WithinCapacity(capacity, arrivals) <==> NeverOverfills(capacity, arrivals)
    decreases |arrivals|
  {
    if arrivals != [] {
      var front, c := arrivals[..|arrivals| - 1], arrivals[|arrivals| - 1];
      WithinCapacityIff(capacity, front);
      if WithinCapacity(capacity, front) {
        OverfillsExactly(capacity, Run(capacity, front), c);
      }
    }
  }

  ghost predicate Distinct(arrivals: seq<Chunk>) {
    forall i, j :: 0 <= i < j < |arrivals| ==> arrivals[i].seqno != arrivals[j].seqno
  }

  /** Without retransmissions, it bounds the buffer exactly when there is no overflow at all. */
  lemma {:induction false} DistinctWithinCapacityIff(capacity: nat, arrivals: seq<Chunk>, payload: Seqno -> Bytes,
                                                     missing: Seqno)
    requires Carries(arrivals, payload) && Distinct(arrivals)
    requires missing !in Numbers(arrivals)
    ensures WithinCapacity(capacity, arrivals) <==> NoOverflow(capacity, arrivals)
    decreases |arrivals|
  {
    if arrivals != [] {
      var front, c := LastStep(capacity, arrivals);
      NumbersSnoc(arrivals);
      DistinctWithinCapacityIff(capacity, front, payload, missing);
      if NoOverflow(capacity, arrivals) {
        DeliversInOrder(capacity, arrivals, payload, missing);
      } else if NoOverflow(capacity, front) {
        NewNumber(arrivals);
        FirstOverflowOverfills(capacity, front, c, payload);
        if WithinCapacity(capacity, front) {
          OverfillsExactly(capacity, Run(capacity, front), c);
        }
      }
    }
  }

  lemma FirstOverflowOverfills(capacity: nat, front: seq<Chunk>, c: Chunk, payload: Seqno -> Bytes)
    requires Carries(front, payload) && NoOverflow(capacity, front)
    requires c.seqno !in Numbers(front) && !RoomFor(capacity, Numbers(front), c.seqno)
    ensures Overfills(capacity, Run(capacity, front), c)
  {
    var m: Seqno :| LeastMissing(m, Numbers(front)) && m < c.seqno && |From(Numbers(front), m + 1)| >= capacity;
    OverflowSeen(capacity, front, payload, m);
  }

  lemma NewNumber(arrivals: seq<Chunk>)
    requires arrivals != [] && Distinct(arrivals)
    ensures arrivals[|arrivals| - 1].seqno !in Numbers(arrivals[..|arrivals| - 1])
  {}

  // ---------- when a received chunk is lost ----------

  /** Every number of `numbers` has been delivered or still waits for its turn. */
  ghost predicate Accounted(s: State, numbers: set<Seqno>) {
    forall k :: k in numbers ==> Delivered(s, k) || (k in s.buffer && k >= s.expected)
  }

  /** After every arrival, each chunk received so far has been delivered or still waits for its turn. */
  ghost predicate AlwaysAccounted(capacity: nat, arrivals: seq<Chunk>) {
    && Accounted(Run(capacity, arrivals), Numbers(arrivals))
    && (arrivals == [] || AlwaysAccounted(capacity, arrivals[..|arrivals| - 1]))
  }

  /** An overflow that skips a buffered chunk, or the late arrival of a number passed over. */
  ghost predicate Wastes(capacity: nat, s: State, c: Chunk) {
    || (Overflows(capacity, s, c) && s.expected in s.buffer)
    || (c.seqno < s.expected && !Delivered(s, c.seqno))
  }

  ghost predicate NothingWasted(capacity: nat, arrivals: seq<Chunk>) {
    arrivals == [] ||
    var front, c := arrivals[..|arrivals| - 1], arrivals[|arrivals| - 1];
    NothingWasted(capacity, front) && !Wastes(capacity, Run(capacity, front), c)
  }

  lemma DeliverAccounts(s: State, data: Bytes, numbers: set<Seqno>)
    requires s.expected != LAST_SEQNO
    requires Accounted(s, numbers)
    ensures Accounted(Deliver(s, data), numbers + {s.expected})
    ensures Accounted(Deliver(s, data).(buffer := s.buffer - {s.expected}), numbers + {s.expected})
  {
    var t := Deliver(s, data);
    assert t.delivered[|s.delivered|].seqno == s.expected;
    forall k | k in numbers && Delivered(s, k) ensures Delivered(t, k) {
      var i :| 0 <= i < |s.delivered| && s.delivered[i].seqno == k;
      assert t.delivered[i].seqno == k;
    }
  }

  lemma {:induction false} DrainAccounts(s: State, numbers: set<Seqno>)
    requires Orderly(s) && Accounted(s, numbers) && NoWrap(Drain(s))
    ensures Accounted(Drain(s), numbers)
    decreases s.buffer.Keys
  {
    if s.expected in s.buffer {
      var data := s.buffer[s.expected];
      var next := Deliver(s, data).(buffer := s.buffer - {s.expected});
      DeliverOrderly(s, data);
      DrainOrderly(next);
      assert next.delivered[|s.delivered|].seqno == s.expected;
      assert Drain(s).delivered[|s.delivered|] == next.delivered[|s.delivered|];
      DeliverAccounts(s, data, numbers);
      DrainAccounts(next, numbers);
    }
  }

  lemma ArriveAccounts(capacity: nat, s: State, c: Chunk, numbers: set<Seqno>)
    requires Orderly(s) && s.buffer.Keys <= numbers && Accounted(s, numbers)
    requires NoWrap(s) && NoWrap(Arrive(capacity, s, c))
    ensures Accounted(Arrive(capacity, s, c), numbers + {c.seqno}) <==> !Wastes(capacity, s, c)
  {
    if c.seqno == s.expected {
      var t := Deliver(s, c.data);
      DeliverOrderly(s, c.data);
      DrainOrderly(t);
      assert t.delivered[|s.delivered|].seqno == s.expected;
      assert Drain(t).delivered[|s.delivered|] == t.delivered[|s.delivered|];
      DeliverAccounts(s, c.data, numbers);
      DrainAccounts(t, numbers + {c.seqno});
    } else if c.seqno > s.expected {
      StoreAccounts(capacity, s, c, numbers);
    }
  }

  lemma StoreAccounts(capacity: nat, s: State, c: Chunk, numbers: set<Seqno>)
    requires Orderly(s) && s.buffer.Keys <= numbers && Accounted(s, numbers) && NoWrap(s)
    requires c.seqno > s.expected
    ensures Accounted(Arrive(capacity, s, c), numbers + {c.seqno}) <==> !Wastes(capacity, s, c)
  {
    if Overflows(capacity, s, c) {
      if s.expected in s.buffer {
        SkipLosesBuffered(s, c, numbers);
      } else {
        StoreKeepsAccount(s, Skip(s), c, numbers);
      }
    } else {
      StoreKeepsAccount(s, s, c, numbers);
    }
  }

  lemma SkipLosesBuffered(s: State, c: Chunk, numbers: set<Seqno>)
    requires Orderly(s) && NoWrap(s) && s.buffer.Keys <= numbers
    requires c.seqno > s.expected && s.expected in s.buffer
    ensures !Accounted(Store(Skip(s), c), numbers + {c.seqno})
  {
    var t := Store(Skip(s), c);
    assert s.expected in numbers + {c.seqno} && s.expected !in t.buffer;
    assert !Delivered(t, s.expected);
  }

  /** Storing a chunk accounts for it, even when a number that is not buffered has just been skipped. */
  lemma StoreKeepsAccount(s: State, base: State, c: Chunk, numbers: set<Seqno>)
    requires Accounted(s, numbers) && c.seqno > s.expected
    requires base == s || (base == Skip(s) && s.expected !in s.buffer)
    ensures Accounted(Store(base, c), numbers + {c.seqno})
  {
    var t := Store(base, c);
    forall k | k in numbers + {c.seqno} ensures Delivered(t, k) || (k in t.buffer && k >= t.expected) {
      SameDelivered(s, t, k);
    }
  }

  lemma SameDelivered(s: State, t: State, k: Seqno)
    requires s.delivered == t.delivered
    ensures Delivered(s, k) <==> Delivered(t, k)
  {}

  /** Every received chunk is delivered or waits for its turn, exactly as long as no overflow skips a buffered
      chunk and no chunk arrives after its number has been passed over. */
  lemma {:induction false} AlwaysAccountedIff(capacity: nat, arrivals: seq<Chunk>)
    requires NoWrap(Run(capacity, arrivals))
    ensures AlwaysAccounted(capacity, arrivals) <==> NothingWasted(capacity, arrivals)
    decreases |arrivals|
  {
    if arrivals != [] {
      var front, c := LastStep(capacity, arrivals);
      AlwaysAccountedIff(capacity, front);
      NumbersSnoc(arrivals);
      var s := Run(capacity, front);
      if AlwaysAccounted(capacity, front) {
        forall k | k in s.buffer ensures k in Numbers(front) {
          assert Chunk(k, s.buffer[k]) in front;
        }
        ArriveAccounts(capacity, s, c, Numbers(front));
      }
    }
  }

  /** A number passed over undelivered is never delivered, whatever arrives later. */
  lemma {:induction false} PassedOverForever(capacity: nat, arrivals: seq<Chunk>, later: seq<Chunk>, k: Seqno)
    requires k < Run(capacity, arrivals).expected && !Delivered(Run(capacity, arrivals), k)
    requires NoWrap(Run(capacity, arrivals + later))
    ensures k < Run(capacity, arrivals + later).expected && !Delivered(Run(capacity, arrivals + later), k)
    decreases |later|
  {
    if later == [] {
      assert arrivals + later == arrivals;
    } else {
      var front, c := LastStep(capacity, arrivals + later);
      assert front == arrivals + later[..|later| - 1];
      PassedOverForever(capacity, arrivals, later[..|later| - 1], k);
      var s, t := Run(capacity, front), Run(capacity, arrivals + later);
      assert forall i :: 0 <= i < |s.delivered| ==> t.delivered[i] == s.delivered[i];
    }
  }

  lemma RunSnoc(capacity: nat, arrivals: seq<Chunk>, c: Chunk)
    ensures Run(capacity, arrivals + [c]) == Arrive(capacity, Run(capacity, arrivals), c)
  {
    assert (arrivals + [c])[..|arrivals|] == arrivals;
  }

  /** With room for one chunk, the arrivals 1, 2, 3: chunk 1 has been received, and it is passed over and gone. */
  lemma ReceivedAndLost(a: Bytes, b: Bytes, c: Bytes)
    ensures var s := Run(1, [Chunk(1, a), Chunk(2, b), Chunk(3, c)]);
            s == State(2, map[2 := b, 3 := c], [])
  {
    var c1, c2, c3 := Chunk(1, a), Chunk(2, b), Chunk(3, c);
    RunSnoc(1, [], c1);
    RunSnoc(1, [c1], c2);
    RunSnoc(1, [c1, c2], c3);
    assert [] + [c1] == [c1] && [c1] + [c2] == [c1, c2] && [c1, c2] + [c3] == [c1, c2, c3];
    LosingSteps(a, b, c);
  }

  lemma LosingSteps(a: Bytes, b: Bytes, c: Bytes)
    ensures Arrive(1, INITIAL, Chunk(1, a)) == State(0, map[1 := a], [])
    ensures Arrive(1, State(0, map[1 := a], []), Chunk(2, b)) == State(1, map[1 := a, 2 := b], [])
    ensures Arrive(1, State(1, map[1 := a, 2 := b], []), Chunk(3, c)) == State(2, map[2 := b, 3 := c], [])
  {
    assert Skip(State(0, map[1 := a], [])).buffer == map[1 := a];
    assert Skip(State(1, map[1 := a, 2 := b], [])).buffer == map[2 := b];
  }

  // ---------- chunks that are buffered for good ----------

  /** Nothing is buffered below the expected number, where it would never be looked up again. */
  ghost predicate Fresh(s: State) {
    forall k :: k in s.buffer ==> k >= s.expected
  }

  ghost predicate AlwaysFresh(capacity: nat, arrivals: seq<Chunk>) {
    && Fresh(Run(capacity, arrivals))
    && (arrivals == [] || AlwaysFresh(capacity, arrivals[..|arrivals| - 1]))
  }

  /** The expected chunk arrives although it is already buffered: the buffered copy stays behind. */
  ghost predicate Duplicates(s: State, c: Chunk) {
    c.seqno == s.expected && s.expected in s.buffer
  }

  ghost predicate NoDuplicate(capacity: nat, arrivals: seq<Chunk>) {
    arrivals == [] ||
    var front, c := arrivals[..|arrivals| - 1], arrivals[|arrivals| - 1];
    NoDuplicate(capacity, front) && !Duplicates(Run(capacity, front), c)
  }

  lemma {:induction false} DrainFresh(s: State)
    requires Orderly(s) && Fresh(s) && NoWrap(Drain(s))
    ensures Fresh(Drain(s))
    decreases s.buffer.Keys
  {
    if s.expected in s.buffer {
      var next := Deliver(s, s.buffer[s.expected]).(buffer := s.buffer - {s.expected});
      DeliveredNext(s, next);
      DrainFresh(next);
    }
  }

  /** A delivery that is not followed by a wrap-around moves on to the next number. */
  lemma DeliveredNext(s: State, next: State)
    requires Orderly(s) && s.expected in s.buffer && NoWrap(Drain(next))
    requires next == Deliver(s, s.buffer[s.expected]).(buffer := s.buffer - {s.expected})
    ensures Orderly(next) && next.expected == s.expected + 1
  {
    DeliverOrderly(s, s.buffer[s.expected]);
    DrainOrderly(next);
    assert Drain(next).delivered[|s.delivered|] == next.delivered[|s.delivered|] == Chunk(s.expected, s.buffer[s.expected]);
  }

  lemma {:induction false} DrainKeeps(s: State, k: Seqno)
    requires Orderly(s) && NoWrap(Drain(s)) && k in s.buffer && k < s.expected
    ensures k in Drain(s).buffer && k < Drain(s).expected
    decreases s.buffer.Keys
  {
    if s.expected in s.buffer {
      var next := Deliver(s, s.buffer[s.expected]).(buffer := s.buffer - {s.expected});
      DeliveredNext(s, next);
      DrainKeeps(next, k);
    }
  }

  lemma InTurnNext(capacity: nat, s: State, c: Chunk)
    requires Orderly(s) && c.seqno == s.expected && NoWrap(Arrive(capacity, s, c))
    ensures Orderly(Deliver(s, c.data)) && Deliver(s, c.data).expected == s.expected + 1
  {
    var t := Deliver(s, c.data);
    DeliverOrderly(s, c.data);
    DrainOrderly(t);
    assert Drain(t).delivered[|s.delivered|] == t.delivered[|s.delivered|] == Chunk(s.expected, c.data);
  }

  lemma ArriveKeepsStale(capacity: nat, s: State, c: Chunk, k: Seqno)
    requires Orderly(s) && NoWrap(s) && NoWrap(Arrive(capacity, s, c)) && k in s.buffer && k < s.expected
    ensures k in Arrive(capacity, s, c).buffer && k < Arrive(capacity, s, c).expected
  {
    if c.seqno == s.expected {
      InTurnNext(capacity, s, c);
      DrainKeeps(Deliver(s, c.data), k);
    }
  }

  lemma ArriveFreshIff(capacity: nat, s: State, c: Chunk)
    requires Orderly(s) && NoWrap(s) && NoWrap(Arrive(capacity, s, c)) && Fresh(s)
    ensures Fresh(Arrive(capacity, s, c)) <==> !Duplicates(s, c)
  {
    if c.seqno == s.expected {
      InTurnNext(capacity, s, c);
      if s.expected in s.buffer {
        DrainKeeps(Deliver(s, c.data), s.expected);
      } else {
        DrainFresh(Deliver(s, c.data));
      }
    }
  }

  /** Every buffered chunk waits for its turn exactly as long as no chunk arrives in turn that is buffered already. */
  lemma {:induction false} AlwaysFreshIff(capacity: nat, arrivals: seq<Chunk>)
    requires NoWrap(Run(capacity, arrivals))
    ensures AlwaysFresh(capacity, arrivals) <==> NoDuplicate(capacity, arrivals)
    decreases |arrivals|
  {
    if arrivals != [] {
      var front, c := LastStep(capacity, arrivals);
      AlwaysFreshIff(capacity, front);
      if AlwaysFresh(capacity, front) {
        ArriveFreshIff(capacity, Run(capacity, front), c);
      }
    }
  }

  /** A chunk buffered below the expected number keeps its place in the buffer, whatever arrives later. */
  lemma {:induction false} StaleForever(capacity: nat, arrivals: seq<Chunk>, later: seq<Chunk>, k: Seqno)
    requires k in Run(capacity, arrivals).buffer && k < Run(capacity, arrivals).expected
    requires NoWrap(Run(capacity, arrivals + later))
    ensures k in Run(capacity, arrivals + later).buffer && k < Run(capacity, arrivals + later).expected
    decreases |later|
  {
    if later == [] {
      assert arrivals + later == arrivals;
    } else {
      var front, c := LastStep(capacity, arrivals + later);
      assert front == arrivals + later[..|later| - 1];
      StaleForever(capacity, arrivals, later[..|later| - 1], k);
      ArriveKeepsStale(capacity, Run(capacity, front), c, k);
    }
  }

  /** With room for one chunk, the arrivals 1, 2, 3 and 2 again: the place is taken for good, and every chunk ahead of
      its turn overflows from now on. */
  lemma RoomTakenForGood(a: Bytes, b: Bytes, c: Bytes, later: seq<Chunk>, next: Chunk)
    requires var s := Run(1, [Chunk(1, a), Chunk(2, b), Chunk(3, c), Chunk(2, b)] + later);
             NoWrap(s) && next.seqno > s.expected
    ensures Overflows(1, Run(1, [Chunk(1, a), Chunk(2, b), Chunk(3, c), Chunk(2, b)] + later), next)
  {
    var three, c2 := [Chunk(1, a), Chunk(2, b), Chunk(3, c)], Chunk(2, b);
    var four := [Chunk(1, a), Chunk(2, b), Chunk(3, c), Chunk(2, b)];
    assert four == three + [c2];
    ReceivedAndLost(a, b, c);
    RunSnoc(1, three, c2);
    DuplicateStep(b, c);
    StaleForever(1, four, later, 2);
    assert Run(1, four + later).buffer != map[];
  }

  lemma DuplicateStep(b: Bytes, c: Bytes)
    ensures Arrive(1, State(2, map[2 := b, 3 := c], []), Chunk(2, b)) == State(4, map[2 := b], [Chunk(2, b), Chunk(3, c)])
  {
    var s := Deliver(State(2, map[2 := b, 3 := c], []), b);
    var t := Deliver(s, c).(buffer := s.buffer - {3});
    assert s == State(3, map[2 := b, 3 := c], [Chunk(2, b)]);
    assert t == State(4, map[2 := b], [Chunk(2, b), Chunk(3, c)]);
    assert Drain(s) == Drain(t) == t;
  }

  // ---------- what an arrival does, in any state ----------

  /** The number `i` places after `first`, modulo 2^32. */
  function Nth(first: Seqno, i: nat): Seqno {
    (first + i) % 0x1_0000_0000
  }

  /** `t` is `s` after delivering the `n` buffered chunks from `s.expected` on, all there are without a gap. */
  ghost predicate Releases(s: State, t: State, n: nat) {
    && (forall i :: 0 <= i < n ==> Nth(s.expected, i) in s.buffer)
    && |t.delivered| == |s.delivered| + n && s.delivered <= t.delivered
    && (forall i :: 0 <= i < n ==>
          t.delivered[|s.delivered| + i] == Chunk(Nth(s.expected, i), s.buffer[Nth(s.expected, i)]))
    && t.expected == Nth(s.expected, n) && t.expected !in t.buffer
    && t.buffer == s.buffer - Span(s.expected, n)
  }

  /** The `n` numbers from `first` on. */
  function Span(first: Seqno, n: nat): set<Seqno>
    decreases n
  {
    if n == 0 then {} else {first} + Span(Next(first), n - 1)
  }

  lemma NthNext(first: Seqno, i: nat)
    ensures Nth(first, 0) == first && Nth(Next(first), i) == Nth(first, i + 1)
  {}

  lemma {:induction false} DrainReleases(s: State) returns (n: nat)
    ensures Releases(s, Drain(s), n)
    decreases s.buffer.Keys
  {
    if s.expected !in s.buffer {
      n := 0;
      assert Span(s.expected, 0) == {};
    } else {
      var next := Deliver(s, s.buffer[s.expected]).(buffer := s.buffer - {s.expected});
      var m := DrainReleases(next);
      n := m + 1;
      ReleasesOneMore(s, next, Drain(s), m);
    }
  }

  lemma ReleasesOneMore(s: State, next: State, t: State, m: nat)
    requires s.expected in s.buffer && Releases(next, t, m)
    requires next == Deliver(s, s.buffer[s.expected]).(buffer := s.buffer - {s.expected})
    ensures Releases(s, t, m + 1)
  {
    NthNext(s.expected, m);
    assert Span(s.expected, m + 1) == {s.expected} + Span(next.expected, m);
    assert t.delivered[|s.delivered|] == next.delivered[|s.delivered|];
    forall i | 0 <= i < m + 1
      ensures Nth(s.expected, i) in s.buffer
      ensures t.delivered[|s.delivered| + i] == Chunk(Nth(s.expected, i), s.buffer[Nth(s.expected, i)])
    {
      if i > 0 {
        var j := i - 1;
        NthNext(s.expected, j);
        assert t.delivered[|next.delivered| + j] == Chunk(Nth(next.expected, j), next.buffer[Nth(next.expected, j)]);
      }
    }
  }

  /** In any state, overflowed or not, the expected chunk is delivered at once and releases every chunk buffered
      behind it up to the next gap. */
  lemma InTurnReleases(capacity: nat, s: State, c: Chunk) returns (n: nat)
    requires c.seqno == s.expected
    ensures Releases(Deliver(s, c.data), Arrive(capacity, s, c), n)
  {
    n := DrainReleases(Deliver(s, c.data));
  }

  /** An old chunk is ignored; one ahead of its turn is buffered, and a full buffer gives up the expected number for
      it. Neither delivers anything. */
  lemma OutOfTurnWaits(capacity: nat, s: State, c: Chunk)
    requires c.seqno != s.expected
    ensures var t := Arrive(capacity, s, c);
            && t.delivered == s.delivered
            && (c.seqno < s.expected ==> t == s)
            && (c.seqno > s.expected ==>
                  Stored(capacity, s.expected, s.buffer, c, t.expected, t.buffer))
  {}

  /** Chunk `c` has been added to `buffer`; a full buffer has given up the expected number for it. */
  ghost predicate Stored(capacity: nat, expected: Seqno, buffer: map<Seqno, Bytes>, c: Chunk,
                         expectedNow: Seqno, bufferNow: map<Seqno, Bytes>) {
    if |buffer| < capacity then expectedNow == expected && bufferNow == buffer[c.seqno := c.data]
    else expectedNow == (expected + 1) % 0x1_0000_0000 && bufferNow == (buffer - {expected})[c.seqno := c.data]
  }

  // ---------- permutations and retransmissions ----------

  lemma {:induction false} ExactlySize(numbers: set<Seqno>, lo: nat, hi: nat)
    requires lo <= hi <= SEQ_LIMIT && Exactly(numbers, lo, hi)
    ensures |numbers| == hi - lo
    decreases hi
  {
    if lo < hi {
      var last: Seqno := hi - 1;
      assert last in numbers;
      ExactlySize(numbers - {last}, lo, hi - 1);
    } else {
      assert numbers == {};
    }
  }

  lemma {:induction false} EnoughRoom(capacity: nat, arrivals: seq<Chunk>, all: set<Seqno>)
    requires Numbers(arrivals) <= all
    requires forall m: Seqno, k: Seqno :: m < k && k in all ==> m in all
    requires |all| <= capacity || (|all| == capacity + 1 && Distinct(arrivals))
    ensures NoOverflow(capacity, arrivals)
    decreases |arrivals|
  {
    if arrivals != [] {
      var front, seqno := arrivals[..|arrivals| - 1], arrivals[|arrivals| - 1].seqno;
      NumbersSnoc(arrivals);
      EnoughRoom(capacity, front, all);
      var before := Numbers(front);
      forall m: Seqno | LeastMissing(m, before) && m < seqno ensures |From(before, m + 1)| < capacity {
        assert seqno in all;
        if |all| <= capacity {
          SubsetSize(From(before, m + 1), all - {m});
        } else {
          assert seqno !in before;
          SubsetSize(From(before, m + 1), all - {m} - {seqno});
        }
      }
    }
  }

  lemma {:induction false} SubsetSize(a: set<Seqno>, b: set<Seqno>)
    requires a <= b
    ensures |a| <= |b|
  {
    assert b == a + (b - a);
    assert |b| == |a| + |b - a|;
  }

  /** Any order of chunks 0..n-1 yields the original stream, given room for all but one of them
      (or, when chunks may be repeated, for all). */
  lemma AnyOrderYieldsTheStream(capacity: nat, arrivals: seq<Chunk>, payload: Seqno -> Bytes, n: nat)
    requires Carries(arrivals, payload)
    requires n < SEQ_LIMIT && Exactly(Numbers(arrivals), 0, n)
    requires n <= capacity || (n == capacity + 1 && Distinct(arrivals))
    ensures Run(capacity, arrivals) == State(n, map[], Stream(payload, n))
  {
    ExactlySize(Numbers(arrivals), 0, n);
    EnoughRoom(capacity, arrivals, Numbers(arrivals));
    DeliversInOrder(capacity, arrivals, payload, n);
    LeastMissingUnique(n, Run(capacity, arrivals).expected, Numbers(arrivals));
    assert From(Numbers(arrivals), n + 1) == {};
  }

  // ---------- the bounds are tight, and the capacity is not a bound ----------

  lemma {:induction false} BurstNumbers(payload: Seqno -> Bytes, first: nat, count: nat)
    requires first + count <= SEQ_LIMIT
    ensures Exactly(Numbers(Burst(payload, first, count)), first, first + count)
    ensures Carries(Burst(payload, first, count), payload)
    decreases count
  {
    if count > 0 {
      BurstNumbers(payload, first, count - 1);
      NumbersAdd(Burst(payload, first, count - 1), Chunk(first + count - 1, payload(first + count - 1)));
    }
  }

  lemma NumbersAdd(front: seq<Chunk>, c: Chunk)
    ensures Numbers(front + [c]) == Numbers(front) + {c.seqno}
  {}

  lemma BurstFront(payload: Seqno -> Bytes, first: nat, count: nat)
    requires first + count < SEQ_LIMIT
    ensures Burst(payload, first, count + 1)[..count] == Burst(payload, first, count)
    ensures Burst(payload, first, count + 1)[count] == Chunk(first + count, payload(first + count))
  {}

  /** With room for `capacity` chunks, some order of capacity+2 distinct chunks is not reassembled. */
  lemma OneChunkTooMany(capacity: nat, payload: Seqno -> Bytes)
    requires 0 < capacity < LAST_SEQNO - 1
    ensures var arrivals := Burst(payload, 1, capacity + 1);
            !InOrder(Run(capacity, arrivals), Numbers(arrivals), payload)
  {
    BurstNumbers(payload, 1, capacity + 1);
    BurstOverflows(capacity, payload);
    InOrderIffNoOverflow(capacity, Burst(payload, 1, capacity + 1), payload, 0);
  }

  lemma BurstOverflows(capacity: nat, payload: Seqno -> Bytes)
    requires 0 < capacity < LAST_SEQNO - 1
    ensures !NoOverflow(capacity, Burst(payload, 1, capacity + 1))
  {
    var front, c := Burst(payload, 1, capacity), Chunk(capacity + 1, payload(capacity + 1));
    BurstNumbers(payload, 1, capacity);
    NoRoom(capacity, Numbers(front), capacity + 1);
    OverflowsAtLast(capacity, front, c);
  }

  lemma OverflowsAtLast(capacity: nat, front: seq<Chunk>, c: Chunk)
    requires !RoomFor(capacity, Numbers(front), c.seqno)
    ensures !NoOverflow(capacity, front + [c])
  {
    assert (front + [c])[..|front|] == front;
  }

  lemma NoRoom(capacity: nat, before: set<Seqno>, seqno: Seqno)
    requires capacity < seqno && Exactly(before, 1, capacity + 1)
    ensures !RoomFor(capacity, before, seqno)
  {
    ExactlySize(before, 1, capacity + 1);
    assert LeastMissing(0, before);
    assert From(before, 0 + 1) == before;
  }

  /** Nothing delivered, `count` chunks from `first` on buffered, the capacity notwithstanding. */
  ghost predicate Spread(s: State, capacity: nat, first: nat, count: nat) {
    && s.delivered == []
    && Exactly(s.buffer.Keys, first, first + count)
    && |s.buffer| == count
    && s.expected == if count <= capacity then 0 else count - capacity
  }

  lemma SpreadFurther(s: State, c: Chunk, capacity: nat, first: nat, count: nat)
    requires count < first && first + count < SEQ_LIMIT
    requires Spread(s, capacity, first, count) && c.seqno == first + count
    ensures Spread(Arrive(capacity, s, c), capacity, first, count + 1)
  {
    var base := if |s.buffer| >= capacity then Skip(s) else s;
    assert s.expected !in s.buffer.Keys;
    assert base.buffer == s.buffer;
    assert c.seqno !in s.buffer.Keys;
    assert Arrive(capacity, s, c) == Store(base, c);
  }

  /** Overflow makes room only when the expected chunk happens to be buffered, so a burst of n chunks
      far ahead fills the buffer with n entries, whatever the capacity. */
  lemma {:induction false} CapacityIsNoBound(capacity: nat, payload: Seqno -> Bytes, first: nat, count: nat)
    requires count <= first && first + count <= SEQ_LIMIT
    ensures Spread(Run(capacity, Burst(payload, first, count)), capacity, first, count)
    decreases count
  {
    if count > 0 {
      var arrivals, fewer := Burst(payload, first, count), Burst(payload, first, count - 1);
      var c := arrivals[count - 1];
      BurstFront(payload, first, count - 1);
      CapacityIsNoBound(capacity, payload, first, count - 1);
      SpreadFurther(Run(capacity, fewer), c, capacity, first, count - 1);
      assert Run(capacity, arrivals) == Arrive(capacity, Run(capacity, fewer), c);
    }
  }

  // ---------- the wrap-around ----------

  /** Chunks that arrive in turn are delivered as they come; after the last number, 0 is expected again. */
  lemma {:induction false} InTurn(capacity: nat, payload: Seqno -> Bytes, n: nat)
    requires n <= SEQ_LIMIT
    ensures Run(capacity, Burst(payload, 0, n)) == State(if n == SEQ_LIMIT then 0 else n, map[], Stream(payload, n))
    decreases n
  {
    if n > 0 {
      InTurn(capacity, payload, n - 1);
      RunSnoc(capacity, Burst(payload, 0, n - 1), Chunk(n - 1, payload(n - 1)));
    }
  }

  /** After all of the 2^32 numbers, an old chunk 0 is delivered anew: the deliveries no longer ascend. */
  lemma WrapStartsOver(capacity: nat, payload: Seqno -> Bytes, n: nat, old0: Bytes)
    requires n == SEQ_LIMIT
    ensures var s := Run(capacity, Burst(payload, 0, n) + [Chunk(0, old0)]);
            && s == State(1, map[], Stream(payload, n) + [Chunk(0, old0)])
            && !Ascending(s)
  {
    InTurn(capacity, payload, n);
    RunSnoc(capacity, Burst(payload, 0, n), Chunk(0, old0));
    var s := Run(capacity, Burst(payload, 0, n) + [Chunk(0, old0)]);
    StreamNumbers(payload, n, 0);
    assert s.delivered[0].seqno == 0 && s.delivered[n].seqno == 0;
  }

  // ---------- implementation ----------

  class Reassembler {
    var expectedSeq: Seqno
    var buffer: map<Seqno, Bytes>
    const maxBufferSize: nat
    var delivered: seq<Chunk>        // the emit calls, in order

    ghost var arrivals: seq<Chunk>   // the AddChunk calls since construction or Reset
    ghost var earlier: seq<Chunk>    // what was delivered before those calls

    ghost function Abs(): State
      reads this
      requires earlier <= delivered
    {
      State(expectedSeq, buffer, delivered[|earlier|..])
    }

    ghost predicate Valid()
      reads this
    {
      && maxBufferSize > 0
      && earlier <= delivered
      && Abs() == Run(maxBufferSize, arrivals)
    }

    constructor (maxBufferSize: int)
      ensures Valid() && arrivals == [] && earlier == []
      ensures this.maxBufferSize == if maxBufferSize <= 0 then 100 else maxBufferSize
    {
      this.maxBufferSize := if maxBufferSize <= 0 then 100 else maxBufferSize;
      expectedSeq, buffer, delivered := 0, map[], [];
      arrivals, earlier := [], [];
    }

    method AddChunk(seqno: Seqno, data: Bytes)
      requires Valid()
      modifies this
      ensures Valid() && arrivals == old(arrivals) + [Chunk(seqno, data)] && earlier == old(earlier)
      ensures seqno == old(expectedSeq) ==>
                expectedSeq !in buffer && old(delivered) + [Chunk(seqno, data)] <= delivered
    {
      ghost var c, before := Chunk(seqno, data), Abs();
      ghost var after := Arrive(maxBufferSize, before, c);
      RunSnoc(maxBufferSize, arrivals, c);
      arrivals := arrivals + [c];

      if seqno == expectedSeq {
        TakeInTurn(data);
        assert Abs() == after;
        return;
      }
      if seqno < expectedSeq {
        return;
      }
      StoreAhead(seqno, data);
      assert Abs() == after;
    }

    method StoreAhead(seqno: Seqno, data: Bytes)
      requires earlier <= delivered
      modifies this`expectedSeq, this`buffer
      ensures Abs() == Store(if |old(buffer)| >= maxBufferSize then Skip(old(Abs())) else old(Abs()), Chunk(seqno, data))
      ensures Stored(maxBufferSize, old(expectedSeq), old(buffer), Chunk(seqno, data), expectedSeq, buffer)
    {
      if |buffer| >= maxBufferSize {
        AdvanceExpected();
      }
      buffer := buffer[seqno := data];
    }

    method TakeInTurn(data: Bytes)
      requires earlier <= delivered
      modifies this`expectedSeq, this`buffer, this`delivered
      ensures earlier <= delivered && Abs() == Drain(Deliver(old(Abs()), data))
      ensures old(delivered) + [Chunk(old(expectedSeq), data)] <= delivered && expectedSeq !in buffer
    {
      ghost var before := Abs();
      Emit(data);
      expectedSeq := Next(expectedSeq);
      assert Abs() == Deliver(before, data);
      EmitBuffered();
    }

    method Emit(data: Bytes)
      requires earlier <= delivered
      modifies this`delivered
      ensures delivered == old(delivered) + [Chunk(expectedSeq, data)]
      ensures earlier <= delivered
      ensures delivered[|earlier|..] == old(delivered)[|earlier|..] + [Chunk(expectedSeq, data)]
    {
      delivered := delivered + [Chunk(expectedSeq, data)];
    }

    method EmitBuffered()
      requires earlier <= delivered
      modifies this`expectedSeq, this`buffer, this`delivered
      ensures earlier <= delivered && Abs() == Drain(old(Abs()))
      ensures old(delivered) <= delivered && expectedSeq !in buffer
    {
      while expectedSeq in buffer
        invariant earlier <= delivered && Drain(Abs()) == Drain(old(Abs()))
        invariant old(delivered) <= delivered
        decreases buffer.Keys
      {
        ghost var step := Deliver(Abs(), buffer[expectedSeq]).(buffer := buffer - {expectedSeq});
        Emit(buffer[expectedSeq]);
        buffer := buffer - {expectedSeq};
        expectedSeq := Next(expectedSeq);
        assert Abs() == step;
      }
    }

    method AdvanceExpected()
      requires earlier <= delivered
      modifies this`expectedSeq, this`buffer
      ensures Abs() == Skip(old(Abs()))
    {
      buffer := buffer - {expectedSeq};
      expectedSeq := Next(expectedSeq);
    }

    method Reset()
      requires Valid()
      modifies this
      ensures Valid() && arrivals == [] && earlier == delivered == old(delivered)
    {
      expectedSeq := 0;
      buffer := map[];
      arrivals, earlier := [], delivered;
    }
  }
}
