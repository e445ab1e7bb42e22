/** Chat messages and the two prompt trimmers: by message count and by estimated tokens. */
module PromptAssembly {
  import opened Seqs

  datatype Role = System | User | Assistant | Other(name: string)

  datatype Message = Message(role: Role, content: string)

  // ---------- splitting by role ----------

  function Systems(ms: seq<Message>): seq<Message> {
    if ms == [] then []
    else Systems(ms[..|ms| - 1]) + SystemPart(ms[|ms| - 1])
  }

  function Others(ms: seq<Message>): seq<Message> {
    if ms == [] then []
    else Others(ms[..|ms| - 1]) + OtherPart(ms[|ms| - 1])
  }

  function SystemPart(m: Message): seq<Message> {
    if m.role == System then [m] else []
  }

  function OtherPart(m: Message): seq<Message> {
    if m.role == System then [] else [m]
  }

  ghost predicate AllSystem(ms: seq<Message>) {
    forall i :: 0 <= i < |ms| ==> ms[i].role == System
  }

  ghost predicate NoSystem(ms: seq<Message>) {
    forall i :: 0 <= i < |ms| ==> ms[i].role != System
  }

  lemma {:induction false} SplitFacts(ms: seq<Message>)
    ensures |Systems(ms)| + |Others(ms)| == |ms|
    ensures AllSystem(Systems(ms)) && NoSystem(Others(ms))
    decreases |ms|
  {
    if ms != [] {
      SplitFacts(ms[..|ms| - 1]);
    }
  }

  lemma SplitSnoc(ms: seq<Message>, m: Message)
    ensures Systems(ms + [m]) == Systems(ms) + SystemPart(m)
    ensures Others(ms + [m]) == Others(ms) + OtherPart(m)
  {
    assert (ms + [m])[..|ms|] == ms;
  }

  lemma {:induction false} SplitAppend(a: seq<Message>, b: seq<Message>)
    ensures Systems(a + b) == Systems(a) + Systems(b)
    ensures Others(a + b) == Others(a) + Others(b)
    decreases |b|
  {
    if b == [] {
      assert a + b == a;
    } else {
      var front, m := b[..|b| - 1], b[|b| - 1];
      assert b == front + [m] && a + b == (a + front) + [m];
      SplitAppend(a, front);
      SplitSnoc(a + front, m);
      Regroup(Systems(a), Systems(front), SystemPart(m));
      Regroup(Others(a), Others(front), OtherPart(m));
    }
  }

  lemma {:induction false} SplitPure(ms: seq<Message>)
    ensures AllSystem(ms) ==> Systems(ms) == ms && Others(ms) == []
    ensures NoSystem(ms) ==> Others(ms) == ms && Systems(ms) == []
    decreases |ms|
  {
    if ms != [] {
      SplitPure(ms[..|ms| - 1]);
      assert ms == ms[..|ms| - 1] + [ms[|ms| - 1]];
    }
  }

  lemma SplitRegrouped(systems: seq<Message>, others: seq<Message>)
    requires AllSystem(systems) && NoSystem(others)
    ensures Systems(systems + others) == systems && Others(systems + others) == others
  {
    SplitAppend(systems, others);
    SplitPure(systems);
    SplitPure(others);
  }

  /** The loop both trimmers and the history run over their messages. */
  method SplitByRole(ms: seq<Message>) returns (systems: seq<Message>, others: seq<Message>)
    ensures systems == Systems(ms) && others == Others(ms)
  {
    systems, others := [], [];
    for i := 0 to |ms|
      invariant systems == Systems(ms[..i]) && others == Others(ms[..i])
    {
      assert ms[..i + 1] == ms[..i] + [ms[i]];
      SplitSnoc(ms[..i], ms[i]);
      if ms[i].role == System {
        systems := systems + [ms[i]];
      } else {
        others := others + [ms[i]];
      }
    }
    assert ms[..|ms|] == ms;
  }

  // ---------- trimming by message count ----------

  /** The non-system messages a limit of `limit` leaves room for. */
  function Room(ms: seq<Message>, limit: int): nat {
    if limit <= |Systems(ms)| then 0 else limit - |Systems(ms)|
  }

  /** `kept` is `ms` cut to `limit`: all of it when it fits, else every system message followed by the latest others. */
  ghost predicate IsWindow(kept: seq<Message>, ms: seq<Message>, limit: int) {
    if |ms| <= limit then kept == ms
    else kept == Systems(ms) + Last(Others(ms), Room(ms, limit))
  }

  /** Whatever is cut: every system message survives, and exactly the latest others that the limit has room for. */
  lemma WindowKeeps(kept: seq<Message>, ms: seq<Message>, limit: int)
    requires IsWindow(kept, ms, limit)
    ensures Systems(kept) == Systems(ms)
    ensures Others(kept) == Last(Others(ms), Room(ms, limit))
    ensures |kept| <= limit <==> |Systems(ms)| <= limit
    ensures |ms| >= limit ==> |kept| >= limit
  {
    SplitFacts(ms);
    if |ms| > limit {
      SplitRegrouped(Systems(ms), Last(Others(ms), Room(ms, limit)));
    }
  }

  lemma WindowIdempotent(once: seq<Message>, twice: seq<Message>, ms: seq<Message>, limit: int)
    requires IsWindow(once, ms, limit) && IsWindow(twice, once, limit)
    ensures twice == once
  {
    WindowKeeps(once, ms, limit);
  }

  /** Cutting a window after one more message gives the window of the longer log: trimming early loses nothing
      that trimming late would keep. */
  lemma WindowIncremental(kept: seq<Message>, ms: seq<Message>, m: Message, next: seq<Message>, limit: int)
    requires IsWindow(kept, ms, limit)
    requires IsWindow(next, kept + [m], limit)
    ensures IsWindow(next, ms + [m], limit)
  {
    if |ms| > limit {
      WindowKeeps(kept, ms, limit);
      SplitSnoc(ms, m);
      SplitSnoc(kept, m);
      assert Systems(kept + [m]) == Systems(ms + [m]);
      LastShrinks(Others(ms), OtherPart(m), Room(ms, limit), Room(ms + [m], limit));
    }
  }

  // ---------- assembling a prompt ----------

  class PromptAssembler {
    const maxContextMessages: int

    constructor (maxContextMessages: int)
      ensures this.maxContextMessages == if maxContextMessages <= 0 then 20 else maxContextMessages
    {
      this.maxContextMessages := if maxContextMessages <= 0 then 20 else maxContextMessages;
    }

    method ApplyContextLimit(messages: seq<Message>) returns (result: seq<Message>)
      ensures IsWindow(result, messages, maxContextMessages)
    {
      if |messages| <= maxContextMessages {
        return messages;
      }
      var systemMessages, otherMessages := SplitByRole(messages);
      var nonSystemLimit := maxContextMessages - |systemMessages|;
      if nonSystemLimit < 0 {
        nonSystemLimit := 0;
      }
      if |otherMessages| > nonSystemLimit {
        otherMessages := otherMessages[|otherMessages| - nonSystemLimit..];
      }
      result := systemMessages + otherMessages;
    }

    method AssemblePromptWithHistory(systemPrompt: string, history: seq<Message>, userUtterance: string)
      returns (result: seq<Message>)
      ensures IsWindow(result, Assembled(systemPrompt, history, userUtterance), maxContextMessages)
    {
      var messages: seq<Message> := [];
      if systemPrompt != "" {
        messages := messages + [Message(System, systemPrompt)];
      }
      assert messages == Opening(systemPrompt) + Usable(history[..0]);
      for i := 0 to |history|
        invariant messages == Opening(systemPrompt) + Usable(history[..i])
      {
        var msg := history[i];
        UsableMore(Opening(systemPrompt), history, i);
        if msg.content == "" {
          continue;
        }
        if msg.role == User || msg.role == Assistant || msg.role == System {
          messages := messages + [msg];
        }
      }
      assert history[..|history|] == history;
      if userUtterance != "" {
        messages := messages + [Message(User, userUtterance)];
      }
      assert messages == Assembled(systemPrompt, history, userUtterance);
      result := ApplyContextLimit(messages);
    }

    method CountTotalTokens(messages: seq<Message>) returns (total: nat)
      ensures total == Tokens(messages)
      ensures 4 * total <= Characters(messages) + 16 * |messages| <= 4 * total + 3 * |messages|
    {
      total := 0;
      for i := 0 to |messages|
        invariant total == Tokens(messages[..i])
      {
        assert messages[..i + 1] == messages[..i] + [messages[i]];
        TokensSnoc(messages[..i], messages[i]);
        total := total + |messages[i].content| / 4;
        total := total + 4;
      }
      assert messages[..|messages|] == messages;
      TokensExactly(messages);
    }

    method TrimToTokenLimit(messages: seq<Message>, maxTokens: int) returns (result: seq<Message>)
      ensures IsTokenTrim(result, messages, maxTokens)
    {
      var total := CountTotalTokens(messages);
      if total <= maxTokens {
        return messages;
      }
      var systemMessages, otherMessages := SplitByRole(messages);
      var systemTokens := CountTotalTokens(systemMessages);
      var availableTokens := maxTokens - systemTokens;
      if availableTokens < 0 {
        availableTokens := 0;
      }

      ghost var k := 0;
      ghost var all := otherMessages;
      var otherTokens := CountTotalTokens(otherMessages);
      while otherTokens > availableTokens && |otherMessages| > 1
        invariant TooLong(all, k, availableTokens) && otherMessages == all[k..]
        invariant otherTokens == Tokens(otherMessages)
        invariant k > 0 ==> otherMessages != []
        decreases |otherMessages|
      {
        assert otherMessages[1..] == all[k + 1..];
        otherMessages := otherMessages[1..];
        k := k + 1;
        otherTokens := CountTotalTokens(otherMessages);
      }
      assert LongestFitting(all, k, availableTokens);
      result := systemMessages + otherMessages;
    }
  }

  /** History messages that may enter a prompt: non-empty, in one of the three known roles. */
  function Usable(history: seq<Message>): seq<Message> {
    if history == [] then []
    else Usable(history[..|history| - 1]) + UsablePart(history[|history| - 1])
  }

  function UsablePart(m: Message): seq<Message> {
    if m.content != "" && !m.role.Other? then [m] else []
  }

  lemma UsableSnoc(history: seq<Message>, m: Message)
    ensures Usable(history + [m]) == Usable(history) + UsablePart(m)
  {
    assert (history + [m])[..|history|] == history;
  }

  lemma UsableMore(prefix: seq<Message>, history: seq<Message>, i: nat)
    requires i < |history|
    ensures prefix + Usable(history[..i + 1]) == prefix + Usable(history[..i]) + UsablePart(history[i])
  {
    assert history[..i + 1] == history[..i] + [history[i]];
    UsableSnoc(history[..i], history[i]);
    Regroup(prefix, Usable(history[..i]), UsablePart(history[i]));
  }

  function Opening(systemPrompt: string): seq<Message> {
    if systemPrompt != "" then [Message(System, systemPrompt)] else []
  }

  function Closing(userUtterance: string): seq<Message> {
    if userUtterance != "" then [Message(User, userUtterance)] else []
  }

  function Assembled(systemPrompt: string, history: seq<Message>, userUtterance: string): seq<Message> {
    Opening(systemPrompt) + Usable(history) + Closing(userUtterance)
  }

  lemma {:induction false} UsableExactly(history: seq<Message>, m: Message)
    ensures m in Usable(history) <==>
            m in history && m.content != "" && (m.role == User || m.role == Assistant || m.role == System)
    decreases |history|
  {
    if history != [] {
      var front, last := history[..|history| - 1], history[|history| - 1];
      assert history == front + [last];
      UsableExactly(front, m);
    }
  }

  lemma {:induction false} UsableAppend(a: seq<Message>, b: seq<Message>)
    ensures Usable(a + b) == Usable(a) + Usable(b)
    decreases |b|
  {
    if b == [] {
      assert a + b == a;
    } else {
      var front, last := b[..|b| - 1], b[|b| - 1];
      assert b == front + [last];
      assert a + b == a + front + [last];
      UsableAppend(a, front);
      UsableSnoc(a + front, last);
      Regroup(Usable(a), Usable(front), UsablePart(last));
    }
  }

  /** Before trimming, a prompt holds exactly the instructions, the non-empty user, assistant and system messages of the
      history, and the utterance. */
  lemma AssembledExactly(systemPrompt: string, history: seq<Message>, userUtterance: string, m: Message)
    ensures m in Assembled(systemPrompt, history, userUtterance) <==>
            || (systemPrompt != "" && m == Message(System, systemPrompt))
            || (m in history && m.content != "" && (m.role == User || m.role == Assistant || m.role == System))
            || (userUtterance != "" && m == Message(User, userUtterance))
  {
    UsableExactly(history, m);
    var all := Assembled(systemPrompt, history, userUtterance);
    assert m in all <==> m in Opening(systemPrompt) || m in Usable(history) || m in Closing(userUtterance);
  }

  /** In this order, each message of the history once. */
  lemma AssembledInOrder(systemPrompt: string, before: seq<Message>, m: Message, after: seq<Message>,
                         userUtterance: string)
    ensures Assembled(systemPrompt, before + [m] + after, userUtterance)
         == Assembled(systemPrompt, before, "")
            + (if m.content != "" && (m.role == User || m.role == Assistant || m.role == System) then [m] else [])
            + Assembled("", after, userUtterance)
  {
    UsableAppend(before + [m], after);
    UsableSnoc(before, m);
    RegroupPrompt(Opening(systemPrompt), Usable(before), UsablePart(m), Usable(after), Closing(userUtterance));
  }

  lemma RegroupPrompt<T>(opening: seq<T>, a: seq<T>, b: seq<T>, c: seq<T>, closing: seq<T>)
    ensures opening + (a + b + c) + closing == opening + a + [] + b + ([] + c + closing)
  {}

  /** The caller's utterance closes the prompt exactly when the system messages leave room for one more. */
  lemma UtteranceSurvivesIff(systemPrompt: string, history: seq<Message>, userUtterance: string,
                             limit: int, prompt: seq<Message>)
    requires userUtterance != "" && limit > 0
    requires IsWindow(prompt, Assembled(systemPrompt, history, userUtterance), limit)
    ensures prompt != [] && prompt[|prompt| - 1] == Message(User, userUtterance)
       <==> |Systems(Assembled(systemPrompt, history, userUtterance))| < limit
  {
    var all := Assembled(systemPrompt, history, userUtterance);
    var utterance := Message(User, userUtterance);
    var before := all[..|all| - 1];
    assert all == before + [utterance];
    SplitSnoc(before, utterance);
    SplitFacts(before);
    if |all| > limit {
      EndOfWindow(Systems(all), Others(before), utterance, Room(all, limit));
    }
  }

  lemma EndOfWindow(systems: seq<Message>, others: seq<Message>, last: Message, room: nat)
    requires AllSystem(systems) && last.role != System
    ensures var window := systems + Last(others + [last], room);
            window != [] && window[|window| - 1] == last <==> room > 0
  {
    var window := systems + Last(others + [last], room);
    if room == 0 {
      assert window == systems;
    } else {
      assert Last(others + [last], room)[|Last(others + [last], room)| - 1] == last;
    }
  }

  /** With a limit of 1 and a system prompt, the utterance is dropped. */
  lemma UtteranceDropped(systemPrompt: string, userUtterance: string, prompt: seq<Message>)
    requires systemPrompt != "" && userUtterance != ""
    requires IsWindow(prompt, Assembled(systemPrompt, [], userUtterance), 1)
    ensures prompt == [Message(System, systemPrompt)]
  {
    var system, user := Message(System, systemPrompt), Message(User, userUtterance);
    assert Assembled(systemPrompt, [], userUtterance) == [system] + [user];
    SplitPure([system]);
    SplitSnoc([system], user);
  }

  // ---------- trimming by tokens ----------

  function Cost(m: Message): nat {
    |m.content| / 4 + 4
  }

  function Characters(ms: seq<Message>): nat {
    if ms == [] then 0 else |ms[0].content| + Characters(ms[1..])
  }

  /** The estimate is 4 tokens for each of n messages and one for every 4 characters, less than a token per message
      lost to rounding. */
  lemma {:induction false} TokensExactly(ms: seq<Message>)
    ensures 4 * Tokens(ms) <= Characters(ms) + 16 * |ms| <= 4 * Tokens(ms) + 3 * |ms|
  {
    if ms != [] {
      TokensExactly(ms[1..]);
    }
  }

  function Tokens(ms: seq<Message>): nat {
    if ms == [] then 0 else Cost(ms[0]) + Tokens(ms[1..])
  }

  lemma {:induction false} TokensAppend(a: seq<Message>, b: seq<Message>)
    ensures Tokens(a + b) == Tokens(a) + Tokens(b)
    decreases |a|
  {
    if a == [] {
      assert a + b == b;
    } else {
      TokensAppend(a[1..], b);
      assert (a + b)[1..] == a[1..] + b;
    }
  }

  lemma TokensSnoc(ms: seq<Message>, m: Message)
    ensures Tokens(ms + [m]) == Tokens(ms) + Cost(m)
  {
    TokensAppend(ms, [m]);
    assert Tokens([m]) == Cost(m) + Tokens([]);
  }

  lemma {:induction false} TokensSplit(ms: seq<Message>)
    ensures Tokens(ms) == Tokens(Systems(ms)) + Tokens(Others(ms))
    decreases |ms|
  {
    if ms != [] {
      var front, m := ms[..|ms| - 1], ms[|ms| - 1];
      assert ms == front + [m];
      TokensSplit(front);
      SplitSnoc(front, m);
      TokensSnoc(front, m);
      if m.role == System {
        TokensSnoc(Systems(front), m);
        assert Others(front) + [] == Others(front);
      } else {
        TokensSnoc(Others(front), m);
        assert Systems(front) + [] == Systems(front);
      }
    }
  }

  /** No suffix that starts before `k` fits. */
  ghost predicate TooLong(ms: seq<Message>, k: nat, budget: nat) {
    k <= |ms| && forall j :: 0 <= j < k ==> Tokens(ms[j..]) > budget
  }

  /** ms[k..] is the longest suffix within the budget, or the last message alone when not even that fits. */
  ghost predicate LongestFitting(ms: seq<Message>, k: nat, budget: nat) {
    && TooLong(ms, k, budget)
    && (Tokens(ms[k..]) <= budget || k == |ms| - 1)
    && (k > 0 ==> k < |ms|)
  }

  function Budget(ms: seq<Message>, maxTokens: int): nat {
    if maxTokens < Tokens(Systems(ms)) then 0 else maxTokens - Tokens(Systems(ms))
  }

  ghost predicate IsTokenTrim(result: seq<Message>, ms: seq<Message>, maxTokens: int) {
    if Tokens(ms) <= maxTokens then result == ms
    else exists k: nat :: LongestFitting(Others(ms), k, Budget(ms, maxTokens))
                     && result == Systems(ms) + Others(ms)[k..]
  }

  lemma LongestFittingUnique(ms: seq<Message>, j: nat, k: nat, budget: nat)
    requires LongestFitting(ms, j, budget) && LongestFitting(ms, k, budget)
    ensures j == k
  {
    assert TooLong(ms, j, budget) && TooLong(ms, k, budget);
  }

  /** The trim is determined by its input. */
  lemma {:induction false} TokenTrimUnique(r: seq<Message>, s: seq<Message>, ms: seq<Message>, maxTokens: int)
    requires IsTokenTrim(r, ms, maxTokens) && IsTokenTrim(s, ms, maxTokens)
    ensures r == s
  {
    if Tokens(ms) > maxTokens {
      var others, budget := Others(ms), Budget(ms, maxTokens);
      var j: nat :| LongestFitting(others, j, budget) && r == Systems(ms) + others[j..];
      var k: nat :| LongestFitting(others, k, budget) && s == Systems(ms) + others[k..];
      LongestFittingUnique(others, j, k, budget);
    }
  }

  lemma OthersSuffix(ms: seq<Message>, k: nat)
    requires k <= |Others(ms)|
    ensures Systems(Systems(ms) + Others(ms)[k..]) == Systems(ms)
    ensures Others(Systems(ms) + Others(ms)[k..]) == Others(ms)[k..]
  {
    SplitFacts(ms);
    SplitRegrouped(Systems(ms), Others(ms)[k..]);
  }

  lemma TokenTrimIdempotent(once: seq<Message>, twice: seq<Message>, ms: seq<Message>, maxTokens: int)
    requires IsTokenTrim(once, ms, maxTokens) && IsTokenTrim(twice, once, maxTokens)
    ensures twice == once
  {
    if Tokens(ms) > maxTokens {
      var others, budget := Others(ms), Budget(ms, maxTokens);
      var k: nat :| LongestFitting(others, k, budget) && once == Systems(ms) + others[k..];
      OthersSuffix(ms, k);
      if Tokens(once) > maxTokens {
        var rest := others[k..];
        assert rest[0..] == rest;
        TokensSplit(once);
        assert LongestFitting(rest, 0, budget);
        var j: nat :| LongestFitting(rest, j, budget) && twice == Systems(once) + rest[j..];
        LongestFittingUnique(rest, 0, j, budget);
      }
    }
  }

  /** The trim meets its limit exactly when the system messages and the last other message do. */
  lemma TokenTrimFitsIff(result: seq<Message>, ms: seq<Message>, maxTokens: int)
    requires IsTokenTrim(result, ms, maxTokens)
    ensures Tokens(result) <= maxTokens <==> Tokens(Systems(ms)) + Tokens(Last(Others(ms), 1)) <= maxTokens
  {
    var others := Others(ms);
    TokensSplit(ms);
    LastCost(others, 0);
    if Tokens(ms) > maxTokens {
      var k: nat :| LongestFitting(others, k, Budget(ms, maxTokens)) && result == Systems(ms) + others[k..];
      TokensAppend(Systems(ms), others[k..]);
      LastCost(others, k);
    }
  }

  /** A limit of 3 tokens: the question is kept, at 5. */
  lemma TrimOverLimit(result: seq<Message>)
    requires IsTokenTrim(result, [Message(User, "Hello?")], 3)
    ensures result == [Message(User, "Hello?")] && Tokens(result) == 5
  {
    var ms := [Message(User, "Hello?")];
    assert Tokens(ms) == Cost(ms[0]) + Tokens([]) == 5;
    SplitPure(ms);
    var k: nat :| LongestFitting(Others(ms), k, Budget(ms, 3)) && result == Systems(ms) + Others(ms)[k..];
    assert k == 0 && [] + ms[0..] == ms;
  }

  lemma LastCost(ms: seq<Message>, k: nat)
    requires k <= |ms| && (k > 0 ==> k < |ms|)
    ensures Tokens(ms[k..]) >= Tokens(Last(ms, 1))
    ensures k == |ms| - 1 ==> ms[k..] == Last(ms, 1)
    ensures ms == [] ==> Tokens(Last(ms, 1)) == 0
  {
    if |ms| > 1 {
      assert ms[k..] == ms[k..|ms| - 1] + ms[|ms| - 1..];
      TokensAppend(ms[k..|ms| - 1], ms[|ms| - 1..]);
    } else if |ms| == 1 {
      assert ms[k..] == ms;
    }
  }
}
