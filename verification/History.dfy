/** The bounded dialogue history of a session, trimmed as it grows. */
module DialogueHistory {
  import opened Seqs
  import opened PromptAssembly

  /** The prompt GetPromptContext builds from a list of messages. */
  function Context(messages: seq<Message>, systemPrompt: string, maxContextMessages: int): seq<Message> {
    Opening(systemPrompt)
    + Systems(messages)
    + (if maxContextMessages > 0 then Last(Others(messages), maxContextMessages) else Others(messages))
  }

  /** System messages first, then the others. */
  ghost predicate Consists(ms: seq<Message>, systems: seq<Message>, others: seq<Message>) {
    ms == systems + others && Systems(ms) == systems && Others(ms) == others
  }

  function Latest(others: seq<Message>, maxContextMessages: int): seq<Message> {
    if 0 < maxContextMessages < |others| then others[|others| - maxContextMessages..] else others
  }

  /** A prompt is the instructions, if any, and all system messages, then the latest of the others. */
  ghost predicate IsPrompt(context: seq<Message>, messages: seq<Message>, systemPrompt: string, maxContextMessages: int) {
    Consists(context,
             if systemPrompt == "" then Systems(messages) else [Message(System, systemPrompt)] + Systems(messages),
             Latest(Others(messages), maxContextMessages))
  }

  lemma ThreeParts(opening: seq<Message>, systems: seq<Message>, latest: seq<Message>)
    requires AllSystem(opening) && AllSystem(systems) && NoSystem(latest)
    ensures Consists(opening + systems + latest, opening + systems, latest)
  {
    SplitRegrouped(opening + systems, latest);
  }

  lemma ContextHolds(messages: seq<Message>, systemPrompt: string, maxContextMessages: int)
    ensures IsPrompt(Context(messages, systemPrompt, maxContextMessages), messages, systemPrompt, maxContextMessages)
  {
    var systems, others := Systems(messages), Others(messages);
    SplitFacts(messages);
    ThreeParts(Opening(systemPrompt), systems, Latest(others, maxContextMessages));
    assert [] + systems == systems;
  }

  /** Trimming is invisible to a prompt exactly when nothing was dropped or the prompt asks for no more
      messages than trimming keeps. */
  lemma ContextUnaffectedIff(kept: seq<Message>, log: seq<Message>, maxSize: int,
                             systemPrompt: string, maxContextMessages: int)
    requires IsWindow(kept, log, maxSize)
    ensures Context(kept, systemPrompt, maxContextMessages) == Context(log, systemPrompt, maxContextMessages)
       <==> |Others(log)| <= Room(log, maxSize) || 0 < maxContextMessages <= Room(log, maxSize)
  {
    WindowKeeps(kept, log, maxSize);
    var others, room := Others(log), Room(log, maxSize);
    var head := Opening(systemPrompt) + Systems(log);
    var m := maxContextMessages;
    var short := if m > 0 then Last(Last(others, room), m) else Last(others, room);
    var full := if m > 0 then Last(others, m) else others;
    assert Context(kept, systemPrompt, m) == head + short;
    assert Context(log, systemPrompt, m) == head + full;
    if 0 < m <= room {
      LastShrinks(others, [], room, m);
      assert Last(others, room) + [] == Last(others, room) && others + [] == others;
    } else if |others| > room {
      assert |short| < |full|;
    }
  }

  lemma PlainWindow(kept: seq<Message>, log: seq<Message>, limit: nat)
    requires NoSystem(log) && IsWindow(kept, log, limit) && limit < |log|
    ensures kept == log[|log| - limit..]
  {
    SplitPure(log);
  }

  lemma PlainContext(messages: seq<Message>)
    requires NoSystem(messages)
    ensures Context(messages, "", 0) == messages
  {
    SplitPure(messages);
  }

  /** With room for one message, the question before an answer is missing from the prompt. */
  lemma ForgottenQuestion(question: Message, answer: Message, kept: seq<Message>)
    requires question.role == User && answer.role == Assistant
    requires IsWindow(kept, [question, answer], 1)
    ensures Context(kept, "", 0) == [answer]
    ensures Context([question, answer], "", 0) == [question, answer]
  {
    PlainWindow(kept, [question, answer], 1);
    PlainContext([question, answer]);
    PlainContext([answer]);
  }

  class ConversationHistory {
    var messages: seq<Message>
    const maxSize: nat

    ghost var log: seq<Message>   // everything appended since construction or Clear, untrimmed

    /** However often it was trimmed on the way, the history is the window of the whole log. */
    ghost predicate Valid()
      reads this
    {
      && maxSize > 0
      && IsWindow(messages, log, maxSize)
      && forall i :: 0 <= i < |log| ==> !log[i].role.Other?   // the others are users and assistants
    }

    constructor (maxSize: int)
      ensures Valid() && log == []
      ensures this.maxSize == if maxSize <= 0 then 100 else maxSize
    {
      this.maxSize := if maxSize <= 0 then 100 else maxSize;
      messages, log := [], [];
    }

    method AppendUserMessage(content: string)
      requires Valid()
      modifies this
      ensures Valid() && log == old(log) + [Message(User, content)]
    {
      Append(Message(User, content));
    }

    /** An assistant message without text is not a message. */
    method AppendAssistantMessage(content: string)
      requires Valid()
      modifies this
      ensures Valid() && log == if content == "" then old(log) else old(log) + [Message(Assistant, content)]
    {
      if content == "" {
        return;
      }
      Append(Message(Assistant, content));
    }

    method AppendSystemMessage(content: string)
      requires Valid()
      modifies this
      ensures Valid() && log == old(log) + [Message(System, content)]
    {
      Append(Message(System, content));
    }

    method Append(m: Message)
      requires Valid() && !m.role.Other?
      modifies this
      ensures Valid() && log == old(log) + [m]
    {
      ghost var before := messages;
      messages := messages + [m];
      TrimIfNeeded();
      WindowIncremental(before, log, m, messages, maxSize);
      log := log + [m];
    }

    method TrimIfNeeded()
      modifies this`messages
      ensures IsWindow(messages, old(messages), maxSize)
    {
      if |messages| > maxSize {
        TrimOldestNonSystem();
      }
    }

    method TrimOldestNonSystem()
      modifies this`messages
      ensures messages == Systems(old(messages)) + Last(Others(old(messages)), Room(old(messages), maxSize))
    {
      var newMessages, nonSystem := SplitByRole(messages);
      var nonSystemToKeep := maxSize - |newMessages|;
      if nonSystemToKeep < 0 {
        nonSystemToKeep := 0;
      }
      if |nonSystem| > nonSystemToKeep {
        nonSystem := nonSystem[|nonSystem| - nonSystemToKeep..];
      }
      assert nonSystem == Last(Others(messages), Room(messages, maxSize));
      messages := newMessages + nonSystem;
    }

    /** The prompt of the untrimmed log, whenever trimming cannot be noticed. */
    method GetPromptContext(systemPrompt: string, maxContextMessages: int) returns (context: seq<Message>)
      requires Valid()
      ensures IsPrompt(context, messages, systemPrompt, maxContextMessages)
      ensures context == Context(messages, systemPrompt, maxContextMessages)
      ensures context == Context(log, systemPrompt, maxContextMessages)
         <==> |Others(log)| <= Room(log, maxSize) || 0 < maxContextMessages <= Room(log, maxSize)
    {
      context := [];
      if systemPrompt != "" {
        context := context + [Message(System, systemPrompt)];
      }
      assert context == Opening(systemPrompt);
      var systems, userAssistantMessages := SplitByRole(messages);
      context := context + systems;
      if maxContextMessages > 0 && |userAssistantMessages| > maxContextMessages {
        userAssistantMessages := userAssistantMessages[|userAssistantMessages| - maxContextMessages..];
      }
      context := context + userAssistantMessages;
      assert context == Context(messages, systemPrompt, maxContextMessages);
      ContextHolds(messages, systemPrompt, maxContextMessages);
      ContextUnaffectedIff(messages, log, maxSize, systemPrompt, maxContextMessages);
    }

    method Clear()
      requires Valid()
      modifies this
      ensures Valid() && log == [] && messages == []
    {
      messages, log := [], [];
    }
  }
}
