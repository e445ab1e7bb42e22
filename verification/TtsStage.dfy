/** Incremental speech synthesis: a token stream is buffered and cut into speakable segments. */
module SpeechSegmentation {
  import opened Seqs

  // Text is ASCII, so that Go's byte offsets are character offsets.

  predicate IsSpace(c: char) {
    c == ' ' || 9 <= c as int <= 13
  }

  // ---------- the string functions the stage relies on ----------

  /** strings.LastIndexAny: the last position holding one of `chars`, or -1. */
  function LastIndexAny(text: string, chars: string): (idx: int)
    ensures -1 <= idx < |text|
  {
    if text == "" then -1
    else if text[|text| - 1] in chars then |text| - 1
    else LastIndexAny(text[..|text| - 1], chars)
  }

  /** Position `i` holds one of `chars`, no later position does. */
  ghost predicate IsLast(text: string, chars: string, i: int) {
    0 <= i < |text| && text[i] in chars && forall j :: i < j < |text| ==> text[j] !in chars
  }

  ghost predicate NoneOf(text: string, chars: string) {
    forall j :: 0 <= j < |text| ==> text[j] !in chars
  }

  lemma {:induction false} LastIndexAnyFinds(text: string, chars: string)
    ensures var idx := LastIndexAny(text, chars);
            if idx == -1 then NoneOf(text, chars) else IsLast(text, chars, idx)
    decreases |text|
  {
    if text != "" && text[|text| - 1] !in chars {
      LastIndexAnyFinds(text[..|text| - 1], chars);
    }
  }

  lemma LastIndexAnyIsLast(text: string, chars: string, i: nat)
    requires IsLast(text, chars, i)
    ensures LastIndexAny(text, chars) == i
  {
    LastIndexAnyFinds(text, chars);
  }

  function LeadingSpaces(text: string): (k: nat)
    ensures k <= |text| && forall i :: 0 <= i < k ==> IsSpace(text[i])
    ensures k < |text| ==> !IsSpace(text[k])
  {
    if text == "" || !IsSpace(text[0]) then 0 else 1 + LeadingSpaces(text[1..])
  }

  function TrimRight(text: string): (r: string)
    ensures r <= text && forall i :: |r| <= i < |text| ==> IsSpace(text[i])
    ensures r != "" ==> !IsSpace(r[|r| - 1])
  {
    if text == "" || !IsSpace(text[|text| - 1]) then text else TrimRight(text[..|text| - 1])
  }

  /** strings.TrimSpace. */
  function TrimSpace(text: string): (r: string)
    ensures |r| <= |text|
  {
    TrimRight(text[LeadingSpaces(text)..])
  }

  /** ASCII whitespace: space, tab, line feed, vertical tab, form feed and carriage return. */
  lemma WhitespaceExactly(c: char)
    ensures IsSpace(c) <==> c in " \t\n\U{0B}\U{0C}\r"
  {}

  lemma LeadingSpacesUnique(text: string, k: nat)
    requires k < |text| && !IsSpace(text[k])
    requires forall i :: 0 <= i < k ==> IsSpace(text[i])
    ensures LeadingSpaces(text) == k
  {}

  /** Trimming takes away the whitespace on both sides and nothing else. */
  lemma TrimExactly(spaces: string, middle: string, after: string)
    requires forall c :: c in spaces || c in after ==> IsSpace(c)
    requires middle != "" ==> !IsSpace(middle[0]) && !IsSpace(middle[|middle| - 1])
    ensures TrimSpace(spaces + middle + after) == middle
  {
    var text := spaces + middle + after;
    if middle == "" {
      forall i | 0 <= i < |text| ensures IsSpace(text[i]) {
        assert text[i] == if i < |spaces| then spaces[i] else after[i - |spaces|];
      }
      assert LeadingSpaces(text) == |text|;
    } else {
      assert forall i :: 0 <= i < |spaces| ==> text[i] in spaces;
      assert text[|spaces|] == middle[0];
      LeadingSpacesUnique(text, |spaces|);
      assert text[|spaces|..] == middle + after;
      TrimRightUnique(middle, after);
    }
  }

  lemma {:induction false} TrimRightUnique(middle: string, after: string)
    requires forall c :: c in after ==> IsSpace(c)
    requires middle != "" && !IsSpace(middle[|middle| - 1])
    ensures TrimRight(middle + after) == middle
    decreases |after|
  {
    if after == "" {
      assert middle + after == middle;
    } else {
      var front, last := after[..|after| - 1], after[|after| - 1];
      assert last in after && forall c :: c in front ==> c in after;
      assert (middle + after)[..|middle + after| - 1] == middle + front;
      TrimRightUnique(middle, front);
    }
  }

  // ---------- segment detection ----------

  const SENTENCE_END := ".!?"
  const PHRASE_END := ",;:"

  predicate IsSpeakableSegment(text: string) {
    var sentence := LastIndexAny(text, SENTENCE_END);
    var phrase := LastIndexAny(text, PHRASE_END);
    if sentence != -1 then sentence > 10
    else if phrase != -1 then phrase > 20
    else |text| > 50
  }

  /** Where the speakable portion of `text` ends; 0 when it has none. */
  function BoundaryEnd(text: string): (end: nat)
    ensures end <= |text|
  {
    var sentence := LastIndexAny(text, SENTENCE_END);
    var phrase := LastIndexAny(text, PHRASE_END);
    if sentence != -1 then sentence + 1
    else if phrase != -1 then phrase + 1
    else if |text| > 50 then LastSpaceOrStart(text)
    else 0
  }

  /** The last whitespace position, or 0 when there is none. */
  function LastSpaceOrStart(text: string): (i: nat)
    ensures i <= |text|
  {
    if text == "" then 0
    else if IsSpace(text[|text| - 1]) then |text| - 1
    else LastSpaceOrStart(text[..|text| - 1])
  }

  function Segment(text: string): (r: string)
    ensures |r| <= |text|
  {
    TrimSpace(text[..BoundaryEnd(text)])
  }

  /** A text is speakable when its last sentence end lies beyond position 10; lacking any, when its last phrase end
      lies beyond position 20; lacking both, when it is longer than 50. */
  lemma SpeakableExactly(text: string, i: int)
    ensures IsLast(text, ".!?", i) ==> (IsSpeakableSegment(text) <==> i > 10)
    ensures NoneOf(text, ".!?") && IsLast(text, ",;:", i) ==> (IsSpeakableSegment(text) <==> i > 20)
    ensures NoneOf(text, ".!?") && NoneOf(text, ",;:") ==> (IsSpeakableSegment(text) <==> |text| > 50)
  {
    LastIndexAnyFinds(text, SENTENCE_END);
    LastIndexAnyFinds(text, PHRASE_END);
  }

  /** And its segment is the trimmed text up to and including that end; lacking both ends, the text before the last
      whitespace of a text longer than 50. */
  lemma SegmentExactly(text: string, i: int)
    ensures IsLast(text, ".!?", i) ==> Segment(text) == TrimSpace(text[..i + 1])
    ensures NoneOf(text, ".!?") && IsLast(text, ",;:", i) ==> Segment(text) == TrimSpace(text[..i + 1])
    ensures NoneOf(text, ".!?") && NoneOf(text, ",;:") && |text| > 50 && IsLastSpace(text, i)
            ==> Segment(text) == TrimSpace(text[..i])
    ensures NoneOf(text, ".!?") && NoneOf(text, ",;:") && |text| <= 50 ==> Segment(text) == ""
  {
    BoundaryExactly(text, i);
  }

  lemma BoundaryExactly(text: string, i: int)
    ensures IsLast(text, SENTENCE_END, i) ==> BoundaryEnd(text) == i + 1
    ensures NoneOf(text, SENTENCE_END) && IsLast(text, PHRASE_END, i) ==> BoundaryEnd(text) == i + 1
    ensures NoneOf(text, SENTENCE_END) && NoneOf(text, PHRASE_END) && |text| > 50 && IsLastSpace(text, i)
            ==> BoundaryEnd(text) == i
    ensures NoneOf(text, SENTENCE_END) && NoneOf(text, PHRASE_END) && |text| <= 50 ==> BoundaryEnd(text) == 0
  {
    LastIndexAnyFinds(text, SENTENCE_END);
    LastIndexAnyFinds(text, PHRASE_END);
    LastSpaceFinds(text);
  }

  ghost predicate IsLastSpace(text: string, i: int) {
    0 <= i < |text| && IsSpace(text[i]) && forall j :: i < j < |text| ==> !IsSpace(text[j])
  }

  lemma {:induction false} LastSpaceFinds(text: string)
    ensures IsLastSpace(text, LastSpaceOrStart(text)) || (LastSpaceOrStart(text) == 0 && NoSpace(text))
    decreases |text|
  {
    if text != "" && !IsSpace(text[|text| - 1]) {
      LastSpaceFinds(text[..|text| - 1]);
    }
  }

  ghost predicate NoSpace(text: string) {
    forall j :: 0 <= j < |text| ==> !IsSpace(text[j])
  }

  method ExtractSpeakableSegment(text: string) returns (segment: string)
    ensures segment == Segment(text)
  {
    var idx := LastIndexAny(text, SENTENCE_END);
    if idx != -1 {
      return TrimSpace(text[..idx + 1]);
    }
    idx := LastIndexAny(text, PHRASE_END);
    if idx != -1 {
      return TrimSpace(text[..idx + 1]);
    }
    if |text| > 50 {
      // break at a word boundary
      var i := |text| - 1;
      assert text[..i + 1] == text;
      while i >= 0
        invariant -1 <= i < |text|
        invariant LastSpaceOrStart(text) == LastSpaceOrStart(text[..i + 1])
      {
        assert text[..i + 1][..i] == text[..i];
        if IsSpace(text[i]) {
          return TrimSpace(text[..i]);
        }
        i := i - 1;
      }
    }
    return "";
  }

  // ---------- the token loop ----------

  /** A token together with whether the provider accepts the segment it may complete. */
  datatype Token = Token(text: string, accepted: bool)

  datatype State = State(buffer: string, dispatched: seq<string>)

  predicate Cuts(text: string) {
    IsSpeakableSegment(text) && Segment(text) != ""
  }

  /** The text left behind is what follows the segment's *length*, not the segment's position. */
  function OnToken(s: State, token: Token): State {
    var text := s.buffer + token.text;
    if Cuts(text) && token.accepted
    then State(text[|Segment(text)|..], s.dispatched + [Segment(text)])
    else State(text, s.dispatched)
  }

  function Run(tokens: seq<Token>): State {
    if tokens == [] then State("", []) else OnToken(Run(tokens[..|tokens| - 1]), tokens[|tokens| - 1])
  }

  /** Closing the token channel dispatches whatever is buffered. */
  function OnClose(s: State, accepted: bool): State {
    if s.buffer != "" && accepted then State("", s.dispatched + [s.buffer]) else s
  }

  function Stream(tokens: seq<Token>): string {
    if tokens == [] then "" else Stream(tokens[..|tokens| - 1]) + tokens[|tokens| - 1].text
  }

  /** Everything said so far followed by everything still to be said. */
  function Spoken(s: State): string {
    Flatten(s.dispatched) + s.buffer
  }

  // ---------- ordered containment of the non-whitespace text ----------

  function NonSpace(text: string): string {
    if text == "" then ""
    else if IsSpace(text[0]) then NonSpace(text[1..])
    else [text[0]] + NonSpace(text[1..])
  }

  /** `a` can be obtained from `b` by deleting characters. */
  predicate Subsequence(a: string, b: string)
    decreases |b|
  {
    a == "" ||
    (b != "" && ((a[0] == b[0] && Subsequence(a[1..], b[1..])) || Subsequence(a, b[1..])))
  }

  lemma {:induction false} SubsequenceReflexive(a: string)
    ensures Subsequence(a, a)
  {
    if a != "" {
      SubsequenceReflexive(a[1..]);
    }
  }

  lemma {:induction false} SubsequenceTransitive(a: string, b: string, c: string)
    requires Subsequence(a, b) && Subsequence(b, c)
    ensures Subsequence(a, c)
    decreases |b| + |c|
  {
    if a != "" {
      if b[0] == c[0] && Subsequence(b[1..], c[1..]) {
        if a[0] == b[0] && Subsequence(a[1..], b[1..]) {
          SubsequenceTransitive(a[1..], b[1..], c[1..]);
        } else {
          SubsequenceTransitive(a, b[1..], c[1..]);
        }
      } else {
        SubsequenceTransitive(a, b, c[1..]);
      }
    }
  }

  lemma {:induction false} SubsequenceAppend(a: string, b: string, c: string, d: string)
    requires Subsequence(a, b) && Subsequence(c, d)
    ensures Subsequence(a + c, b + d)
    decreases |b|
  {
    if b == "" {
      assert a + c == c && b + d == d;
    } else {
      assert (b + d)[1..] == b[1..] + d;
      if a == "" {
        SubsequenceAppend(a, b[1..], c, d);
      } else if a[0] == b[0] && Subsequence(a[1..], b[1..]) {
        SubsequenceAppend(a[1..], b[1..], c, d);
        assert (a + c)[1..] == a[1..] + c;
      } else {
        SubsequenceAppend(a, b[1..], c, d);
      }
    }
  }

  lemma {:induction false} NonSpaceAppend(a: string, b: string)
    ensures NonSpace(a + b) == NonSpace(a) + NonSpace(b)
  {
    if a == "" {
      assert a + b == b;
    } else {
      NonSpaceAppend(a[1..], b);
      assert (a + b)[0] == a[0] && (a + b)[1..] == a[1..] + b;
      Regroup([a[0]], NonSpace(a[1..]), NonSpace(b));
    }
  }

  lemma {:induction false} NonSpaceOfSpaces(a: string)
    requires forall i :: 0 <= i < |a| ==> IsSpace(a[i])
    ensures NonSpace(a) == ""
  {
    if a != "" {
      NonSpaceOfSpaces(a[1..]);
    }
  }

  /** `a` survives inserting `b` before the tail `c`. */
  lemma InsertionKeeps(a: string, b: string, c: string)
    ensures Subsequence(NonSpace(a + c), NonSpace(a + b + c))
  {
    NonSpaceAppend(a, c);
    NonSpaceAppend(a + b, c);
    NonSpaceAppend(a, b);
    SubsequenceReflexive(NonSpace(a));
    SubsequenceReflexive(NonSpace(c));
    assert Subsequence("", NonSpace(b));
    SubsequenceAppend(NonSpace(a), NonSpace(a), "", NonSpace(b));
    assert NonSpace(a) + "" == NonSpace(a);
    SubsequenceAppend(NonSpace(a), NonSpace(a) + NonSpace(b), NonSpace(c), NonSpace(c));
  }

  // ---------- one cut ----------

  /** `text` is `spaces`, then `segment`, then `rest`; the segment is trimmed. */
  ghost predicate Parts(text: string, spaces: string, segment: string, rest: string) {
    && text == spaces + (segment + rest)
    && (forall i :: 0 <= i < |spaces| ==> IsSpace(spaces[i]))
    && segment != "" && !IsSpace(segment[0]) && !IsSpace(segment[|segment| - 1])
  }

  lemma TrimParts(head: string) returns (spaces: string, after: string)
    requires TrimSpace(head) != ""
    ensures Parts(head, spaces, TrimSpace(head), after)
  {
    var k := LeadingSpaces(head);
    var tail := head[k..];
    var segment := TrimRight(tail);
    spaces, after := head[..k], tail[|segment|..];
    SplitAt(head, k);
    SplitAt(tail, |segment|);
    PrefixIsTake(segment, tail);
    OnlySpaces(head, k);
  }

  lemma SplitAt(text: string, k: nat)
    requires k <= |text|
    ensures text == text[..k] + text[k..]
    ensures k < |text| ==> text[k..][0] == text[k]
  {}

  lemma PrefixIsTake(r: string, text: string)
    requires r <= text
    ensures r == text[..|r|] && (r != "" ==> r[0] == text[0])
  {}

  lemma OnlySpaces(text: string, k: nat)
    requires k <= |text| && forall i :: 0 <= i < k ==> IsSpace(text[i])
    ensures forall i :: 0 <= i < k ==> IsSpace(text[..k][i])
  {}

  lemma LongerParts(head: string, spaces: string, segment: string, after: string, more: string)
    requires Parts(head, spaces, segment, after)
    ensures Parts(head + more, spaces, segment, after + more)
  {
    assert head + more == spaces + (segment + (after + more));
  }

  /** A segment is a contiguous, trimmed part of the text, found right behind the leading whitespace. */
  lemma SegmentParts(text: string) returns (spaces: string, rest: string)
    requires Segment(text) != ""
    ensures Parts(text, spaces, Segment(text), rest)
  {
    var end := BoundaryEnd(text);
    var after;
    spaces, after := TrimParts(text[..end]);
    LongerParts(text[..end], spaces, Segment(text), after, text[end..]);
    rest := after + text[end..];
    assert text[..end] + text[end..] == text;
  }

  /** Saying the segment and keeping what follows its length: the leading whitespace is dropped, and as
      many characters are said twice. */
  lemma ShiftedCut(text: string, spaces: string, segment: string, rest: string)
    requires Parts(text, spaces, segment, rest)
    ensures Subsequence(NonSpace(text), NonSpace(segment + text[|segment|..]))
  {
    var kept := spaces + segment;
    var twice := kept[|segment|..];
    assert text == kept + rest;
    assert text[|segment|..] == twice + rest;
    NonSpaceAppend(spaces, segment + rest);
    NonSpaceOfSpaces(spaces);
    assert "" + NonSpace(segment + rest) == NonSpace(segment + rest);
    InsertionKeeps(segment, twice, rest);
    assert segment + twice + rest == segment + (twice + rest);
  }

  lemma CleanIffNoSpaces(text: string, spaces: string, segment: string, rest: string)
    requires Parts(text, spaces, segment, rest)
    ensures segment <= text <==> !IsSpace(text[0])
    ensures segment + text[|segment|..] == text <==> !IsSpace(text[0])
  {
    if spaces == "" {
      assert text == segment + rest;
      assert text[|segment|..] == rest;
    } else {
      assert text[0] == spaces[0];
      assert (segment + text[|segment|..])[0] == segment[0];
    }
  }

  lemma CutEffect(text: string)
    requires Segment(text) != ""
    ensures Subsequence(NonSpace(text), NonSpace(Segment(text) + text[|Segment(text)|..]))
    ensures Segment(text) + text[|Segment(text)|..] == text <==> !IsSpace(text[0])
    ensures Segment(text) <= text <==> !IsSpace(text[0])
  {
    var spaces, rest := SegmentParts(text);
    ShiftedCut(text, spaces, Segment(text), rest);
    CleanIffNoSpaces(text, spaces, Segment(text), rest);
  }

  // ---------- whole runs ----------

  predicate Takes(s: State, token: Token) {
    Cuts(s.buffer + token.text) && token.accepted
  }

  lemma AfterCut(s: State, token: Token)
    requires Takes(s, token)
    ensures var text := s.buffer + token.text;
            && Flatten(OnToken(s, token).dispatched) == Flatten(s.dispatched) + Segment(text)
            && Spoken(OnToken(s, token)) == Flatten(s.dispatched) + (Segment(text) + text[|Segment(text)|..])
  {
    var text := s.buffer + token.text;
    var segment := Segment(text);
    CutEffect(text);
    FlattenSnoc(s.dispatched, segment);
    Regroup(Flatten(s.dispatched), segment, text[|segment|..]);
  }

  lemma SpokenSnoc(s: State, token: string)
    ensures Spoken(s) + token == Flatten(s.dispatched) + (s.buffer + token)
  {}

  lemma TrimKeepsEnd(text: string)
    requires text != "" && !IsSpace(text[|text| - 1])
    ensures TrimSpace(text) != ""
  {
    var k := LeadingSpaces(text);
    assert k < |text| && text[k..][|text| - k - 1] == text[|text| - 1];
  }

  lemma EndIsSpoken(text: string, chars: string, i: nat)
    requires chars == ".!?" || chars == ",;:"
    requires IsLast(text, chars, i)
    ensures TrimSpace(text[..i + 1]) != ""
  {
    assert text[..i + 1][i] == text[i];
    TrimKeepsEnd(text[..i + 1]);
  }

  /** `t` is `s` with `text` buffered and cut behind `segment`, or uncut when there is none. */
  ghost predicate IsCut(t: State, s: State, text: string, segment: string) {
    if segment == "" then t == State(text, s.dispatched)
    else |segment| <= |text| && t == State(text[|segment|..], s.dispatched + [segment])
  }

  /** When a token is followed by a cut, and where: behind the last . ! ? if it lies beyond position 10; lacking any,
      behind the last , ; : if it lies beyond position 20; lacking both, before the last whitespace of more than 50
      characters. A refused segment is not cut. */
  lemma DispatchExactly(s: State, token: Token, i: nat)
    ensures var text, t := s.buffer + token.text, OnToken(s, token);
            && (!token.accepted ==> IsCut(t, s, text, ""))
            && (token.accepted && IsLast(text, ".!?", i) ==>
                  IsCut(t, s, text, if i > 10 then TrimSpace(text[..i + 1]) else ""))
            && (token.accepted && NoneOf(text, ".!?") && IsLast(text, ",;:", i) ==>
                  IsCut(t, s, text, if i > 20 then TrimSpace(text[..i + 1]) else ""))
            && (token.accepted && NoneOf(text, ".!?") && NoneOf(text, ",;:") && |text| > 50 && IsLastSpace(text, i) ==>
                  IsCut(t, s, text, TrimSpace(text[..i])))
            && (NoneOf(text, ".!?") && NoneOf(text, ",;:") && (|text| <= 50 || NoSpace(text)) ==>
                  IsCut(t, s, text, ""))
  {
    var text := s.buffer + token.text;
    SpeakableExactly(text, i);
    SegmentExactly(text, i);
    if IsLast(text, ".!?", i) {
      EndIsSpoken(text, ".!?", i);
    } else if NoneOf(text, ".!?") && IsLast(text, ",;:", i) {
      EndIsSpoken(text, ",;:", i);
    } else if NoneOf(text, ".!?") && NoneOf(text, ",;:") && NoSpace(text) {
      UnbrokenIsUncut(text);
    }
  }

  lemma UnbrokenIsUncut(text: string)
    requires NoneOf(text, ".!?") && NoneOf(text, ",;:") && NoSpace(text)
    ensures Segment(text) == ""
  {
    LastIndexAnyFinds(text, SENTENCE_END);
    LastIndexAnyFinds(text, PHRASE_END);
    LastSpaceFinds(text);
    assert BoundaryEnd(text) == 0;
  }

  lemma TokenLosesNothing(s: State, token: Token)
    ensures |Spoken(OnToken(s, token))| == |Spoken(s) + token.text|
    ensures Subsequence(NonSpace(Spoken(s) + token.text), NonSpace(Spoken(OnToken(s, token))))
  {
    var said, text := Flatten(s.dispatched), s.buffer + token.text;
    SpokenSnoc(s, token.text);
    if Takes(s, token) {
      AfterCut(s, token);
      CutEffect(text);
      var after := Segment(text) + text[|Segment(text)|..];
      NonSpaceAppend(said, text);
      NonSpaceAppend(said, after);
      SubsequenceReflexive(NonSpace(said));
      SubsequenceAppend(NonSpace(said), NonSpace(said), NonSpace(text), NonSpace(after));
    } else {
      CutOrKeep(s, token);
      SubsequenceReflexive(NonSpace(said + text));
    }
  }

  lemma CutOrKeep(s: State, token: Token)
    requires !Takes(s, token)
    ensures OnToken(s, token) == State(s.buffer + token.text, s.dispatched)
  {}

  /** Nothing is lost: lengths balance exactly, and the non-whitespace text of the stream survives in order. */
  lemma {:induction false} RunLosesNothing(tokens: seq<Token>)
    ensures |Spoken(Run(tokens))| == |Stream(tokens)|
    ensures Subsequence(NonSpace(Stream(tokens)), NonSpace(Spoken(Run(tokens))))
    decreases |tokens|
  {
    if tokens != [] {
      var front, token := tokens[..|tokens| - 1], tokens[|tokens| - 1];
      RunLosesNothing(front);
      var s := Run(front);
      TokenLosesNothing(s, token);
      NonSpaceAppend(Stream(front), token.text);
      NonSpaceAppend(Spoken(s), token.text);
      SubsequenceReflexive(NonSpace(token.text));
      SubsequenceAppend(NonSpace(Stream(front)), NonSpace(Spoken(s)), NonSpace(token.text), NonSpace(token.text));
      SubsequenceTransitive(NonSpace(Stream(tokens)), NonSpace(Spoken(s) + token.text),
                            NonSpace(Spoken(Run(tokens))));
    }
  }

  /** No accepted cut is made while the buffered text starts with whitespace. */
  predicate CleanCuts(tokens: seq<Token>) {
    tokens == [] ||
    var front, token := tokens[..|tokens| - 1], tokens[|tokens| - 1];
    CleanCuts(front) && Clean(Run(front), token)
  }

  predicate Clean(s: State, token: Token) {
    var text := s.buffer + token.text;
    Takes(s, token) && text != "" ==> !IsSpace(text[0])
  }

  lemma TokenVerbatimIffClean(s: State, token: Token)
    ensures Spoken(OnToken(s, token)) == Spoken(s) + token.text <==> Clean(s, token)
    ensures Flatten(OnToken(s, token).dispatched) <= Spoken(s) + token.text <==> Clean(s, token)
    ensures Flatten(s.dispatched) <= Flatten(OnToken(s, token).dispatched)
  {
    var said, text := Flatten(s.dispatched), s.buffer + token.text;
    SpokenSnoc(s, token.text);
    if Takes(s, token) {
      AfterCut(s, token);
      CutEffect(text);
      AfterCommonPrefix(said, Segment(text), text);
      SamePrefix(said, Segment(text) + text[|Segment(text)|..], text);
    } else {
      CutOrKeep(s, token);
    }
  }

  lemma SamePrefix(said: string, a: string, b: string)
    ensures said + a == said + b <==> a == b
  {
    assert (said + a)[|said|..] == a && (said + b)[|said|..] == b;
  }

  /** The segments spell out the stream verbatim exactly when every cut was clean; one unclean cut is never repaired. */
  lemma {:induction false} VerbatimIffCleanCuts(tokens: seq<Token>)
    ensures Spoken(Run(tokens)) == Stream(tokens) <==> CleanCuts(tokens)
    ensures !CleanCuts(tokens) ==> !(Flatten(Run(tokens).dispatched) <= Stream(tokens))
    decreases |tokens|
  {
    if tokens != [] {
      var front, token := tokens[..|tokens| - 1], tokens[|tokens| - 1];
      VerbatimIffCleanCuts(front);
      RunLosesNothing(front);
      var s, t := Run(front), Run(tokens);
      TokenVerbatimIffClean(s, token);
      if !CleanCuts(front) {
        NotPrefixStays(Flatten(s.dispatched), Flatten(t.dispatched), Stream(front), token.text);
      }
    }
  }

  lemma AfterCommonPrefix(said: string, segment: string, text: string)
    ensures said + segment <= said + text <==> segment <= text
  {
    if said + segment <= said + text {
      assert segment == (said + segment)[|said|..];
      assert text[..|segment|] == (said + text)[|said|..|said| + |segment|];
    }
  }

  lemma NotPrefixStays(said: string, longer: string, stream: string, token: string)
    requires !(said <= stream) && |said| <= |stream| && said <= longer
    ensures !(longer <= stream + token)
  {
    var i :| 0 <= i < |said| && said[i] != stream[i];
    assert longer[i] != (stream + token)[i];
  }

  // ---------- consequences for a reader of the code ----------

  /** A text that ends its sentence is cut at its end, leaving its last LeadingSpaces(text) characters behind. */
  lemma SentenceCut(text: string)
    requires |text| > 11 && text[|text| - 1] in SENTENCE_END
    ensures IsSpeakableSegment(text) && Segment(text) == text[LeadingSpaces(text)..]
  {
    var end := |text| - 1;
    assert LastIndexAny(text, SENTENCE_END) == end;
    assert text[..BoundaryEnd(text)] == text;
    assert !IsSpace(text[end]);
    var tail := text[LeadingSpaces(text)..];
    assert tail != "" && tail[|tail| - 1] == text[end];
  }

  lemma SentenceStep(s: State, token: Token, k: nat)
    requires s.buffer == "" && token.accepted
    requires |token.text| > 11 && token.text[|token.text| - 1] in SENTENCE_END
    requires k < 2 && LeadingSpaces(token.text) == k
    ensures OnToken(s, token) == State(token.text[|token.text| - k..], s.dispatched + [token.text[k..]])
  {
    SentenceCut(token.text);
    assert s.buffer + token.text == token.text;
  }

  /** A sentence, then a sentence whose token starts with the space between them: the last full stop is
      said again on its own. Only unseparated sentences are said verbatim. */
  lemma SecondSentenceStutters(first: string, second: string)
    requires |first| > 11 && first[|first| - 1] in SENTENCE_END && !IsSpace(first[0])
    requires |second| > 11 && second[|second| - 1] in SENTENCE_END && IsSpace(second[0]) && !IsSpace(second[1])
    ensures var tokens := [Token(first, true), Token(second, true)];
            && OnClose(Run(tokens), true).dispatched == [first, second[1..], [second[|second| - 1]]]
            && Spoken(Run(tokens)) != Stream(tokens)
  {
    var one, two := Token(first, true), Token(second, true);
    var last := second[|second| - 1..];
    LeadingSpacesUnique(first, 0);
    SentenceStep(State("", []), one, 0);
    assert first[0..] == first && first[|first|..] == "";
    LeadingSpacesUnique(second, 1);
    SentenceStep(State("", [first]), two, 1);
    assert last == [second[|second| - 1]];
    RunOfTwo(one, two);
    Listed(first, second[1..], last);
    assert Run([one, two]) == State(last, [first, second[1..]]);
    NotVerbatim(first, second[1..], last, second);
  }

  lemma Listed(a: string, b: string, c: string)
    ensures [] + [a] == [a] && [a] + [b] == [a, b] && [a, b] + [c] == [a, b, c]
  {}

  lemma NotVerbatim(first: string, body: string, last: string, second: string)
    requires body != "" && second != "" && body[0] != second[0]
    ensures Spoken(State(last, [first, body])) != first + second
  {
    FlattenSnoc([first], body);
    FlattenSnoc([], first);
    assert [] + [first] == [first] && [first] + [body] == [first, body];
    assert Flatten([first, body]) == first + body;
    assert (first + body + last)[|first|] == body[0];
    assert (first + second)[|first|] == second[0];
  }

  lemma RunOfTwo(one: Token, two: Token)
    ensures Run([one, two]) == OnToken(OnToken(State("", []), one), two)
    ensures Stream([one, two]) == one.text + two.text
  {
    assert [one, two][..1] == [one] && [one][..0] == [];
    assert Run([one]) == OnToken(State("", []), one);
    assert Stream([one]) == one.text;
  }

  /** For instance. */
  lemma FineDayIsNotClean()
    ensures !CleanCuts([Token("It is a fine day.", true), Token(" How are you now?", true)])
  {
    SecondSentenceStutters("It is a fine day.", " How are you now?");
    VerbatimIffCleanCuts([Token("It is a fine day.", true), Token(" How are you now?", true)]);
  }

  /** An early full stop holds back any amount of text without another one. */
  lemma EarlyFullStopBlocks(start: string, rest: string)
    requires 0 < |start| <= 11 && start[|start| - 1] in SENTENCE_END
    requires forall c :: c in rest ==> c !in SENTENCE_END
    ensures !IsSpeakableSegment(start + rest)
  {
    var text := start + rest;
    assert text[|start| - 1] in SENTENCE_END;
    assert forall i :: |start| <= i < |text| ==> text[i] == rest[i - |start|];
    LastIndexAnyIsLast(text, SENTENCE_END, |start| - 1);
  }

  // ---------- implementation ----------

  /** The token loop, run until the channel closes. */
  method SynthesizeIncremental(tokens: seq<Token>, finalAccepted: bool)
    returns (dispatched: seq<string>, segmentIndex: nat)
    ensures dispatched == OnClose(Run(tokens), finalAccepted).dispatched
    ensures dispatched == Run(tokens).dispatched
            + if Run(tokens).buffer != "" && finalAccepted then [Run(tokens).buffer] else []
    ensures segmentIndex == |dispatched|
    ensures finalAccepted ==> |Flatten(dispatched)| == |Stream(tokens)|
    ensures finalAccepted ==> Subsequence(NonSpace(Stream(tokens)), NonSpace(Flatten(dispatched)))
    ensures finalAccepted ==> (Flatten(dispatched) == Stream(tokens) <==> CleanCuts(tokens))
  {
    var buffer := "";
    dispatched, segmentIndex := [], 0;
    var next := 0;
    while next < |tokens|
      invariant next <= |tokens|
      invariant State(buffer, dispatched) == Run(tokens[..next])
      invariant segmentIndex == |dispatched|
    {
      var token := tokens[next];
      assert tokens[..next + 1][..next] == tokens[..next];
      buffer := buffer + token.text;
      next := next + 1;
      var text := buffer;
      if IsSpeakableSegment(text) {
        var segment := ExtractSpeakableSegment(text);
        if segment != "" {
          CutEffect(text);
          if !token.accepted {
            continue;
          }
          dispatched, segmentIndex := dispatched + [segment], segmentIndex + 1;
          var remaining := text[|segment|..];
          buffer := remaining;
        }
      }
    }

    assert tokens[..next] == tokens;
    RunLosesNothing(tokens);
    VerbatimIffCleanCuts(tokens);
    FlattenSnoc(dispatched, buffer);
    assert buffer == "" ==> Spoken(Run(tokens)) == Flatten(dispatched);
    if |buffer| > 0 {
      if finalAccepted {
        dispatched, segmentIndex := dispatched + [buffer], segmentIndex + 1;
      }
    }
  }
}
