/** The "talk to your brain" chat: a keyword classifier that picks one of
    four canned replies, and an append-only message log. */
module Chat {
  import opened Options
  import opened Text

  datatype Sender = User | Brain

  /** A chat message. The `timestamp` field is not modelled. */
  datatype Message = Message(id: int, content: string, sender: Sender, sources: Option<seq<string>>)

  /** The page's state: the input box and the message log. */
  datatype ChatState = ChatState(input: string, log: seq<Message>)

  const GreetingText :=
    "Hello! I'm your digital brain. I've learned "
    + "from all your memories, thoughts, and "
    + "experiences. Ask me anything you've ever felt, "
    + "known, or written about."

  const Greeting := Message(1, GreetingText, Brain, None)

  const InitialChat := ChatState("", [Greeting])

  const SuggestedQuestions: seq<string> := [
    "What do I believe about fear?",
    "What advice would I give to my child?",
    "What was my biggest lesson in 2024?",
    "How have my thoughts on family changed?",
    "What makes me feel most alive?",
    "What wisdom would I share with my younger self?"
  ]

  /** The citation list attached to every reply, whatever the question. */
  const ReplySources: seq<string> := [
    "Memory: January 2025 - 'Lessons from Father'",
    "Reflection: January 2025 - 'Learning to Let Go'"
  ]

  /** The four reply buckets, in priority order. */
  datatype Topic = Fear | Parenting | Growth | General

  const FearReply :=
    "Based on your memories, you believe that "
    + "courage isn't the absence of fear, but feeling "
    + "fear and choosing to act anyway. This wisdom "
    + "came from your father, who taught you that the "
    + "bravest thing you can do is act despite your "
    + "fears. You've applied this philosophy "
    + "throughout your life, especially during "
    + "difficult moments."

  const ParentingReply :=
    "Your philosophy on parenting centers around "
    + "raising children with both courage and "
    + "kindness. You believe in loving unconditionally "
    + "while also teaching responsibility. You want "
    + "your children to know they are supported, but "
    + "also challenged to grow. The balance between "
    + "support and challenge is something you think "
    + "about deeply."

  const GrowthReply :=
    "One of your most profound recent lessons has "
    + "been about letting go. You've learned that it's "
    + "not about forgetting or dismissing what "
    + "happened, but about choosing not to carry the "
    + "weight of it anymore. Sometimes the bravest "
    + "thing you can do is put down what you've been "
    + "carrying."

  const GeneralReply :=
    "I've been thinking about your question based on "
    + "everything you've shared with me. Your thoughts "
    + "often center around themes of courage, family, "
    + "growth, and finding meaning in everyday "
    + "moments. Would you like me to explore any of "
    + "these areas more deeply?"

  function ReplyFor(t: Topic): string
  {
    match t
    case Fear => FearReply
    case Parenting => ParentingReply
    case Growth => GrowthReply
    case General => GeneralReply
  }

  /** The keyword tests, on the lower-cased question. */
  predicate MentionsFear(q: string) { Contains(Lower(q), "fear") }

  predicate MentionsParenting(q: string) { Contains(Lower(q), "child") || Contains(Lower(q), "parenting") }

  predicate MentionsGrowth(q: string) { Contains(Lower(q), "lesson") || Contains(Lower(q), "learn") }

  /** The bucket `generateResponse` picks: the first keyword group the
      question mentions, in the order fear, parenting, growth. */
  function Classify(q: string): (t: Topic)
    ensures t == Fear <==> MentionsFear(q)
    ensures t == Parenting <==> !MentionsFear(q) && MentionsParenting(q)
    ensures t == Growth <==> !MentionsFear(q) && !MentionsParenting(q) && MentionsGrowth(q)
    ensures t == General <==> !MentionsFear(q) && !MentionsParenting(q) && !MentionsGrowth(q)
  {
    if MentionsFear(q) then Fear
    else if MentionsParenting(q) then Parenting
    else if MentionsGrowth(q) then Growth
    else General
  }

  /** `generateResponse`: the reply of the first keyword group the question
      mentions, the general reply when it mentions none. */
  function GenerateResponse(q: string): (r: string)
    ensures MentionsFear(q) ==> r == FearReply
    ensures !MentionsFear(q) && MentionsParenting(q) ==> r == ParentingReply
    ensures !MentionsFear(q) && !MentionsParenting(q) && MentionsGrowth(q) ==> r == GrowthReply
    ensures !MentionsFear(q) && !MentionsParenting(q) && !MentionsGrowth(q) ==> r == GeneralReply
  {
    ReplyFor(Classify(q))
  }

  /** The reply depends only on the lower-cased question: questions that
      differ only in letter case get the same reply. */
  lemma ReplyIgnoresCase(q1: string, q2: string)
    requires Lower(q1) == Lower(q2)
    ensures GenerateResponse(q1) == GenerateResponse(q2)
  {
    assert Classify(q1) == Classify(q2);
  }

  /** The four replies are pairwise different, so the reply tells which
      bucket the question fell into. */
  lemma RepliesDistinct(t1: Topic, t2: Topic)
    requires t1 != t2
    ensures ReplyFor(t1) != ReplyFor(t2)
  {
    assert |FearReply| == 321 && |ParentingReply| == 325;
    assert |GrowthReply| == 278 && |GeneralReply| == 252;
  }

  /** "fear" outranks every other keyword. */
  lemma FearWins(q: string)
    requires Contains(Lower(q), "fear")
    ensures GenerateResponse(q) == ReplyFor(Fear)
  {
  }

  /** The first suggested question, in any letter case, gets the fear reply. */
  lemma FirstSuggestionGetsFearReply(q: string)
    requires Lower(q) == Lower(SuggestedQuestions[0])
    ensures GenerateResponse(q) == ReplyFor(Fear)
  {
    var l := Lower(SuggestedQuestions[0]);
    assert l[24] == 'f' && l[25] == 'e' && l[26] == 'a' && l[27] == 'r';
    assert l[24..28] == "fear";
    assert OccursAt(l, "fear", 24);
  }

  /** The send button is enabled exactly when the input is not blank: its
      trimmed text is empty exactly when every character is whitespace. */
  predicate CanSend(s: ChatState)
    ensures CanSend(s) <==> !AllWhitespace(s.input)
  {
    TrimEmptyIffBlank(s.input);
    Trim(s.input) != ""
  }

  /** `handleSendMessage` (also run by Enter): a blank input changes nothing;
      otherwise the user's message, untrimmed, and the brain's reply with
      the fixed citations are appended with the next two ids, and the input
      is cleared. */
  function Send(s: ChatState): (r: ChatState)
    ensures AllWhitespace(s.input) ==> r == s
    ensures !AllWhitespace(s.input) ==>
              && r.input == ""
              && |r.log| == |s.log| + 2
              && r.log[..|s.log|] == s.log
              && r.log[|s.log|] == Message(|s.log| + 1, s.input, User, None)
              && r.log[|s.log| + 1] == Message(|s.log| + 2, GenerateResponse(s.input), Brain, Some(ReplySources))
  {
    TrimEmptyIffBlank(s.input);
    if Trim(s.input) == "" then s
    else
      var user := Message(|s.log| + 1, s.input, User, None);
      var brain := Message(|s.log| + 2, GenerateResponse(s.input), Brain, Some(ReplySources));
      ChatState("", s.log + [user, brain])
  }

  /** Sending changes the page exactly when the send button is enabled. */
  lemma SendActsIffEnabled(s: ChatState)
    ensures Send(s) != s <==> CanSend(s)
  {
    TrimEmptyIffBlank(s.input);
    if CanSend(s) {
      assert |Send(s).log| != |s.log|;
    }
  }

  /** The suggested questions are shown while the log holds only the greeting. */
  predicate ShowSuggestions(s: ChatState)
  {
    |s.log| == 1
  }

  /** A user message followed by the brain's answer to it. */
  predicate IsExchange(u: Message, b: Message)
  {
    && u.sender == User && u.sources == None && !AllWhitespace(u.content)
    && b.sender == Brain && b.sources == Some(ReplySources)
    && b.content == GenerateResponse(u.content)
  }

  /** The shape of every log the page can show: the greeting, then
      question-answer pairs, numbered 1, 2, 3, ... */
  predicate WellFormedLog(log: seq<Message>)
  {
    && |log| % 2 == 1
    && log[0] == Greeting
    && (forall k :: 0 <= k < |log| ==> log[k].id == k + 1)
    && (forall k :: 0 < k < |log| && k % 2 == 1 ==> IsExchange(log[k], log[k + 1]))
  }

  /** Sending keeps the log well formed. */
  lemma SendKeepsLogWellFormed(s: ChatState)
    requires WellFormedLog(s.log)
    ensures WellFormedLog(Send(s).log)
  {
    var n := |s.log|;
    if !AllWhitespace(s.input) {
      var u := Message(n + 1, s.input, User, None);
      var b := Message(n + 2, GenerateResponse(s.input), Brain, Some(ReplySources));
      SendAppendsExchange(s);
      assert Send(s).log == s.log + [u, b];
      AppendExchange(s.log, u, b);
    }
  }

  /** A non-blank send appends a question and its answer. */
  lemma SendAppendsExchange(s: ChatState)
    requires !AllWhitespace(s.input)
    ensures var n := |s.log|;
            && Send(s).log == s.log + [Message(n + 1, s.input, User, None), Message(n + 2, GenerateResponse(s.input), Brain, Some(ReplySources))]
            && IsExchange(Send(s).log[n], Send(s).log[n + 1])
  {
    TrimEmptyIffBlank(s.input);
  }

  lemma AppendExchange(log: seq<Message>, u: Message, b: Message)
    requires WellFormedLog(log) && IsExchange(u, b)
    requires u.id == |log| + 1 && b.id == |log| + 2
    ensures WellFormedLog(log + [u, b])
  {
    var r := log + [u, b];
    assert r[0] == log[0];
    AppendNumbered(log, u, b);
    AppendPaired(log, u, b, IsExchange);
  }

  lemma AppendNumbered(log: seq<Message>, u: Message, b: Message)
    requires forall k :: 0 <= k < |log| ==> log[k].id == k + 1
    requires u.id == |log| + 1 && b.id == |log| + 2
    ensures var r := log + [u, b];
            forall k :: 0 <= k < |r| ==> r[k].id == k + 1
  {
    var r := log + [u, b];
    forall k | 0 <= k < |r| ensures r[k].id == k + 1 {
      if k < |log| {
        assert r[k] == log[k];
      }
    }
  }

  /** Appending a pair that satisfies `paired` to a log whose odd positions
      start such pairs keeps that shape. */
  lemma AppendPaired(log: seq<Message>, u: Message, b: Message, paired: (Message, Message) -> bool)
    requires |log| % 2 == 1
    requires forall k :: 0 < k < |log| && k % 2 == 1 ==> paired(log[k], log[k + 1])
    requires paired(u, b)
    ensures var r := log + [u, b];
            forall k :: 0 < k < |r| && k % 2 == 1 ==> paired(r[k], r[k + 1])
  {
    var n := |log|;
    var r := log + [u, b];
    forall k | 0 < k < |r| && k % 2 == 1 ensures paired(r[k], r[k + 1]) {
      if k < n {
        assert r[k] == log[k] && r[k + 1] == log[k + 1];
      } else {
        assert k == n && r[k] == u && r[k + 1] == b;
      }
    }
  }

  /** In a well-formed log ids are distinct and increasing. */
  lemma IdsIncrease(log: seq<Message>)
    requires WellFormedLog(log)
    ensures forall i, j :: 0 <= i < j < |log| ==> log[i].id < log[j].id
  {
  }

  /** The suggestions are shown exactly while no question has been asked. */
  lemma SuggestionsIffNoQuestion(s: ChatState)
    requires WellFormedLog(s.log)
    ensures ShowSuggestions(s) <==> forall k :: 0 <= k < |s.log| ==> s.log[k].sender == Brain
  {
    if !ShowSuggestions(s) {
      assert IsExchange(s.log[1], s.log[2]);
    }
  }

  /** The page's events: typing (or clicking a suggested question, which
      puts it in the input box) and sending. */
  datatype ChatEvent = Type(text: string) | SendMessage

  /** Typing changes only the input box; sending acts exactly when the send
      button is enabled, and then only appends to the log. */
  function Step(s: ChatState, e: ChatEvent): (r: ChatState)
    ensures e.Type? ==> r.input == e.text && r.log == s.log
    ensures e.SendMessage? ==> (r != s <==> CanSend(s))
    ensures |s.log| <= |r.log| && r.log[..|s.log|] == s.log
  {
    match e
    case Type(text) => s.(input := text)
    case SendMessage =>
      SendActsIffEnabled(s);
      SendOnlyAppends(s);
      Send(s)
  }

  /** Sending never rewrites the log, it only appends. */
  lemma SendOnlyAppends(s: ChatState)
    ensures |s.log| <= |Send(s).log| && Send(s).log[..|s.log|] == s.log
  {
    if AllWhitespace(s.input) {
      assert Send(s).log == s.log;
      PrefixOfSelf(s.log);
    }
  }

  lemma PrefixOfSelf<T>(a: seq<T>)
    ensures a[..|a|] == a
  {
  }

  function Run(s: ChatState, es: seq<ChatEvent>): ChatState
    decreases |es|
  {
    if es == [] then s else Run(Step(s, es[0]), es[1..])
  }

  /** One event keeps the log well formed and only appends to it. */
  lemma StepAppendOnly(s: ChatState, e: ChatEvent)
    requires WellFormedLog(s.log)
    ensures WellFormedLog(Step(s, e).log)
    ensures |s.log| <= |Step(s, e).log| && Step(s, e).log[..|s.log|] == s.log
  {
    if e == SendMessage {
      SendKeepsLogWellFormed(s);
      if !AllWhitespace(s.input) {
        SendAppendsExchange(s);
      }
    }
  }

  /** The log is append-only and stays well formed, whatever is typed and
      sent. */
  lemma {:induction false} LogAppendOnly(s: ChatState, es: seq<ChatEvent>)
    requires WellFormedLog(s.log)
    ensures WellFormedLog(Run(s, es).log)
    ensures |s.log| <= |Run(s, es).log| && Run(s, es).log[..|s.log|] == s.log
    decreases |es|
  {
    if es != [] {
      var t := Step(s, es[0]);
      StepAppendOnly(s, es[0]);
      LogAppendOnly(t, es[1..]);
      PrefixOfPrefix(s.log, t.log, Run(t, es[1..]).log);
    }
  }

  lemma PrefixOfPrefix<T>(a: seq<T>, b: seq<T>, c: seq<T>)
    requires |a| <= |b| && b[..|a|] == a
    requires |b| <= |c| && c[..|b|] == b
    ensures |a| <= |c| && c[..|a|] == a
  {
    assert c[..|a|] == c[..|b|][..|a|];
  }

  /** From the greeting, every reachable log is well formed, and once a
      question has been sent the suggestions never come back. */
  lemma ReachableLogsWellFormed(es: seq<ChatEvent>, more: seq<ChatEvent>)
    ensures WellFormedLog(Run(InitialChat, es).log)
    ensures !ShowSuggestions(Run(InitialChat, es)) ==> !ShowSuggestions(Run(Run(InitialChat, es), more))
  {
    LogAppendOnly(InitialChat, es);
    LogAppendOnly(Run(InitialChat, es), more);
  }
}
