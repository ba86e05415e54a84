/**
  The onboarding survey (slack_bot.py): a per-user conversation that moves
  through `not_started -> question1 -> question2 -> completed`. The start
  button puts the user at the first question; each later message goes
  through `get_openai_response`, which asks the chat model for a reply and,
  once a question has been asked, accepts the message as the answer when
  `is_relevant_answer` judges it relevant. Both model calls are inputs.
 */
module Survey {
  import opened Wrappers
  import opened Text
  import opened ModelCall

  datatype Step = NotStarted | Question1 | Question2 | Completed

  datatype Role = UserTurn | AssistantTurn

  /** One `{"role", "content"}` entry of the conversation history. */
  datatype Turn = Turn(role: Role, content: string)

  /** A user's `conversation_state` entry. */
  datatype SurveyState = SurveyState(
    step: Step,
    answer1: Option<string>,
    answer2: Option<string>,
    history: seq<Turn>,
    question1Asked: bool,
    question2Asked: bool)

  /** The entry created for a user seen for the first time. */
  const Fresh: SurveyState := SurveyState(NotStarted, None, None, [], false, false)

  /** The outcome of the chat-completion call: it raised, or it answered
      with a message whose content may be missing. */
  datatype ChatReply = ChatRaised | Chat(content: Option<string>)

  const CompletedText: string := "Thank you! Your responses have been recorded. The survey is now complete."
  const NotStartedText: string :=
    "Please click the '\U{1F680} Yes, I'd love to help!' button above to begin the community survey."
  const EmptyReplyText: string := "I'm sorry, I didn't catch that. Could you please try again?"
  const ErrorText: string := "Sorry, I'm having trouble responding right now. Please try again!"

  /** The messages the button handler sends on the user's behalf; they are
      never recorded in the history. */
  const Triggers: seq<string> := ["Please ask the first question", "Please ask the second question"]

  const MotivationTopic: string := "motivation to join MLAI"
  const GoalsTopic: string := "goals and expectations from MLAI community"

  // ---------------------------------------------------------------------
  // `is_relevant_answer`

  const NonAnswers: seq<string> :=
    ["why", "what", "who", "how", "explain", "i don't know", "hm", "interesting", "wanna say", "thankyou"]
  const GoalKeywords: seq<string> :=
    ["network", "learn", "grow", "connect", "skill", "job", "career", "project", "knowledge",
     "community", "mentor", "base", "build"]
  const MotivationKeywords: seq<string> :=
    ["interest", "passion", "learn", "grow", "ai", "ml", "machine", "technology", "career",
     "curious", "improve"]
  const FallbackRejects: seq<string> := ["why", "what", "who", "explain"]

  /** Rejected before any keyword or classifier is consulted: fewer than
      three characters after stripping, or a short message (under six
      words) containing a non-answer phrase. */
  predicate Rejected(message: string) {
    || |Strip(message)| < 3
    || (ContainsAny(Lower(message), NonAnswers) && |Words(message)| < 6)
  }

  /** Accepted on keywords alone for the goals and the motivation
      questions. */
  predicate KeywordAccepted(message: string, topic: string) {
    || (Contains(topic, "goals and expectations") && ContainsAny(Lower(message), GoalKeywords))
    || (Contains(topic, "motivation") && ContainsAny(Lower(message), MotivationKeywords))
  }

  /** `is_relevant_answer`. `verdict` is the classifier's reply content, or
      `None` when the call raised or returned no content. */
  function IsRelevantAnswer(message: string, topic: string, verdict: Option<string>): (r: bool)
    ensures Rejected(message) ==> !r
    ensures !Rejected(message) && KeywordAccepted(message, topic) ==> r
    ensures !Rejected(message) && !KeywordAccepted(message, topic) ==>
              match verdict
              case Some(v) => r == IsYes(v)
              case None => r == (|Strip(message)| > 3 && !ContainsAny(Lower(message), FallbackRejects))
  {
    if |Strip(message)| < 3 then false
    else if ContainsAny(Lower(message), NonAnswers) && |Words(message)| < 6 then false
    else if Contains(topic, "goals and expectations") && ContainsAny(Lower(message), GoalKeywords) then true
    else if Contains(topic, "motivation") && ContainsAny(Lower(message), MotivationKeywords) then true
    else
      match verdict
      case Some(v) => IsYes(v)
      case None => |Strip(message)| > 3 && !ContainsAny(Lower(message), FallbackRejects)
  }

  // ---------------------------------------------------------------------
  // `get_openai_response`

  /** The text the bot sends back for a chat reply: the content, unless it
      is missing or blank. */
  function BotText(content: Option<string>): string {
    if content.None? || Strip(content.value) == "" then EmptyReplyText else content.value
  }

  /** A text that ends in a non-space character is not blank. */
  lemma EndsSolid(s: string)
    requires |s| > 0 && !IsSpace(s[|s| - 1])
    ensures Strip(s) != ""
  {
  }

  /** The bot never sends a blank reply. */
  lemma BotTextNotBlank(content: Option<string>)
    ensures Strip(BotText(content)) != ""
  {
    if BotText(content) == EmptyReplyText {
      EndsSolid(EmptyReplyText);
    }
  }

  /** The topic `is_relevant_answer` is asked about while a question is open. */
  function OpenTopic(step: Step): string {
    if step == Question1 then MotivationTopic else GoalsTopic
  }

  /** One message to a user already in the table: the new state and the
      reply sent. `chat` is the chat model's outcome and `relevant` what
      `is_relevant_answer` says of the message for the open question's
      topic (it is consulted only once that question has been asked). */
  function Respond(st: SurveyState, message: string, chat: ChatReply, relevant: bool): (SurveyState, string)
  {
    if st.step == Completed then (st, CompletedText)
    else if st.step == NotStarted then (st, NotStartedText)
    else
      match chat
      case ChatRaised => (st, ErrorText)
      case Chat(content) =>
        var bot := BotText(content);
        if message in Triggers then (st, bot)
        else (Advance(Logged(st, message, bot), message, relevant), bot)
  }

  /** The history with the user's message and the bot's reply appended. */
  function Logged(st: SurveyState, message: string, bot: string): SurveyState {
    st.(history := st.history + [Turn(UserTurn, message), Turn(AssistantTurn, bot)])
  }

  /** The step bookkeeping after an ordinary message while a question is
      open: the first such message marks the question asked; a later one is
      recorded as the answer when it is relevant, moving to the next step. */
  function Advance(st: SurveyState, message: string, relevant: bool): SurveyState {
    if st.step == Question1 then
      if !st.question1Asked then st.(question1Asked := true)
      else if relevant then st.(answer1 := Some(message), step := Question2, question2Asked := false)
      else st
    else if st.step == Question2 then
      if !st.question2Asked then st.(question2Asked := true)
      else if relevant then st.(answer2 := Some(message), step := Completed)
      else st
    else st
  }

  type Conversations = map<string, SurveyState>

  function StateOf(states: Conversations, user: string): SurveyState {
    if user in states then states[user] else Fresh
  }

  /** `get_openai_response(user_id, user_message)`: creates the user's entry
      if needed, then responds, judging relevance against the open
      question's topic with the classifier's reply `verdict`. */
  function GetResponse(states: Conversations, user: string, message: string, chat: ChatReply, verdict: Option<string>)
    : (r: (Conversations, string))
    ensures user in r.0 && r.0.Keys == states.Keys + {user}
    ensures forall v :: v in states && v != user ==> r.0[v] == states[v]
    ensures var st := StateOf(states, user);
            (r.0[user], r.1) == Respond(st, message, chat, IsRelevantAnswer(message, OpenTopic(st.step), verdict))
  {
    var st := StateOf(states, user);
    var (st', reply) := Respond(st, message, chat, IsRelevantAnswer(message, OpenTopic(st.step), verdict));
    (states[user := st'], reply)
  }

  // ---------------------------------------------------------------------
  // `handle_survey_start_button`

  datatype ButtonResult =
    | AlreadyCompleted          // the message is replaced by a completion notice
    | Started(question: string) // the message is replaced by the first question

  /** What `get_openai_response` answers to a trigger while a question is
      open (`TriggerAnswered`): the error text when the chat call raised,
      the chat model's text otherwise. */
  function TriggerReply(chat: ChatReply): string {
    match chat
    case ChatRaised => ErrorText
    case Chat(content) => BotText(content)
  }

  /** A click on the start button: unless the survey is complete, puts the
      user at the first question, not yet asked, and shows what the chat
      model says to the first trigger. The handler's fallback question for
      a blank reply is left out: that reply is never blank
      (`TriggerReplyNotBlank`). */
  function StartButton(states: Conversations, user: string, chat: ChatReply): (r: (Conversations, ButtonResult))
    ensures user in r.0 && r.0.Keys == states.Keys + {user}
    ensures forall v :: v in states && v != user ==> r.0[v] == states[v]
  {
    var st := StateOf(states, user);
    if st.step == Completed then (states[user := st], AlreadyCompleted)
    else (states[user := st.(step := Question1, question1Asked := false)], Started(TriggerReply(chat)))
  }

  /** `get_openai_response` on a trigger while a question is open: the
      reply is `TriggerReply` and the state does not change. This is the
      call the button handler makes with the first trigger. */
  lemma TriggerAnswered(st: SurveyState, trigger: string, chat: ChatReply, relevant: bool)
    requires trigger in Triggers
    requires st.step == Question1 || st.step == Question2
    ensures Respond(st, trigger, chat, relevant) == (st, TriggerReply(chat))
  {
  }

  /** The reply to a trigger is never blank, so the button always shows it. */
  lemma TriggerReplyNotBlank(chat: ChatReply)
    ensures Strip(TriggerReply(chat)) != ""
  {
    if chat.ChatRaised? {
      EndsSolid(ErrorText);
    } else {
      BotTextNotBlank(chat.content);
    }
  }

  // ---------------------------------------------------------------------
  // Properties of the step machine

  /** The completed step is absorbing: every message gets the fixed
      completion text and changes nothing, and the button reports the
      survey as done. */
  lemma CompletedIsAbsorbing(states: Conversations, user: string, message: string, chat: ChatReply, verdict: Option<string>)
    requires user in states && states[user].step == Completed
    ensures GetResponse(states, user, message, chat, verdict) == (states, CompletedText)
    ensures StartButton(states, user, chat) == (states, AlreadyCompleted)
  {
    assert states[user := states[user]] == states;
  }

  /** Before the button is clicked every message gets the same prompt and
      changes nothing. */
  lemma NotStartedWaitsForButton(st: SurveyState, message: string, chat: ChatReply, relevant: bool)
    requires st.step == NotStarted
    ensures Respond(st, message, chat, relevant) == (st, NotStartedText)
  {
  }

  /** A click on an unfinished survey moves it to the first question, not
      yet asked, keeping answers and history, and shows the reply to the
      first trigger. */
  lemma ButtonStartsQuestion1(states: Conversations, user: string, chat: ChatReply)
    requires StateOf(states, user).step != Completed
    ensures var st := StateOf(states, user);
            var (after, result) := StartButton(states, user, chat);
            && after[user] == st.(step := Question1, question1Asked := false)
            && result == Started(TriggerReply(chat))
            && Respond(after[user], Triggers[0], chat, false) == (after[user], TriggerReply(chat))
  {
    var after := StartButton(states, user, chat).0;
    TriggerAnswered(after[user], Triggers[0], chat, false);
  }

  /** The trigger messages never touch the state. */
  lemma TriggersKeepState(st: SurveyState, message: string, chat: ChatReply, relevant: bool)
    requires message in Triggers
    ensures Respond(st, message, chat, relevant).0 == st
  {
  }

  /** While a question is open: a failed chat call changes nothing and
      answers with the error text; a successful one answers with the
      model's text (or the fixed retry prompt when it is blank) and, unless
      the message is a trigger, appends exactly the user's message and that
      reply to the history. */
  lemma ChatOutcome(st: SurveyState, message: string, chat: ChatReply, relevant: bool)
    requires st.step == Question1 || st.step == Question2
    ensures chat.ChatRaised? ==> Respond(st, message, chat, relevant) == (st, ErrorText)
    ensures chat.Chat? ==> Respond(st, message, chat, relevant).1 == BotText(chat.content)
    ensures chat.Chat? && message !in Triggers ==>
              Respond(st, message, chat, relevant).0.history
                == st.history + [Turn(UserTurn, message), Turn(AssistantTurn, BotText(chat.content))]
  {
  }

  /** The first question: the first ordinary message only marks it asked;
      after that, the step advances exactly when the answer is relevant,
      and the accepted message becomes `answer1`. */
  lemma Question1Transition(st: SurveyState, message: string, content: Option<string>, relevant: bool)
    requires st.step == Question1 && message !in Triggers
    ensures var after := Respond(st, message, Chat(content), relevant).0;
            && (after.step == Question2 <==> st.question1Asked && relevant)
            && (after.step == Question2 ==> after.answer1 == Some(message) && !after.question2Asked)
            && (after.step != Question2 ==> after.step == Question1 && after.answer1 == st.answer1)
            && after.question1Asked
            && after.answer2 == st.answer2
  {
  }

  /** The second question: the same pattern; an accepted answer completes
      the survey. */
  lemma Question2Transition(st: SurveyState, message: string, content: Option<string>, relevant: bool)
    requires st.step == Question2 && message !in Triggers
    ensures var after := Respond(st, message, Chat(content), relevant).0;
            && (after.step == Completed <==> st.question2Asked && relevant)
            && (after.step == Completed ==> after.answer2 == Some(message))
            && (after.step != Completed ==> after.step == Question2 && after.answer2 == st.answer2)
            && after.question2Asked
            && after.answer1 == st.answer1
  {
  }

  /** The button answers the trigger without going through the `asked`
      flag, so the user's first real reply to the first question is taken
      as the bot asking it: it is logged but never recorded as an answer,
      however relevant. */
  lemma FirstReplyAfterButtonIsNotRecorded(
    states: Conversations, user: string, click: ChatReply,
    message: string, content: Option<string>, verdict: Option<string>)
    requires StateOf(states, user).step != Completed
    requires message !in Triggers
    ensures var clicked := StartButton(states, user, click).0;
            var after := GetResponse(clicked, user, message, Chat(content), verdict).0[user];
            && after.step == Question1
            && after.question1Asked
            && after.answer1 == StateOf(states, user).answer1
  {
    var clicked := StartButton(states, user, click).0;
    var st := clicked[user];
    assert st.step == Question1 && !st.question1Asked;
    Question1Transition(st, message, content, IsRelevantAnswer(message, OpenTopic(st.step), verdict));
  }

  /** A click while the second question is open sends the user back to the
      first question and keeps the first answer already recorded. */
  lemma ButtonRestartsFromQuestion2(states: Conversations, user: string, chat: ChatReply)
    requires user in states && states[user].step == Question2
    ensures var after := StartButton(states, user, chat).0[user];
            after.step == Question1 && after.answer1 == states[user].answer1
  {
  }

  /** Only the classifier-independent heuristics and the keyword lists can
      settle an answer without the classifier: when two classifier replies
      lead to different verdicts, the message passed the rejections and
      matched no keyword. */
  lemma ClassifierDecidesOnlyOpenCases(message: string, topic: string, v1: Option<string>, v2: Option<string>)
    requires IsRelevantAnswer(message, topic, v1) != IsRelevantAnswer(message, topic, v2)
    ensures !Rejected(message) && !KeywordAccepted(message, topic)
  {
  }

  // ---------------------------------------------------------------------
  // Consistency over whole conversations

  function StepRank(s: Step): nat {
    match s
    case NotStarted => 0
    case Question1 => 1
    case Question2 => 2
    case Completed => 3
  }

  /** What every reachable state satisfies: the history alternates user and
      assistant turns, starting with the user; a user past the first
      question has a first answer, and a completed user has both. */
  predicate Consistent(st: SurveyState) {
    && |st.history| % 2 == 0
    && (forall i :: 0 <= i < |st.history| ==>
          st.history[i].role == (if i % 2 == 0 then UserTurn else AssistantTurn))
    && (StepRank(st.step) >= 2 ==> st.answer1.Some?)
    && (st.step == Completed ==> st.answer2.Some?)
  }

  predicate AllConsistent(states: Conversations) {
    forall u :: u in states ==> Consistent(states[u])
  }

  /** Messages never move a survey backwards, and move it at most one step. */
  lemma RespondAdvancesAtMostOneStep(st: SurveyState, message: string, chat: ChatReply, relevant: bool)
    ensures var after := Respond(st, message, chat, relevant).0;
            StepRank(st.step) <= StepRank(after.step) <= StepRank(st.step) + 1
    ensures st.history <= Respond(st, message, chat, relevant).0.history
  {
  }

  lemma RespondKeepsConsistency(st: SurveyState, message: string, chat: ChatReply, relevant: bool)
    requires Consistent(st)
    ensures Consistent(Respond(st, message, chat, relevant).0)
  {
    if st.step in {Question1, Question2} && chat.Chat? && message !in Triggers {
      LoggedKeepsConsistency(st, message, BotText(chat.content));
      AdvanceKeepsConsistency(Logged(st, message, BotText(chat.content)), message, relevant);
    }
  }

  lemma LoggedKeepsConsistency(st: SurveyState, message: string, bot: string)
    requires Consistent(st)
    ensures Consistent(Logged(st, message, bot))
  {
    var h := st.history;
    var h' := Logged(st, message, bot).history;
    assert forall i :: 0 <= i < |h| ==> h'[i] == h[i];
  }

  lemma AdvanceKeepsConsistency(st: SurveyState, message: string, relevant: bool)
    requires Consistent(st)
    ensures Consistent(Advance(st, message, relevant))
  {
  }

  /** An event the bot reacts to: a direct message or a click on the start
      button, each with the outcomes of the model calls it makes. */
  datatype Event =
    | Message(user: string, text: string, chat: ChatReply, verdict: Option<string>)
    | Click(user: string, reply: ChatReply)

  function Apply(states: Conversations, e: Event): Conversations {
    match e
    case Message(u, text, chat, verdict) => GetResponse(states, u, text, chat, verdict).0
    case Click(u, reply) => StartButton(states, u, reply).0
  }

  /** The table after a sequence of events. */
  function Run(states: Conversations, events: seq<Event>): Conversations
    decreases |events|
  {
    if |events| == 0 then states else Run(Apply(states, events[0]), events[1..])
  }

  lemma ApplyKeepsConsistency(states: Conversations, e: Event)
    requires AllConsistent(states)
    ensures AllConsistent(Apply(states, e))
  {
    var st := StateOf(states, e.user);
    assert Consistent(st);
    if e.Message? {
      RespondKeepsConsistency(st, e.text, e.chat, IsRelevantAnswer(e.text, OpenTopic(st.step), e.verdict));
    }
  }

  /** Starting from no conversations, or any consistent table, every
      sequence of messages and clicks leaves every user consistent: no
      survey is completed without both answers recorded. */
  lemma {:induction false} RunKeepsConsistency(states: Conversations, events: seq<Event>)
    requires AllConsistent(states)
    ensures AllConsistent(Run(states, events))
    ensures forall u :: u in Run(states, events) && Run(states, events)[u].step == Completed ==>
              Run(states, events)[u].answer1.Some? && Run(states, events)[u].answer2.Some?
    decreases |events|
  {
    if |events| > 0 {
      ApplyKeepsConsistency(states, events[0]);
      RunKeepsConsistency(Apply(states, events[0]), events[1..]);
    }
  }
}
