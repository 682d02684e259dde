/** The assistant chat page (app/assistant/page.tsx): one component that owns the
    transcript, the input box, the loading flag, the selected hero, the assistant
    mode and the session id, and the handlers that change them.

    Each request to the message endpoint is modelled by the outcome it resolves
    to, passed in by the caller, and it completes before the next event; the
    handlers return the request body they would send, if any. */
module AssistantChat {
  import opened JsText

  // ----- data model -----

  datatype Role = User | Assistant

  datatype Mode = Chat | Pick | Counter

  /** The welcome message's literal id "welcome", or an id read from the clock
      (`Date.now()`), whose value is not modelled. */
  datatype MessageId = Welcome | ClockStamp

  datatype Message = Message(id: MessageId, role: Role, content: string)

  /** What a request to the message endpoint resolved to: the reply, or the
      thrown value's message (None when the thrown value is not an `Error`). */
  datatype Outcome = Success(reply: string) | Failure(error: Option<string>)

  /** The JSON body sent to the message endpoint. */
  datatype ChatRequest = ChatRequest(message: string, sessionId: string)

  const WelcomeText: string :=
    "Hello! I'm your Dota 2 AI Assistant. I can help you with hero picks, counter strategies, and gameplay tips. What would you like to know?"

  const NoSessionText: string :=
    "Sorry, there was an issue with my connection (no session). Please try refreshing the page."

  const PickQuestion: string := "What heroes should I pick in the current meta?"

  const ErrorPrefix: string := "Sorry, I encountered an error: "

  const ErrorSuffix: string := ". Please try again."

  function WelcomeMessage(): Message
  {
    Message(Welcome, Assistant, WelcomeText)
  }

  function UserMessage(text: string): Message
  {
    Message(ClockStamp, User, text)
  }

  function AssistantMessage(text: string): Message
  {
    Message(ClockStamp, Assistant, text)
  }

  // ----- message texts -----

  /** The question sent when a hero is selected in counter mode. */
  function CounterQuestion(heroName: string): (q: string)
    ensures |q| == |heroName| + 18
    ensures q[17..|q| - 1] == heroName
  {
    "How do I counter " + heroName + "?"
  }

  /** The assistant text shown when a request fails. */
  function ErrorText(error: Option<string>): (t: string)
    ensures ErrorPrefix <= t
    ensures error.Some? ==> |t| == |ErrorPrefix| + |error.value| + |ErrorSuffix|
    ensures error.Some? ==> t[|ErrorPrefix|..|ErrorPrefix| + |error.value|] == error.value
  {
    ErrorPrefix + (if error.Some? then error.value else "Unknown error") + ErrorSuffix
  }

  /** Wrapping a text between a fixed prefix and suffix loses nothing. */
  lemma {:induction false} WrappedInjective(prefix: string, a: string, b: string, suffix: string)
    requires prefix + a + suffix == prefix + b + suffix
    ensures a == b
  {
    var wa, wb := prefix + a + suffix, prefix + b + suffix;
    assert |a| == |b|;
    assert a == wa[|prefix|..|prefix| + |a|];
    assert b == wb[|prefix|..|prefix| + |b|];
  }

  /** Different heroes give different counter questions: the question names the hero. */
  lemma CounterQuestionInjective(a: string, b: string)
    ensures CounterQuestion(a) == CounterQuestion(b) <==> a == b
  {
    if CounterQuestion(a) == CounterQuestion(b) {
      WrappedInjective("How do I counter ", a, b, "?");
    }
  }

  /** Different error messages give different assistant texts. */
  lemma ErrorTextInjective(a: string, b: string)
    ensures ErrorText(Some(a)) == ErrorText(Some(b)) <==> a == b
  {
    if ErrorText(Some(a)) == ErrorText(Some(b)) {
      WrappedInjective(ErrorPrefix, a, b, ErrorSuffix);
    }
  }

  /** The assistant text for a request that was sent: the reply, or the error text. */
  function OutcomeText(outcome: Outcome): (r: string)
    ensures outcome.Success? ==> r == outcome.reply
    ensures outcome.Failure? ==> ErrorPrefix <= r
  {
    match outcome
    case Success(reply) => reply
    case Failure(error) => ErrorText(error)
  }

  /** The one assistant message `getAIResponse` appends, given the session it sees. */
  function Response(sessionId: Option<string>, outcome: Outcome): (m: Message)
    ensures m.role == Assistant && m.id == ClockStamp
    ensures !Truthy(sessionId) ==> m.content == NoSessionText
    ensures Truthy(sessionId) ==> m.content == OutcomeText(outcome)
  {
    if !Truthy(sessionId) then AssistantMessage(NoSessionText)
    else AssistantMessage(OutcomeText(outcome))
  }

  /** The request `getAIResponse` sends for a question, given the session it sees. */
  function RequestFor(question: string, sessionId: Option<string>): (r: Option<ChatRequest>)
    ensures r.None? <==> !Truthy(sessionId)
    ensures r.Some? ==> r.value.message == question && Some(r.value.sessionId) == sessionId
  {
    if Truthy(sessionId) then Some(ChatRequest(question, sessionId.value)) else None
  }

  /** The guard of `handleSendMessage`: a non-blank input and a session. The
      test `input.trim() === ""` is stated as `IsBlank(input)`; `SendAcceptedIff`
      proves the two agree. */
  predicate SendAccepted(input: string, sessionId: Option<string>)
    ensures SendAccepted(input, sessionId) ==> input != "" && Truthy(sessionId)
  {
    !IsBlank(input) && Truthy(sessionId)
  }

  /** A send goes ahead exactly when there is a session and the trimmed input is
      not empty, that is, when the input holds a character that is not white space. */
  lemma SendAcceptedIff(input: string, sessionId: Option<string>)
    ensures SendAccepted(input, sessionId) <==> Trim(input) != "" && Truthy(sessionId)
    ensures SendAccepted(input, sessionId) <==>
      Truthy(sessionId) && exists i :: 0 <= i < |input| && !IsWhiteSpace(input[i])
  {
    TrimEmptyIffBlank(input);
  }

  // ----- the page component -----

  class AssistantPage {
    var messages: seq<Message>
    var input: string
    var isLoading: bool
    var selectedHero: Option<string>
    var assistantMode: Mode
    var sessionId: Option<string>

    /** Between events the transcript still starts with the welcome message and
        nothing is loading. */
    ghost predicate Valid()
      reads this
    {
      && |messages| >= 1
      && messages[0] == WelcomeMessage()
      && !isLoading
    }

    /** The state on mount. */
    constructor ()
      ensures Valid()
      ensures messages == [WelcomeMessage()] && input == "" && !isLoading
      ensures selectedHero == None && assistantMode == Chat && sessionId == None
    {
      messages := [WelcomeMessage()];
      input := "";
      isLoading := false;
      selectedHero := None;
      assistantMode := Chat;
      sessionId := None;
    }

    /** The send button's `disabled` expression: the button is enabled exactly
        when nothing is loading and `HandleSendMessage` would send. */
    function SendDisabled(): (r: bool)
      reads this
      ensures !r <==> !isLoading && SendAccepted(input, sessionId)
    {
      isLoading || IsBlank(input) || !Truthy(sessionId)
    }

    /** The textarea's `disabled` expression: always off in chat mode, always on
        in pick mode, and in counter mode on only while no hero is selected and
        the input is blank. */
    function TextareaDisabled(): (r: bool)
      reads this
      ensures assistantMode == Chat ==> !r
      ensures assistantMode == Pick ==> r
      ensures assistantMode == Counter ==>
        (r <==> !Truthy(selectedHero) && IsBlank(input))
    {
      assistantMode == Pick || (assistantMode == Counter && !Truthy(selectedHero) && IsBlank(input))
    }

    /** Session start-up: the new id is stored at once. Registering it with the
        backend is not modelled; its result never reaches the state. */
    method InitializeSession(newSessionId: string)
      requires Valid()
      modifies this
      ensures Valid()
      ensures sessionId == Some(newSessionId)
      ensures messages == old(messages) && input == old(input) && isLoading == old(isLoading)
      ensures selectedHero == old(selectedHero) && assistantMode == old(assistantMode)
    {
      sessionId := Some(newSessionId);
    }

    /** Typing into the textarea. */
    method SetInput(text: string)
      requires Valid()
      modifies this
      ensures Valid()
      ensures input == text
      ensures messages == old(messages) && isLoading == old(isLoading) && sessionId == old(sessionId)
      ensures selectedHero == old(selectedHero) && assistantMode == old(assistantMode)
    {
      input := text;
    }

    /** `getAIResponse`: without a session, append the no-session message and send
        nothing; otherwise send the question and append the reply or the error
        text. Appends exactly one assistant message and ends not loading. */
    method GetAIResponse(userMessageContent: string, outcome: Outcome) returns (request: Option<ChatRequest>)
      requires Valid()
      modifies this
      ensures Valid()
      ensures request == RequestFor(userMessageContent, old(sessionId))
      ensures messages == old(messages) + [Response(old(sessionId), outcome)]
      ensures !isLoading
      ensures input == old(input) && sessionId == old(sessionId)
      ensures selectedHero == old(selectedHero) && assistantMode == old(assistantMode)
    {
      if !Truthy(sessionId) {
        messages := messages + [AssistantMessage(NoSessionText)];
        isLoading := false;
        return None;
      }
      isLoading := true;
      request := Some(ChatRequest(userMessageContent, sessionId.value));
      // The request is in flight: the send button is disabled until it resolves.
      assert SendDisabled();
      messages := messages + [AssistantMessage(OutcomeText(outcome))];
      isLoading := false;
    }

    /** `handleSendMessage`: with a blank input or no session nothing changes;
        otherwise the untrimmed input is appended as the user's message, the input
        is cleared and one assistant message follows. */
    method HandleSendMessage(outcome: Outcome) returns (request: Option<ChatRequest>)
      requires Valid()
      modifies this
      ensures Valid()
      ensures sessionId == old(sessionId) && selectedHero == old(selectedHero)
      ensures assistantMode == old(assistantMode)
      ensures !SendAccepted(old(input), old(sessionId)) ==>
        messages == old(messages) && input == old(input) && request == None
      ensures SendAccepted(old(input), old(sessionId)) ==>
        && messages == old(messages) + [UserMessage(old(input)), AssistantMessage(OutcomeText(outcome))]
        && input == ""
        && request == Some(ChatRequest(old(input), old(sessionId).value))
        && SendDisabled()
    {
      if !SendAccepted(input, sessionId) {
        return None;
      }
      var userMessageText := input;
      ghost var before := messages;
      messages := messages + [UserMessage(userMessageText)];
      input := "";
      request := GetAIResponse(userMessageText, outcome);
      assert Response(sessionId, outcome) == AssistantMessage(OutcomeText(outcome));
      assert messages == before + [UserMessage(userMessageText), AssistantMessage(OutcomeText(outcome))];
    }

    /** `handleKeyDown`: Enter without Shift sends; any other key leaves the
        transcript, the input and the session as they are. */
    method HandleKeyDown(key: string, shiftKey: bool, outcome: Outcome) returns (request: Option<ChatRequest>)
      requires Valid()
      modifies this
      ensures Valid()
      ensures sessionId == old(sessionId) && selectedHero == old(selectedHero)
      ensures assistantMode == old(assistantMode)
      ensures !(key == "Enter" && !shiftKey && SendAccepted(old(input), old(sessionId))) ==>
        messages == old(messages) && input == old(input) && request == None
      ensures key == "Enter" && !shiftKey && SendAccepted(old(input), old(sessionId)) ==>
        && messages == old(messages) + [UserMessage(old(input)), AssistantMessage(OutcomeText(outcome))]
        && input == ""
        && request == Some(ChatRequest(old(input), old(sessionId).value))
    {
      request := None;
      if key == "Enter" && !shiftKey {
        request := HandleSendMessage(outcome);
      }
    }

    /** `handleHeroSelect`: the hero is always recorded; in counter mode the
        counter question is appended and answered, on every call. */
    method HandleHeroSelect(heroName: string, outcome: Outcome) returns (request: Option<ChatRequest>)
      requires Valid()
      modifies this
      ensures Valid()
      ensures selectedHero == Some(heroName)
      ensures input == old(input) && sessionId == old(sessionId) && assistantMode == old(assistantMode)
      ensures old(assistantMode) == Counter ==>
        && messages == old(messages) + [UserMessage(CounterQuestion(heroName)), Response(old(sessionId), outcome)]
        && request == RequestFor(CounterQuestion(heroName), old(sessionId))
      ensures old(assistantMode) != Counter ==> messages == old(messages) && request == None
    {
      selectedHero := Some(heroName);
      request := None;
      if assistantMode == Counter {
        var question := CounterQuestion(heroName);
        messages := messages + [UserMessage(question)];
        request := GetAIResponse(question, outcome);
      }
    }

    /** `handleModeChange`: set the mode and clear the input and the selected
        hero; switching to pick appends the pick question and its answer. */
    method HandleModeChange(mode: Mode, outcome: Outcome) returns (request: Option<ChatRequest>)
      requires Valid()
      modifies this
      ensures Valid()
      ensures assistantMode == mode && input == "" && selectedHero == None
      ensures sessionId == old(sessionId)
      ensures mode == Pick ==>
        && messages == old(messages) + [UserMessage(PickQuestion), Response(old(sessionId), outcome)]
        && request == RequestFor(PickQuestion, old(sessionId))
      ensures mode != Pick ==> messages == old(messages) && request == None
      ensures SendDisabled()
      ensures TextareaDisabled() <==> mode != Chat
    {
      assistantMode := mode;
      input := "";
      selectedHero := None;
      request := None;
      if mode == Pick {
        messages := messages + [UserMessage(PickQuestion)];
        request := GetAIResponse(PickQuestion, outcome);
      }
    }

    /** `handleQuickQuestion`: nothing without a session; otherwise the question
        is appended and answered. */
    method HandleQuickQuestion(question: string, outcome: Outcome) returns (request: Option<ChatRequest>)
      requires Valid()
      modifies this
      ensures Valid()
      ensures input == old(input) && sessionId == old(sessionId)
      ensures selectedHero == old(selectedHero) && assistantMode == old(assistantMode)
      ensures !Truthy(old(sessionId)) ==> messages == old(messages) && request == None
      ensures Truthy(old(sessionId)) ==>
        && messages == old(messages) + [UserMessage(question), AssistantMessage(OutcomeText(outcome))]
        && request == Some(ChatRequest(question, old(sessionId).value))
    {
      if !Truthy(sessionId) {
        return None;
      }
      messages := messages + [UserMessage(question)];
      request := GetAIResponse(question, outcome);
    }
  }

  // ----- scenarios -----

  /** Selecting Pudge twice in counter mode asks the counter question twice:
      there is no de-duplication. */
  method RepeatedCounterSelection(first: Outcome, second: Outcome) returns (transcript: seq<Message>)
    ensures transcript == [
      WelcomeMessage(),
      UserMessage("How do I counter Pudge?"), AssistantMessage(OutcomeText(first)),
      UserMessage("How do I counter Pudge?"), AssistantMessage(OutcomeText(second))]
  {
    assert CounterQuestion("Pudge") == "How do I counter Pudge?";
    var page := new AssistantPage();
    page.InitializeSession("session");
    var request := page.HandleModeChange(Counter, first);
    request := page.HandleHeroSelect("Pudge", first);
    request := page.HandleHeroSelect("Pudge", second);
    transcript := page.messages;
  }

  /** Switching to pick mode before the session exists still appends the pick
      question, answered by the no-session message, and sends nothing. */
  method PickBeforeSession(outcome: Outcome) returns (transcript: seq<Message>, request: Option<ChatRequest>)
    ensures transcript == [WelcomeMessage(), UserMessage(PickQuestion), AssistantMessage(NoSessionText)]
    ensures request == None
  {
    var page := new AssistantPage();
    request := page.HandleModeChange(Pick, outcome);
    transcript := page.messages;
  }
}
