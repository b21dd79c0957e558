/**
 * The agent-executor Lambda: `lambda_handler` fills in the request's
 * defaults and dispatches on `chatbot_type`. `basic` runs a conversation
 * chain over the session's stored history; `agentic` and any other type get
 * a fixed reply. Every reply has status 200.
 *
 * The per-session history table is a map from session id to turns. The
 * conversation chain's model is a function from the history its memory
 * loads and the user input to a reply text or a failure; after a reply the
 * memory saves the user's turn and the reply's turn to the session.
 */
module AgentHandler {
  import opened Wrappers
  import MarkdownUtils
  import Text

  datatype Turn = HumanTurn(content: string) | AiTurn(content: string)

  /** The request event; a field is `None` when the key is missing. */
  datatype Event = Event(
    userInput: Option<string>,
    sessionId: Option<string>,
    chatbotType: Option<string>,
    cleanHistory: Option<bool>)

  datatype Response = Response(statusCode: int, response: string)

  /** How an invocation ends: a returned dict, or a raised `KeyError`. */
  datatype Invocation = Returned(resp: Response) | Raised(missingKey: string)

  /** What `conversation_chain(input=...)` yields: its text, or an exception. */
  datatype ChainOutcome = Reply(text: string) | ChainFailed

  /** The chain's `predict`, given the history its memory loads and the input. */
  type Chain = (seq<Turn>, string) -> ChainOutcome

  const AgenticNotSupported :=
    "The agentic mode is not supported yet. Extend the code as instructed in lab 3 to add it."

  const InternalIssue := "Unable to respond due to an internal issue. Please try again later"

  /** The text naming an unknown type; `chatbot_types` prints as a Python list. */
  function UnsupportedType(chatbotType: string): string {
    "The chatbot_type " + chatbotType + " is not supported." +
    " Please use one of the following types: ['basic', 'agentic']"
  }

  /** The outcome of reading and dispatching the event, before any I/O. */
  datatype Route =
    | MissingKey(key: string)
    | ServeBasic(userInput: string, sessionId: string, cleanHistory: bool)
    | FixedReply(text: string)

  /**
   * Reading the event: `user_input` and `session_id` are required, in that
   * order; `chatbot_type` defaults to "basic" and `clean_history` to false.
   */
  function RouteEvent(e: Event): (r: Route)
    ensures r.MissingKey? <==> e.userInput.None? || e.sessionId.None?
    ensures r.MissingKey? ==>
      r.key == (if e.userInput.None? then "user_input" else "session_id")
    ensures r.ServeBasic? <==>
      e.userInput.Some? && e.sessionId.Some? && e.chatbotType.GetOr("basic") == "basic"
    ensures r.ServeBasic? ==>
      r.userInput == e.userInput.value && r.sessionId == e.sessionId.value &&
      r.cleanHistory == e.cleanHistory.GetOr(false)
    ensures r.FixedReply? && e.chatbotType == Some("agentic") ==> r.text == AgenticNotSupported
    ensures r.FixedReply? && e.chatbotType != Some("agentic") ==>
      e.chatbotType.Some? && r.text == UnsupportedType(e.chatbotType.value)
  {
    if e.userInput.None? then MissingKey("user_input")
    else if e.sessionId.None? then MissingKey("session_id")
    else
      var chatbotType := e.chatbotType.GetOr("basic");
      var cleanHistory := e.cleanHistory.GetOr(false);
      if chatbotType == "basic" then ServeBasic(e.userInput.value, e.sessionId.value, cleanHistory)
      else if chatbotType == "agentic" then FixedReply(AgenticNotSupported)
      else FixedReply(UnsupportedType(chatbotType))
  }

  /** The history stored for a session; a missing session reads as empty. */
  function History(sessions: map<string, seq<Turn>>, sessionId: string): seq<Turn> {
    if sessionId in sessions then sessions[sessionId] else []
  }

  /** The reply text of a basic-mode call, from the chain's outcome. */
  function BasicReply(outcome: ChainOutcome): (text: string)
    ensures outcome.ChainFailed? ==> text == InternalIssue
    ensures outcome.Reply? ==> text == MarkdownUtils.ParseMarkdownContent(outcome.text)
  {
    match outcome
    case Reply(t) => MarkdownUtils.ParseMarkdownContent(t)
    case ChainFailed => InternalIssue
  }

  /** One invocation: what it ends with and what the history table holds after it. */
  datatype Run = Run(result: Invocation, sessions: map<string, seq<Turn>>)

  /** The table the chain's memory loads from: the session dropped first when a clean history is asked for. */
  function Cleared(sessions: map<string, seq<Turn>>, sessionId: string, clean: bool): map<string, seq<Turn>> {
    if clean then sessions - {sessionId} else sessions
  }

  /** The turns the memory saves after the model's outcome: the input and the reply, or none on a failure. */
  function SavedTurns(input: string, outcome: ChainOutcome): (turns: seq<Turn>)
    ensures outcome.ChainFailed? ==> turns == []
    ensures outcome.Reply? ==> turns == [HumanTurn(input), AiTurn(outcome.text)]
  {
    match outcome
    case Reply(t) => [HumanTurn(input), AiTurn(t)]
    case ChainFailed => []
  }

  /**
   * `lambda_handler` on values. Every returned dict has status 200. Only a
   * basic request touches the table, and only its own session: that session
   * is dropped first when a clean history is asked for, the chain reads what
   * is left of it, and a reply is saved after it as two new turns.
   */
  function Handle(e: Event, sessions: map<string, seq<Turn>>, chain: Chain): (run: Run)
    ensures run.result.Returned? ==> run.result.resp.statusCode == 200
    ensures run.result.Raised? <==> e.userInput.None? || e.sessionId.None?
    ensures !RouteEvent(e).ServeBasic? ==> run.sessions == sessions
    ensures RouteEvent(e).ServeBasic? ==>
      var r := RouteEvent(e);
      var read := History(Cleared(sessions, r.sessionId, r.cleanHistory), r.sessionId);
      run.result == Returned(Response(200, BasicReply(chain(read, r.userInput)))) &&
      run.sessions - {r.sessionId} == sessions - {r.sessionId} &&
      History(run.sessions, r.sessionId) == read + SavedTurns(r.userInput, chain(read, r.userInput))
  {
    match RouteEvent(e)
    case MissingKey(k) => Run(Raised(k), sessions)
    case FixedReply(t) => Run(Returned(Response(200, t)), sessions)
    case ServeBasic(input, sid, clean) =>
      var cleared := Cleared(sessions, sid, clean);
      var outcome := chain(History(cleared, sid), input);
      var after := if outcome.Reply? then cleared[sid := History(cleared, sid) + SavedTurns(input, outcome)]
                   else cleared;
      assert after - {sid} == sessions - {sid};
      Run(Returned(Response(200, BasicReply(outcome))), after)
  }

  /**
   * With `clean_history`, the chain reads an empty history: the reply and the
   * new table do not depend on what the session held before, the session
   * then holds only this exchange, and no other session is touched.
   */
  lemma CleanHistoryForgetsSession(e: Event, s1: map<string, seq<Turn>>, s2: map<string, seq<Turn>>, chain: Chain)
    requires RouteEvent(e).ServeBasic? && RouteEvent(e).cleanHistory
    requires s1 - {RouteEvent(e).sessionId} == s2 - {RouteEvent(e).sessionId}
    ensures Handle(e, s1, chain) == Handle(e, s2, chain)
    ensures var r := RouteEvent(e);
      History(Handle(e, s1, chain).sessions, r.sessionId) == SavedTurns(r.userInput, chain([], r.userInput))
    ensures forall id :: id != RouteEvent(e).sessionId ==>
      History(Handle(e, s1, chain).sessions, id) == History(s1, id)
  {
    var r := RouteEvent(e);
    assert History(Cleared(s1, r.sessionId, true), r.sessionId) == [];
    assert Cleared(s1, r.sessionId, true) == Cleared(s2, r.sessionId, true);
    var run := Handle(e, s1, chain);
    forall id | id != r.sessionId
      ensures History(run.sessions, id) == History(s1, id)
    {
      assert id in run.sessions <==> id in run.sessions - {r.sessionId};
      assert id in s1 <==> id in s1 - {r.sessionId};
      if id in s1 {
        assert (run.sessions - {r.sessionId})[id] == run.sessions[id];
        assert (s1 - {r.sessionId})[id] == s1[id];
      }
    }
  }

  /** A clear that happened stays done when the chain then fails: the session is gone and nothing is saved. */
  lemma ClearSurvivesChainFailure(e: Event, sessions: map<string, seq<Turn>>, chain: Chain)
    requires RouteEvent(e).ServeBasic? && RouteEvent(e).cleanHistory
    requires chain([], RouteEvent(e).userInput).ChainFailed?
    ensures Handle(e, sessions, chain) ==
      Run(Returned(Response(200, InternalIssue)), sessions - {RouteEvent(e).sessionId})
  {
    assert History(sessions - {RouteEvent(e).sessionId}, RouteEvent(e).sessionId) == [];
  }

  /**
   * Two basic requests in a row on one session, the second without a clean:
   * the second call's chain reads the first call's history followed by the
   * exchange the first call saved.
   */
  lemma ConversationContinues(e1: Event, e2: Event, sessions: map<string, seq<Turn>>, chain: Chain)
    requires RouteEvent(e1).ServeBasic? && RouteEvent(e2).ServeBasic? && !RouteEvent(e2).cleanHistory
    requires RouteEvent(e1).sessionId == RouteEvent(e2).sessionId
    ensures var r1 := RouteEvent(e1);
      var read1 := History(Cleared(sessions, r1.sessionId, r1.cleanHistory), r1.sessionId);
      var read2 := read1 + SavedTurns(r1.userInput, chain(read1, r1.userInput));
      Handle(e2, Handle(e1, sessions, chain).sessions, chain).result ==
        Returned(Response(200, BasicReply(chain(read2, RouteEvent(e2).userInput))))
  {
  }

  /**
   * Agentic and unknown types answer with a fixed text that depends on
   * neither the history nor the chain, and leave the table as it was, even
   * with `clean_history` set.
   */
  lemma FixedRepliesIgnoreHistory(e: Event, s1: map<string, seq<Turn>>, s2: map<string, seq<Turn>>,
                                  c1: Chain, c2: Chain)
    requires e.userInput.Some? && e.sessionId.Some? && e.chatbotType.Some?
    requires e.chatbotType.value != "basic"
    ensures Handle(e, s1, c1).sessions == s1
    ensures Handle(e, s1, c1).result == Handle(e, s2, c2).result
    ensures Handle(e, s1, c1).result == Returned(Response(200,
      if e.chatbotType.value == "agentic" then AgenticNotSupported
      else UnsupportedType(e.chatbotType.value)))
  {
  }

  /** A missing `chatbot_type` is served exactly as an explicit "basic". */
  lemma MissingTypeIsBasic(e: Event, sessions: map<string, seq<Turn>>, chain: Chain)
    requires e.chatbotType.None?
    ensures Handle(e, sessions, chain) == Handle(e.(chatbotType := Some("basic")), sessions, chain)
  {
  }

  /** A missing `clean_history` is served exactly as an explicit false. */
  lemma MissingCleanIsFalse(e: Event, sessions: map<string, seq<Turn>>, chain: Chain)
    requires e.cleanHistory.None?
    ensures Handle(e, sessions, chain) == Handle(e.(cleanHistory := Some(false)), sessions, chain)
  {
  }

  /** Clearing a session that holds no history changes nothing. */
  lemma CleanOfEmptySessionIsNoOp(e: Event, sessions: map<string, seq<Turn>>, chain: Chain)
    requires RouteEvent(e).ServeBasic? && RouteEvent(e).sessionId !in sessions
    ensures Handle(e.(cleanHistory := Some(true)), sessions, chain) ==
            Handle(e.(cleanHistory := Some(false)), sessions, chain)
  {
    assert sessions - {RouteEvent(e).sessionId} == sessions;
  }

  /** A chain reply without a `<markdown>` element is answered with "". */
  lemma ReplyWithoutMarkdownIsEmpty(e: Event, sessions: map<string, seq<Turn>>, chain: Chain)
    requires RouteEvent(e).ServeBasic?
    requires var r := RouteEvent(e);
      var h := History(Cleared(sessions, r.sessionId, r.cleanHistory), r.sessionId);
      chain(h, RouteEvent(e).userInput).Reply? &&
      !Text.Contains(chain(h, RouteEvent(e).userInput).text, MarkdownUtils.OpenTag)
    ensures Handle(e, sessions, chain).result == Returned(Response(200, ""))
  {
  }

  /** The DynamoDB-backed chat history table, one list of turns per session. */
  class HistoryStore {
    var sessions: map<string, seq<Turn>>

    constructor (initial: map<string, seq<Turn>>)
      ensures sessions == initial
    {
      sessions := initial;
    }

    /** `message_history.messages` for one session. */
    function Messages(sessionId: string): (turns: seq<Turn>)
      reads this
      ensures turns == History(sessions, sessionId)
    {
      History(sessions, sessionId)
    }

    /** `message_history.clear()`: the session's item is deleted, no other. */
    method Clear(sessionId: string)
      modifies this
      ensures sessions == old(sessions) - {sessionId}
      ensures Messages(sessionId) == []
      ensures forall id :: id != sessionId ==> Messages(id) == old(Messages(id))
    {
      sessions := sessions - {sessionId};
    }

    /** `add_messages`: the turns are appended to the session's item, no other changes. */
    method AddMessages(sessionId: string, turns: seq<Turn>)
      modifies this
      ensures sessions == old(sessions)[sessionId := old(Messages(sessionId)) + turns]
      ensures Messages(sessionId) == old(Messages(sessionId)) + turns
    {
      sessions := sessions[sessionId := Messages(sessionId) + turns];
    }
  }

  /** The memory a basic chain is built with: it reads and writes one session's history. */
  datatype ConversationMemory = ConversationMemory(sessionId: string, memoryKey: string, humanPrefix: string)

  /**
   * `get_basic_chatbot_conversation_chain`: clears the session's history
   * when asked, before the memory that supplies `{history}` is built.
   */
  method GetBasicChatbotConversationChain(store: HistoryStore, sessionId: string, cleanHistory: bool)
    returns (memory: ConversationMemory)
    modifies store
    ensures store.sessions == if cleanHistory then old(store.sessions) - {sessionId} else old(store.sessions)
    ensures memory == ConversationMemory(sessionId, "history", "Hu")
  {
    if cleanHistory {
      store.Clear(sessionId);
    }
    memory := ConversationMemory(sessionId, "history", "Hu");
  }

  /**
   * `lambda_handler`: reads the event, builds the chain (clearing first if
   * asked), runs the model on the history its memory loads, lets the memory
   * save the exchange after a reply and turns the outcome into the reply; it
   * ends as `Handle` says.
   */
  method LambdaHandler(store: HistoryStore, e: Event, chain: Chain) returns (result: Invocation)
    modifies store
    ensures result == Handle(e, old(store.sessions), chain).result
    ensures store.sessions == Handle(e, old(store.sessions), chain).sessions
  {
    match RouteEvent(e)
    case MissingKey(k) =>
      result := Raised(k);
    case FixedReply(t) =>
      result := Returned(Response(200, t));
    case ServeBasic(input, sid, clean) =>
      var memory := GetBasicChatbotConversationChain(store, sid, clean);
      var history := store.Messages(memory.sessionId);
      var outcome := chain(history, input);
      if outcome.Reply? {
        store.AddMessages(memory.sessionId, [HumanTurn(input), AiTurn(outcome.text)]);
      }
      var response := if outcome.Reply? then MarkdownUtils.ParseMarkdownContent(outcome.text) else InternalIssue;
      result := Returned(Response(200, response));
  }
}
