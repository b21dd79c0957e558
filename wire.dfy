/**
 * The page and the assistant together. The gateway passes the request's
 * JSON body to the handler as its event and passes back what the handler
 * ends with: the returned dict, or the runtime's error object when the
 * handler raises. The page parses that body whatever its status.
 */
module Wire {
  import opened Wrappers
  import opened ModeSelect
  import Chat
  import AgentHandler

  /** The request body as the handler's event; an undefined `sub` leaves `session_id` out. */
  function ToEvent(req: Chat.Request): (e: AgentHandler.Event)
    ensures e.userInput == Some(req.userInput) && e.sessionId == req.sessionId
    ensures e.cleanHistory == Some(req.cleanHistory)
    ensures e.chatbotType.Some? && NormaliseMode(e.chatbotType) == req.chatbotType
  {
    ModeRoundTrip(req.chatbotType);
    AgentHandler.Event(Some(req.userInput), req.sessionId, Some(ModeName(req.chatbotType)), Some(req.cleanHistory))
  }

  /**
   * The body the page parses: the handler's `response`, or for a raised
   * `KeyError` an `errorMessage` holding the key in quotes. `json` is the
   * text `JSON.stringify` renders the body as.
   */
  function ToBody(inv: AgentHandler.Invocation, json: string): (body: Chat.ResponseBody)
    ensures Chat.HasError(body) <==> inv.Raised?
    ensures inv.Returned? ==> body.response == inv.resp.response
    ensures inv.Raised? ==> body.errorMessage == Some("'" + inv.missingKey + "'")
  {
    match inv
    case Returned(resp) => Chat.ResponseBody(None, resp.response, json)
    case Raised(key) => Chat.ResponseBody(Some("'" + key + "'"), "", json)
  }

  /**
   * What the page can send: `user_input` is always there and the type is
   * always a known one, so the only failure is a missing `session_id`, and
   * the only rejection text never appears.
   */
  lemma PageRequestsRoute(req: Chat.Request)
    ensures var r := AgentHandler.RouteEvent(ToEvent(req));
      (r.MissingKey? <==> req.sessionId.None?) &&
      (r.MissingKey? ==> r.key == "session_id") &&
      (r.ServeBasic? <==> req.sessionId.Some? && req.chatbotType == Basic) &&
      (r.FixedReply? ==> r.text == AgentHandler.AgenticNotSupported)
  {
    var e := ToEvent(req);
    assert e.chatbotType == Some(ModeName(req.chatbotType));
  }

  /**
   * After Clear, a basic request makes the assistant drop the session's
   * history and answer from an empty one, whatever it held before; the
   * session then holds only this exchange and no other session changes.
   */
  lemma ClearedPageStartsFresh(sub: string, message: string, sessions: map<string, seq<AgentHandler.Turn>>,
                               chain: AgentHandler.Chain)
    ensures var run := AgentHandler.Handle(ToEvent(Chat.Request(message, Some(sub), true, Basic)), sessions, chain);
      run.sessions - {sub} == sessions - {sub} &&
      AgentHandler.History(run.sessions, sub) == AgentHandler.SavedTurns(message, chain([], message)) &&
      run.result == AgentHandler.Returned(AgentHandler.Response(200, AgentHandler.BasicReply(chain([], message))))
  {
    var e := ToEvent(Chat.Request(message, Some(sub), true, Basic));
    assert e.chatbotType == Some("basic");
    assert AgentHandler.History(sessions - {sub}, sub) == [];
  }

  /**
   * A user without a `sub` gets an error reply and leaves every history
   * as it was: the default text, or with the debug flag the key named.
   */
  lemma MissingSubIsAnError(req: Chat.Request, sessions: map<string, seq<AgentHandler.Turn>>,
                            chain: AgentHandler.Chain, json: string)
    requires req.sessionId.None?
    ensures var run := AgentHandler.Handle(ToEvent(req), sessions, chain);
      run.sessions == sessions &&
      Chat.ReplyMessage(ToBody(run.result, json), false).content == Chat.DefaultErrorMessage &&
      "Error: 'session_id'" <= Chat.ReplyMessage(ToBody(run.result, json), true).content
  {
    HandleWithoutSession(req, sessions, chain);
    ReplyToRaised("session_id", json);
    assert "Error: " + "'session_id'" == "Error: 'session_id'";
  }

  /** Without a `sub` the handler raises on `session_id` and saves nothing. */
  lemma HandleWithoutSession(req: Chat.Request, sessions: map<string, seq<AgentHandler.Turn>>,
                             chain: AgentHandler.Chain)
    requires req.sessionId.None?
    ensures var run := AgentHandler.Handle(ToEvent(req), sessions, chain);
      run.sessions == sessions && run.result == AgentHandler.Raised("session_id")
  {
  }

  /** A raised key shows the default text, or with the debug flag the quoted key. */
  lemma ReplyToRaised(key: string, json: string)
    ensures Chat.ReplyMessage(ToBody(AgentHandler.Raised(key), json), false).content == Chat.DefaultErrorMessage
    ensures "Error: " + "'" + key + "'" <= Chat.ReplyMessage(ToBody(AgentHandler.Raised(key), json), true).content
  {
  }

  /**
   * One send from the page through the assistant and back: the page gains
   * the user's message and the reply made from the handler's outcome, the
   * history table changes as the handler says, and the pending clean is
   * spent.
   */
  method Exchange(app: Chat.ChatApp, store: AgentHandler.HistoryStore, signIn: Chat.SignIn, message: string,
                  chain: AgentHandler.Chain, json: string)
    modifies app, store
    ensures signIn.SignInFailed? ==>
      app.messages == old(app.messages) && store.sessions == old(store.sessions)
    ensures signIn.SignedIn? ==>
      var req := Chat.Request(message, signIn.sub, old(app.cleanHistory), old(app.assistantMode));
      var run := AgentHandler.Handle(ToEvent(req), old(store.sessions), chain);
      store.sessions == run.sessions && !app.cleanHistory &&
      app.messages == old(app.messages) +
        [Chat.Message(message, true), Chat.ReplyMessage(ToBody(run.result, json), old(app.debugMode))]
    ensures app.debugMode == old(app.debugMode) && app.assistantMode == old(app.assistantMode)
  {
    var request := app.BeginSend(signIn, message);
    if request.Some? {
      var result := AgentHandler.LambdaHandler(store, ToEvent(request.value), chain);
      app.ReceiveReply(Chat.Parsed(ToBody(result, json)));
    }
  }

  /**
   * Clear, then send in basic mode: the page shows exactly the new
   * exchange, the assistant answered from an empty history, and the
   * session's history holds only what this exchange saved.
   */
  method ClearThenSend(app: Chat.ChatApp, store: AgentHandler.HistoryStore, sub: string, message: string,
                       chain: AgentHandler.Chain, json: string)
    requires app.assistantMode == Basic
    modifies app, store
    ensures store.sessions - {sub} == old(store.sessions) - {sub}
    ensures AgentHandler.History(store.sessions, sub) == AgentHandler.SavedTurns(message, chain([], message))
    ensures app.messages == [Chat.Message(message, true),
                             Chat.Message(AgentHandler.BasicReply(chain([], message)), false)]
    ensures !app.cleanHistory
  {
    app.Clear();
    ClearedPageStartsFresh(sub, message, store.sessions, chain);
    Exchange(app, store, Chat.SignedIn(Some(sub)), message, chain, json);
  }
}
