/**
 * The chat page's state and its handlers: the displayed messages, the
 * one-shot `clean_history` flag, the debug flag and the assistant mode.
 *
 * `handleSendMessage` awaits the backend between appending the user's
 * message and appending the reply; the model splits it at that point into
 * `BeginSend` and `ReceiveReply`, and `HandleSendMessage` runs both around
 * a backend given as a function. Sends are taken one at a time.
 */
module Chat {
  import opened Wrappers
  import opened ModeSelect
  import BrowserStorage
  import Text

  datatype Message = Message(content: string, isUser: bool)

  const DefaultErrorMessage :=
    "Error while preparing your answer. Check your connectivity to the backend."

  const DebugKey := "debugMode"

  /** What the sign-in lookups give: an exception, or the user's attributes with their `sub`. */
  datatype SignIn = SignInFailed | SignedIn(sub: Option<string>)

  /**
   * The JSON request body. An undefined `sub` is dropped by `JSON.stringify`,
   * so the body then has no `session_id` at all.
   */
  datatype Request = Request(userInput: string, sessionId: Option<string>, cleanHistory: bool, chatbotType: Mode)

  /**
   * The parsed response body: its `errorMessage`, its `response` text ("" when
   * absent) and the text `JSON.stringify(responseData, null, 2)` renders it as.
   */
  datatype ResponseBody = ResponseBody(errorMessage: Option<string>, response: string, json: string)

  /** How the request ends: `fetch` or `response.json()` threw, or a body was parsed. */
  datatype FetchOutcome = Threw | Parsed(body: ResponseBody)

  /** `responseData.errorMessage` is truthy: present and not the empty string. */
  predicate HasError(body: ResponseBody) {
    body.errorMessage.Some? && body.errorMessage.value != ""
  }

  /** The stored debug flag: on only when exactly "true" is stored. */
  function ParseDebugMode(stored: Option<string>): (on: bool)
    ensures on <==> stored == Some("true")
  {
    stored == Some("true")
  }

  /**
   * The message shown for a parsed body. With an error and the debug flag on
   * it begins with "Error: " and the error text and embeds the whole body;
   * with an error and the flag off it is the default error text; without an
   * error it is the body's `response`.
   */
  function ReplyMessage(body: ResponseBody, debugMode: bool): (m: Message)
    ensures !m.isUser
    ensures HasError(body) && debugMode ==>
      "Error: " + body.errorMessage.value <= m.content && Text.Contains(m.content, body.json)
    ensures HasError(body) && !debugMode ==> m.content == DefaultErrorMessage
    ensures !HasError(body) ==> m.content == body.response
  {
    if HasError(body) && debugMode then
      var head := "Error: " + body.errorMessage.value + "\n\nDetails: \n\n```\n\n";
      var content := head + body.json + "\n\n```";
      assert Text.OccursAt(content, body.json, |head|) by {
        assert content[|head|..|head| + |body.json|] == body.json;
      }
      Message(content, false)
    else if HasError(body) then
      Message(DefaultErrorMessage, false)
    else
      Message(body.response, false)
  }

  /** The one message appended after the user's: from the body, or the default error text. */
  function AssistantReply(outcome: FetchOutcome, debugMode: bool): (m: Message)
    ensures !m.isUser
    ensures outcome.Threw? ==> m.content == DefaultErrorMessage
    ensures outcome.Parsed? ==> m == ReplyMessage(outcome.body, debugMode)
  {
    match outcome
    case Threw => Message(DefaultErrorMessage, false)
    case Parsed(body) => ReplyMessage(body, debugMode)
  }

  class ChatApp {
    var messages: seq<Message>
    var cleanHistory: bool
    var debugMode: bool
    var assistantMode: Mode

    /** The initial state: no messages, no pending clean, debug off, basic mode. */
    constructor ()
      ensures messages == [] && !cleanHistory && !debugMode && assistantMode == Basic
    {
      messages := [];
      cleanHistory := false;
      debugMode := false;
      assistantMode := Basic;
    }

    /** The first effect: the debug flag and the mode are read from storage. */
    method LoadPreferences(storage: BrowserStorage.LocalStorage)
      modifies this
      ensures debugMode == ParseDebugMode(storage.GetItem(DebugKey))
      ensures assistantMode == NormaliseMode(storage.GetItem(ModeKey))
      ensures messages == old(messages) && cleanHistory == old(cleanHistory)
    {
      debugMode := ParseDebugMode(storage.GetItem(DebugKey));
      assistantMode := NormaliseMode(storage.GetItem(ModeKey));
    }

    /**
     * The part of `handleSendMessage` before the request: once signed in,
     * the user's message is appended and the request carries the message,
     * the user's `sub`, the pending clean flag and the mode. A failed
     * sign-in lookup ends the handler with nothing appended.
     */
    method BeginSend(signIn: SignIn, message: string) returns (request: Option<Request>)
      modifies this
      ensures signIn.SignInFailed? ==> request.None? && messages == old(messages)
      ensures signIn.SignedIn? ==>
        request == Some(Request(message, signIn.sub, cleanHistory, assistantMode)) &&
        messages == old(messages) + [Message(message, true)]
      ensures cleanHistory == old(cleanHistory) && debugMode == old(debugMode)
      ensures assistantMode == old(assistantMode)
    {
      if signIn.SignInFailed? {
        request := None;
        return;
      }
      messages := messages + [Message(message, true)];
      request := Some(Request(message, signIn.sub, cleanHistory, assistantMode));
    }

    /**
     * The part after the request: a parsed body turns the pending clean
     * off, whether or not it carries an error; a throw leaves it armed.
     * Either way exactly one non-user message is appended.
     */
    method ReceiveReply(outcome: FetchOutcome)
      modifies this
      ensures messages == old(messages) + [AssistantReply(outcome, debugMode)]
      ensures cleanHistory == (if outcome.Threw? then old(cleanHistory) else false)
      ensures debugMode == old(debugMode) && assistantMode == old(assistantMode)
    {
      match outcome
      case Threw =>
        messages := messages + [Message(DefaultErrorMessage, false)];
      case Parsed(body) =>
        cleanHistory := false;
        var reply := ReplyMessage(body, debugMode);
        messages := messages + [reply];
    }

    /** `handleSendMessage` against a backend that answers each request with an outcome. */
    method HandleSendMessage(signIn: SignIn, message: string, backend: Request -> FetchOutcome)
      returns (request: Option<Request>)
      modifies this
      ensures signIn.SignInFailed? ==>
        request.None? && messages == old(messages) && cleanHistory == old(cleanHistory)
      ensures signIn.SignedIn? ==>
        request == Some(Request(message, signIn.sub, old(cleanHistory), old(assistantMode))) &&
        messages == old(messages) +
          [Message(message, true), AssistantReply(backend(request.value), old(debugMode))] &&
        cleanHistory == (if backend(request.value).Threw? then old(cleanHistory) else false)
      ensures debugMode == old(debugMode) && assistantMode == old(assistantMode)
    {
      request := BeginSend(signIn, message);
      if request.Some? {
        ReceiveReply(backend(request.value));
      }
    }

    /** The Clear button: the conversation is emptied and the next request asks for a clean history. */
    method Clear()
      modifies this
      ensures messages == [] && cleanHistory
      ensures debugMode == old(debugMode) && assistantMode == old(assistantMode)
    {
      messages := [];
      cleanHistory := true;
    }

    /** The debug switch's callback. */
    method SetDebugMode(value: bool)
      modifies this
      ensures debugMode == value
      ensures messages == old(messages) && cleanHistory == old(cleanHistory)
      ensures assistantMode == old(assistantMode)
    {
      debugMode := value;
    }

    /** The mode selector's callback. */
    method OnModeSelected(mode: Mode)
      modifies this
      ensures assistantMode == mode
      ensures messages == old(messages) && cleanHistory == old(cleanHistory)
      ensures debugMode == old(debugMode)
    {
      assistantMode := mode;
    }
  }

  /**
   * Choosing a mode on the selector: storage, the selector and the page
   * all end up with the chosen mode, and the next request is sent in it.
   */
  method ChooseMode(app: ChatApp, selector: SelectMode, storage: BrowserStorage.LocalStorage, selected: Mode)
    requires app != selector as object
    modifies app, selector, storage
    ensures storage.items == old(storage.items)[ModeKey := ModeName(selected)]
    ensures selector.mode == selected && app.assistantMode == selected
    ensures NormaliseMode(storage.GetItem(ModeKey)) == selected
    ensures app.messages == old(app.messages) && app.cleanHistory == old(app.cleanHistory)
  {
    var notified := selector.HandleModeChange(selected, storage);
    app.OnModeSelected(notified);
    ModeRoundTrip(selected);
  }

  /** Page and selector read the same stored value the same way, so they start in the same mode. */
  method Mount(storage: BrowserStorage.LocalStorage) returns (app: ChatApp, selector: SelectMode)
    ensures app.assistantMode == selector.mode
    ensures app.messages == [] && !app.cleanHistory
    ensures app.debugMode == ParseDebugMode(storage.GetItem(DebugKey))
  {
    app := new ChatApp();
    selector := new SelectMode(storage);
    app.LoadPreferences(storage);
  }
}
