# Agentic LLM assistant: request handling, chat page state and document preparation

This Dafny project models the logic of a serverless chat assistant built on
Amazon Bedrock. It has four parts.

- **The assistant Lambda** (module `AgentHandler`). `lambda_handler` reads
  the request event and fills in the defaults for `chatbot_type` and
  `clean_history`. It then dispatches on the chatbot type:
  - `basic` is served by a conversation chain over a per-session chat
    history, which is cleared first when the request asks for it;
  - `agentic` gets a fixed "not supported yet" reply;
  - any other type gets a rejection naming it.

  Every reply has status 200. The history table is a class over a map from
  session id to turns. The chain's model is a function from the history its
  memory loads and the user input to a reply text or a failure. After a
  reply the memory saves the user's turn and the reply's turn to the
  session; after a failure it saves nothing.
- **The reply post-processing** (module `MarkdownUtils`). The text of the
  first `<markdown>` element, or `""` when there is none.
- **The chat page** (modules `BrowserStorage`, `ModeSelect`, `Chat`).
  - The page is a class holding the displayed messages, the one-shot
    `clean_history` flag, the debug flag and the assistant mode.
  - The mode selector is a class whose mode is read from and written to
    `localStorage`, which is modelled as a map.
  - Sending a message appends the user's message, sends the request and
    appends exactly one reply message. The rule that chooses that message
    depends on the debug flag.
  - Clear empties the conversation and makes the next request ask for a
    clean history.
- **The document-preparation script** (module `PrepareDocuments`). It
  covers:
  - the download skip rules over a file system modelled as a map;
  - 1-based page selection;
  - the per-document metadata records and the PDF copy or cut each implies,
    run in order until a page number out of range raises, which ends the
    script before `metadata.json` is saved;
  - the prompt and the `<results>` extraction applied to each page's LLM
    reply;
  - the 0-based page records;
  - the document name taken from the URL.

Module `Text` models the Python string operations these rely on:
`str.split` with a non-empty separator, `str.strip` (with Python's
whitespace set), and `[0]` and `[-1]` on the pieces. Its `Find`, the first
occurrence at or after a position, is the scan `split` makes and the
search for the first `<markdown>` tag in a reply read as plain text. Module `Wire`
connects the page to the assistant. The request body becomes the handler's
event. What the handler ends with comes back through the non-proxy API
Gateway integration: the returned dict, or the runtime's error object when
it raises. `Wire` states what the page then shows.

Outside calls are parameters:
- the conversation chain: `Chain`;
- the backend, as the page sees it: `Request -> FetchOutcome`;
- `requests.get`: `fetch`;
- the PDF reader: `read`, the pages of the report at a path;
- the text-extraction service: `analyse`, the Markdown of each page of a
  local PDF;
- the LLM: `llm`, the reply text for a prompt;
- `JSON.stringify`'s rendering: an opaque string.

`os.path.join` is modelled for two arguments, as on POSIX.

## Model

Paths are relative to the repository root.

| member | source | states |
|---|---|---|
| Text.Find | serverless_llm_assistant/lib/lambda-functions/agent-executor-lambda-container/agent-executor-lambda/assistant/utils.py:15 | the result is -1 or a position at or after `start` where the pattern occurs; `FindFirst` states that it is the first |
| Text.FindFirst | serverless_llm_assistant/lib/lambda-functions/agent-executor-lambda-container/agent-executor-lambda/assistant/utils.py:15 | nothing occurs between `start` and the position found, nor anywhere from `start` on when it is -1 |
| Text.Split | data_pipelines/scripts/prepare_documents.py:195 | `split(sep)`, as lines 195 and 218 use it, gives at least one piece and no piece contains `sep`; `JoinSplit`, `FirstPiece` and `LastPieceIsSuffix` state what the pieces are |
| Text.SplitWhole | data_pipelines/scripts/prepare_documents.py:195 | `split(sep)` leaves the string in one piece exactly when `sep` does not occur in it |
| Text.JoinSplit | data_pipelines/scripts/prepare_documents.py:195 | joining the pieces of `split(sep)` with `sep` gives the string back; the pieces cover it in order and none contains `sep` |
| Text.FirstPiece | data_pipelines/scripts/prepare_documents.py:195 | `split(sep)[0]` is what precedes the first occurrence of `sep`, or the whole string |
| Text.LastPieceIsSuffix | data_pipelines/scripts/prepare_documents.py:218 | `split(sep)[-1]` is a suffix without `sep`; it is the whole string or is preceded by `sep` |
| Text.LastPieceAfter | data_pipelines/scripts/prepare_documents.py:195 | for a separator whose first character does not occur again in it, and `a + sep + b` with no `sep` in `b`, `split(sep)[-1]` is `b` |
| Text.FirstOccurrenceAfter | serverless_llm_assistant/lib/lambda-functions/agent-executor-lambda-container/agent-executor-lambda/assistant/utils.py:15 | for a pattern whose first character does not occur again in it, in `a + p + b` with no `p` in `a`, the first `p` is found right after `a` |
| Text.LStrip | data_pipelines/scripts/prepare_documents.py:195 | the result is a suffix of the input, what was cut is all whitespace, and it does not start with whitespace |
| Text.RStrip | data_pipelines/scripts/prepare_documents.py:195 | the result is a prefix of the input, what was cut is all whitespace, and it does not end with whitespace |
| Text.Strip | data_pipelines/scripts/prepare_documents.py:195 | `strip()` is a slice of its input with only whitespace cut before and after it; it neither starts nor ends with whitespace, and leaves such a string unchanged |
| Text.StripStrip | data_pipelines/scripts/prepare_documents.py:195 | stripping twice is stripping once |
| Text.StripKeepsAbsence | data_pipelines/scripts/prepare_documents.py:195 | stripping never creates an occurrence of a pattern |
| MarkdownUtils.ParseMarkdownContent | serverless_llm_assistant/lib/lambda-functions/agent-executor-lambda-container/agent-executor-lambda/assistant/utils.py:4-20 | "" when there is no opening tag; otherwise a prefix of the text after the first opening tag, ending at a closing tag or at the end of the text, and holding no closing tag |
| MarkdownUtils.FirstElementContent | serverless_llm_assistant/lib/lambda-functions/agent-executor-lambda-container/agent-executor-lambda/assistant/utils.py:14-18 | for `pre + <markdown> + x + </markdown> + post` with no element in `pre` and no markup in `x`, the result is exactly `x`; later elements and the text around never reach it |
| AgentHandler.UnsupportedType | serverless_llm_assistant/lib/lambda-functions/agent-executor-lambda-container/agent-executor-lambda/handler.py:96-103 | the rejection text naming the type, with the type list printed as a Python list; it has no contract of its own, and `RouteEvent` and `FixedRepliesIgnoreHistory` state when it is the reply |
| AgentHandler.RouteEvent | serverless_llm_assistant/lib/lambda-functions/agent-executor-lambda-container/agent-executor-lambda/handler.py:78-103 | a missing `user_input`, then a missing `session_id`, is the failing key; basic is served exactly when the type, defaulting to "basic", is "basic", with `clean_history` defaulting to false; "agentic" gets the not-supported text; any other type gets the text naming it |
| AgentHandler.BasicReply | serverless_llm_assistant/lib/lambda-functions/agent-executor-lambda-container/agent-executor-lambda/handler.py:105-112 | a failing chain gives the fixed internal-issue text; a reply gives its `<markdown>` content |
| AgentHandler.SavedTurns | serverless_llm_assistant/lib/lambda-functions/agent-executor-lambda-container/agent-executor-lambda/handler.py:57-68 | after a reply the memory saves the input as a human turn and the reply as an AI turn; after a failure it saves nothing |
| AgentHandler.Handle | serverless_llm_assistant/lib/lambda-functions/agent-executor-lambda-container/agent-executor-lambda/handler.py:76-114 | every returned dict has status 200; it raises exactly when a required key is missing; only a basic request changes the table, and only its own session: the chain reads that session's history left after the clear, and the session then holds that history followed by the turns the memory saves for the outcome |
| AgentHandler.CleanHistoryForgetsSession | serverless_llm_assistant/lib/lambda-functions/agent-executor-lambda-container/agent-executor-lambda/handler.py:50-68 | with a clean history the outcome and the new table do not depend on what the session held, the session then holds only the turns this call saved, and every other session keeps its history |
| AgentHandler.ClearSurvivesChainFailure | serverless_llm_assistant/lib/lambda-functions/agent-executor-lambda-container/agent-executor-lambda/handler.py:105-112 | when the chain fails after a clear, the reply is the internal-issue text, the session stays cleared and nothing is saved to it |
| AgentHandler.ConversationContinues | serverless_llm_assistant/lib/lambda-functions/agent-executor-lambda-container/agent-executor-lambda/handler.py:57-106 | of two basic calls on one session, the second without a clean, the second's chain reads the first's history followed by the turns the first saved |
| AgentHandler.FixedRepliesIgnoreHistory | serverless_llm_assistant/lib/lambda-functions/agent-executor-lambda-container/agent-executor-lambda/handler.py:88-103 | agentic and unknown types leave the table as it was, even with a clean history, and answer with a status-200 fixed text that depends on neither the history nor the chain |
| AgentHandler.MissingTypeIsBasic | serverless_llm_assistant/lib/lambda-functions/agent-executor-lambda-container/agent-executor-lambda/handler.py:80 | a missing `chatbot_type` is handled exactly as "basic" |
| AgentHandler.MissingCleanIsFalse | serverless_llm_assistant/lib/lambda-functions/agent-executor-lambda-container/agent-executor-lambda/handler.py:82 | a missing `clean_history` is handled exactly as false |
| AgentHandler.CleanOfEmptySessionIsNoOp | serverless_llm_assistant/lib/lambda-functions/agent-executor-lambda-container/agent-executor-lambda/handler.py:54-55 | cleaning a session with no history gives the same outcome as not cleaning it |
| AgentHandler.ReplyWithoutMarkdownIsEmpty | serverless_llm_assistant/lib/lambda-functions/agent-executor-lambda-container/agent-executor-lambda/handler.py:106-107 | a chain reply without a `<markdown>` element is answered with status 200 and "" |
| AgentHandler.HistoryStore.AddMessages | serverless_llm_assistant/lib/lambda-functions/agent-executor-lambda-container/agent-executor-lambda/handler.py:57-68 | the memory's save appends the turns to the session's history; no other session changes |
| AgentHandler.HistoryStore.Clear | serverless_llm_assistant/lib/lambda-functions/agent-executor-lambda-container/agent-executor-lambda/handler.py:54-55 | the session's history becomes empty and no other session changes |
| AgentHandler.GetBasicChatbotConversationChain | serverless_llm_assistant/lib/lambda-functions/agent-executor-lambda-container/agent-executor-lambda/handler.py:47-70 | the session is cleared exactly when asked, before the memory is built over it with key "history" and human prefix "Hu" |
| AgentHandler.LambdaHandler | serverless_llm_assistant/lib/lambda-functions/agent-executor-lambda-container/agent-executor-lambda/handler.py:76-114 | the invocation ends, and the table is left, as `Handle` says, the memory's save of the exchange included |
| BrowserStorage.LocalStorage.GetItem | frontend/chat-app/app/components/SelectMode.tsx:10 | an unknown key reads as null; a stored key reads as its value |
| BrowserStorage.LocalStorage.SetItem | frontend/chat-app/app/components/SelectMode.tsx:16 | the key now reads as the value; every other key is unchanged |
| ModeSelect.NormaliseMode | frontend/chat-app/app/components/SelectMode.tsx:9-12 | the mode is agentic exactly when the stored value is "agentic" |
| ModeSelect.ModeName | frontend/chat-app/app/components/SelectMode.tsx:16 | a mode is stored and sent as "basic" or "agentic" |
| ModeSelect.ModeRoundTrip | frontend/chat-app/app/components/SelectMode.tsx:10-16 | a mode written to storage reads back as that mode |
| ModeSelect.SelectMode.constructor | frontend/chat-app/app/components/SelectMode.tsx:9-12 | the initial mode is the normalised stored value |
| ModeSelect.SelectMode.Checked | frontend/chat-app/app/components/SelectMode.tsx:28-36 | a button is checked exactly when it shows the current mode |
| ModeSelect.SelectMode.HandleModeChange | frontend/chat-app/app/components/SelectMode.tsx:14-19 | storage holds the selected mode's name under "assistantMode", the mode is the selected one, and the callback receives it |
| ModeSelect.ExactlyOneChecked | frontend/chat-app/app/components/SelectMode.tsx:28-36 | exactly one of the two buttons is checked |
| ModeSelect.RemountAfterChange | frontend/chat-app/app/components/SelectMode.tsx:9-18 | a selector mounted after a change starts in the chosen mode |
| Chat.ParseDebugMode | frontend/chat-app/app/components/ChatApp.tsx:27-28 | debug is on exactly when the stored value is "true" |
| Chat.ReplyMessage | frontend/chat-app/app/components/ChatApp.tsx:68-84 | never a user message; with an error and debug on, it begins with "Error: " and the error and contains the rendered body; with an error and debug off, it is the default error text; without an error, it is the body's `response` |
| Chat.AssistantReply | frontend/chat-app/app/components/ChatApp.tsx:65-91 | a throw gives the default error text and a parsed body gives its reply message; it is never a user message |
| Chat.ChatApp.constructor | frontend/chat-app/app/components/ChatApp.tsx:18-23 | no messages, no pending clean, debug off, basic mode |
| Chat.ChatApp.LoadPreferences | frontend/chat-app/app/components/ChatApp.tsx:26-32 | the debug flag and the mode are the normalised stored values; messages and the clean flag are unchanged |
| Chat.ChatApp.BeginSend | frontend/chat-app/app/components/ChatApp.tsx:38-63 | once signed in, the user's message is appended and the request carries the message, the user's `sub`, the pending clean flag and the mode; a failed sign-in lookup appends nothing |
| Chat.ChatApp.ReceiveReply | frontend/chat-app/app/components/ChatApp.tsx:65-91 | exactly one reply message is appended; a parsed body turns the pending clean off, with or without an error; a throw leaves it as it was |
| Chat.ChatApp.HandleSendMessage | frontend/chat-app/app/components/ChatApp.tsx:34-92 | a send appends the user's message and then exactly one reply for the backend's outcome; the request carries the state before the send |
| Chat.ChatApp.Clear | frontend/chat-app/app/components/ChatApp.tsx:160-165 | the messages are emptied and the next request asks for a clean history |
| Chat.ChatApp.SetDebugMode | frontend/chat-app/app/components/ChatApp.tsx:154 | only the debug flag changes |
| Chat.ChatApp.OnModeSelected | frontend/chat-app/app/components/ChatApp.tsx:155-159 | only the mode changes |
| Chat.ChooseMode | frontend/chat-app/app/components/ChatApp.tsx:155-159 | after a selection, storage, the selector and the page all hold the chosen mode |
| Chat.Mount | frontend/chat-app/app/components/ChatApp.tsx:26-32 | the page and the selector start in the same mode |
| Wire.ToEvent | frontend/chat-app/app/components/ChatApp.tsx:58-63 | the event carries the message, the `sub` (left out when undefined), the clean flag and a type that reads back as the page's mode |
| Wire.ToBody | serverless_llm_assistant/lib/assistant-api-gateway.ts:39-52 | the page sees an error exactly when the handler raised, with the missing key in quotes; otherwise it sees the handler's `response` |
| Wire.PageRequestsRoute | frontend/chat-app/app/components/ChatApp.tsx:58-63 | a request from the page fails only for a missing `session_id`, is served as basic exactly in basic mode with a `sub`, and never gets the unknown-type text |
| Wire.ClearedPageStartsFresh | frontend/chat-app/app/components/ChatApp.tsx:160-165 | after Clear, a basic request is answered from an empty history; the session then holds only the turns this exchange saved and no other session changes |
| Wire.MissingSubIsAnError | frontend/chat-app/app/components/ChatApp.tsx:60 | without a `sub` no history changes, and the page shows the default error text, or with debug on an error naming "'session_id'" |
| Wire.Exchange | frontend/chat-app/app/components/ChatApp.tsx:34-92 | one send through the handler: the page gains the user's message and the reply for the handler's outcome, the table changes as the handler says, and the pending clean is spent |
| Wire.ClearThenSend | frontend/chat-app/app/components/ChatApp.tsx:160-165 | Clear then a basic send: the page shows exactly the new exchange, the reply came from an empty history, the session holds only what this exchange saved, and no other session changes |
| PrepareDocuments.PathJoin | data_pipelines/scripts/prepare_documents.py:111-112 | `os.path.join` of two parts on POSIX, as lines 29, 45, 90-91 and 111-112 use it; it has no contract of its own, and `ReportPathsDistinct` and `PreparedReportPath` state what it gives |
| PrepareDocuments.ReportPath | data_pipelines/scripts/prepare_documents.py:110-112 | a company's report for a year under a base directory; it has no contract of its own, and `ReportPathsDistinct` states that years never share a path |
| PrepareDocuments.ReportPathsDistinct | data_pipelines/scripts/prepare_documents.py:44-45 | two years of one company get the same report path exactly when they are the same year |
| PrepareDocuments.PreparedReportPath | data_pipelines/scripts/prepare_documents.py:250 | the prepared directory is "raw_documents/prepared/" and the prepared 2022 Amazon report is the file the extraction entry point reads |
| PrepareDocuments.DownloadStep | data_pipelines/scripts/prepare_documents.py:36-62 | one document's effect on the files; it has no contract of its own, and `DownloadDocument` is proved to perform it |
| PrepareDocuments.Downloaded | data_pipelines/scripts/prepare_documents.py:28-62 | the files after the documents in order; it has no contract of its own, and `DownloadsNeverOverwrite`, `DownloadsOnlyOn200` and `DownloadsComplete` state what it gives |
| PrepareDocuments.DownloadsNeverOverwrite | data_pipelines/scripts/prepare_documents.py:47-49 | a file that exists before the downloads keeps its contents |
| PrepareDocuments.DownloadsOnlyOn200 | data_pipelines/scripts/prepare_documents.py:52-57 | every new file is the report path of a document with a non-empty URL whose server answered 200 with exactly those contents |
| PrepareDocuments.DownloadsComplete | data_pipelines/scripts/prepare_documents.py:35-57 | every document with a non-empty URL that is served with 200 is on disk afterwards |
| PrepareDocuments.DownloadDocument | data_pipelines/scripts/prepare_documents.py:36-62 | one document: an empty URL is skipped, an existing file is kept, and the file is written only on status 200 |
| PrepareDocuments.DownloadPdfFiles | data_pipelines/scripts/prepare_documents.py:23-62 | the files are those left by the per-document rule applied in mapping order |
| PrepareDocuments.PyIndex | data_pipelines/scripts/prepare_documents.py:71 | indexing succeeds exactly for -n..n-1, and negative indexes count from the end |
| PrepareDocuments.SelectPages | data_pipelines/scripts/prepare_documents.py:64-71 | as written: succeeds exactly when every page number is within 1-n..n; output page k is page `pages[k]` counted from 1, or from the end for numbers below 1 |
| PrepareDocuments.SelectPagesOneBased | data_pipelines/scripts/prepare_documents.py:64-71 | as intended: succeeds exactly when every page number is within 1..n; it then gives one output page per number, in order, duplicates kept; a failure names a number outside the range |
| PrepareDocuments.SelectPagesAgree | data_pipelines/scripts/prepare_documents.py:70-71 | on page numbers within 1..n the code as written selects the intended pages |
| PrepareDocuments.PageZeroSelectsLastPage | data_pipelines/scripts/prepare_documents.py:71 | page number 0 keeps the last page where the intended selection fails |
| PrepareDocuments.KeepRelevantPagesInPdf | data_pipelines/scripts/prepare_documents.py:64-74 | the pages written are the as-written selection, and on valid page numbers the intended one |
| PrepareDocuments.DocMetadata | data_pipelines/scripts/prepare_documents.py:104-125 | a record holds the company, year and URL and the path prepared/company/annual_report_{year}.pdf, and `pages_kept` exactly when a non-empty page list is given (a missing one counts as empty) |
| PrepareDocuments.DocJob | data_pipelines/scripts/prepare_documents.py:109-129 | from the raw report path to the prepared one: the file is cut to its pages exactly when a non-empty list is given, and copied whole otherwise |
| PrepareDocuments.MetadataOf | data_pipelines/scripts/prepare_documents.py:89-131 | at most one record per document, and only for documents with a non-empty URL |
| PrepareDocuments.JobsOf | data_pipelines/scripts/prepare_documents.py:97-129 | the PDF job of each document with a non-empty URL, in order; it has no contract of its own, and `JobsMatchMetadata` and `JobsOfAppend` state what it gives |
| PrepareDocuments.JobsOfAppend | data_pipelines/scripts/prepare_documents.py:89-129 | the jobs of two document runs in a row are the first run's jobs followed by the second's |
| PrepareDocuments.MetadataOfAppend | data_pipelines/scripts/prepare_documents.py:89-131 | the records of two document runs in a row are the first run's records followed by the second's, so mapping order is kept |
| PrepareDocuments.MetadataCoversDocuments | data_pipelines/scripts/prepare_documents.py:97-131 | every document with a non-empty URL has its record, and every record is of such a document |
| PrepareDocuments.EmptyUrlsContributeNothing | data_pipelines/scripts/prepare_documents.py:101-102 | documents with empty URLs give no records |
| PrepareDocuments.JobsMatchMetadata | data_pipelines/scripts/prepare_documents.py:110-129 | one job per record, writing the record's path from the raw path, cutting pages exactly when `pages_kept` is present and then to those pages |
| PrepareDocuments.PdfOutput | data_pipelines/scripts/prepare_documents.py:116-129 | what a job writes: the whole report, or the selected pages, or the `IndexError`; it has no contract of its own, and `MetadataSavedIffPagesInRange` states when it fails |
| PrepareDocuments.FirstFailure | data_pipelines/scripts/prepare_documents.py:89-133 | the position of the first job whose output fails, with every job before it succeeding, or none exactly when every job succeeds |
| PrepareDocuments.MetadataSavedIffPagesInRange | data_pipelines/scripts/prepare_documents.py:124-133 | the script gets through every document, and so saves the metadata, exactly when every listed page number of every document with a URL is within 1-n..n for its n-page report |
| PrepareDocuments.FirstFailureAt | data_pipelines/scripts/prepare_documents.py:89-133 | a failing job with only successes before it is the first failure |
| PrepareDocuments.PrepareDocument | data_pipelines/scripts/prepare_documents.py:104-131 | one document with a URL: its record, its job, and the job's output or error |
| PrepareDocuments.PrepareCompanyDocuments | data_pipelines/scripts/prepare_documents.py:97-129 | the inner loop for one company: without a failing job its records and jobs extend those of the companies before it; otherwise its first failing job is the first failure of the whole mapping, with exactly the jobs before it done and that job's `IndexError` returned |
| PrepareDocuments.KeepRelevantPagesInPdfs | data_pipelines/scripts/prepare_documents.py:81-135 | the jobs run in mapping order; without a failing job every job is done and the metadata of the mapping's documents is saved; otherwise the jobs before the first failure are done, its `IndexError` ends the script and nothing is saved; every output is the job's output |
| PrepareDocuments.UserPrompt | data_pipelines/scripts/prepare_documents.py:181-192 | the prompt is the stripped instruction followed by the page's Markdown |
| PrepareDocuments.ExtractResults | data_pipelines/scripts/prepare_documents.py:195 | the kept text is no longer than the reply and holds neither `<results>` nor `</results>` |
| PrepareDocuments.ExtractResultsWithoutTags | data_pipelines/scripts/prepare_documents.py:195 | a reply with neither tag is kept whole, only stripped |
| PrepareDocuments.ExtractResultsWrapped | data_pipelines/scripts/prepare_documents.py:195 | for `pre + <results> + x + </results> + post` with neither tag in `x` and no `<results>` in `post`, the result is `x` stripped, whatever `pre` holds |
| PrepareDocuments.ImprovedPages | data_pipelines/scripts/prepare_documents.py:189-196 | one entry per page, in page order, each the extracted reply to that page's prompt and free of both tags |
| PrepareDocuments.ImproveTextractMarkdownOutput | data_pipelines/scripts/prepare_documents.py:189-196 | the list built by the loop is the per-page extraction |
| PrepareDocuments.EnumeratePages | data_pipelines/scripts/prepare_documents.py:209 | page records are numbered 0..n-1 in order, each with its text |
| PrepareDocuments.ExtractPagesAsMarkdown | data_pipelines/scripts/prepare_documents.py:198-210 | the records of the improved pages of the analysed document |
| PrepareDocuments.UrlName | data_pipelines/scripts/prepare_documents.py:218 | the name is a suffix of the URL without "/", and is the whole URL or follows a "/" |
| PrepareDocuments.UrlNameAfterLastSlash | data_pipelines/scripts/prepare_documents.py:218 | a URL ending in "/" + `b`, with no "/" in `b`, is named `b` |
| PrepareDocuments.DocResultOf | data_pipelines/scripts/prepare_documents.py:216-220 | an entry holds the record, the URL's name, `source_location` equal to the URL, and the page records |
| PrepareDocuments.ExtractDocsIntoMarkdown | data_pipelines/scripts/prepare_documents.py:213-222 | one entry per metadata record, in order |

## Left out

- MarkdownUtils.ParseMarkdownContent: reads the reply as plain text. It does not model the HTML parser's case-insensitive tag names, attributes, entities, comments or nested markup. `get_text()` of nested markup would drop the inner tags.
- AgentHandler.Handle: the memory's save after a reply is one append of the human and the AI turn, as `ConversationBufferMemory` makes it inside `predict`. The prompt formatting, the model call and a failure between loading and saving are not modelled; `CleanHistoryForgetsSession`, `ConversationContinues`, `LambdaHandler`, `ClearedPageStartsFresh` and `ClearThenSend` rest on this.
- The history table always succeeds. A DynamoDB failure in `clear()` would raise before the `try` block; that path is not modelled.
- Bedrock client setup, the model's float parameters, logging and printed tracebacks are left out.
- Chat.ChatApp.HandleSendMessage: sends are taken one at a time. React's asynchronous state updates and the handler's captured `clean_history`, `debugMode` and mode are not modelled for overlapping sends.
- The authorization header, the endpoint variable and the HTTP status are not modelled. The page parses the body whatever the status.
- Chat.ReplyMessage: the debug text is stated as starting with "Error: " plus the error and containing the rendered body, not as its exact line layout. `JSON.stringify`'s rendering is an opaque string.
- A response body with neither `errorMessage` nor `response` is not modelled: `response` reads as "". Non-string JSON values are not modelled either.
- The input box's Enter and Send handlers (trimming, the empty-input check), the scroll effect and the rendering components are left out.
- DebugToggleSwitch.tsx is not part of this model. Only its callback into the page is. Whether it stores the flag is not known here.
- `download_pdf_files`:
  - directory creation and printed messages are not modelled;
  - exceptions from `requests.get` are not modelled, and the request headers are ignored;
  - `fetch` gives the same answer for the same URL.
- Missing `doc_url` or `year` keys (a `KeyError`) and non-string years are not modelled.
- The PDF reader and writer and `shutil.copyfile` are not modelled. Page selection works on a sequence of pages, and `read` gives the pages of each raw report. `keep_relevant_pages_in_pdfs` is modelled as the jobs it gets through, their outputs, and the metadata it saves or the `IndexError` that stops it. Writing the files, writing `metadata.json`, the constant `True` result and I/O failures (a missing raw file, an unreadable PDF) are left out. The metadata is passed on as if read back from JSON unchanged.
- `call_llm` returns `None` after a `ClientError`, and line 195 would then fail. The model's `llm` always answers with a reply text. The Bedrock request body is not modelled.
- `extract_documents`, `generate_message`, the SSM lookup and the S3 upload are one-off I/O and are left out.
- PrepareDocuments.PathJoin models `os.path.join` for two arguments on POSIX only.

## Findings

| source | as written | input that shows it | evidently intended | confidence | as-written member | corrected member |
|---|---|---|---|---|---|---|
| data_pipelines/scripts/prepare_documents.py:70-71 | page number `p` is read as `input_pdf.pages[p - 1]`, and the page list accepts negative indexes | `pages = [0]` on any non-empty PDF keeps its last page instead of failing; `-1` keeps the second-to-last | page numbers count from 1, and a number outside 1..n is an error | medium, not executed | PrepareDocuments.SelectPages (shown by PrepareDocuments.PageZeroSelectsLastPage) | PrepareDocuments.SelectPagesOneBased |

`KeepRelevantPagesInPdf` follows the code as written. Its contract also ties
it to `SelectPagesOneBased` on every page list within 1..n, the only lists
the intended definition accepts.
