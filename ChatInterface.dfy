/** The chat screen (src/components/ChatInterface.tsx): the component's state
    and how the socket's events and the user's sends change it. */
module ChatInterface {
  import opened Wrappers
  import opened Strings

  /** The socket's `readyState`, as far as the component observes it. */
  datatype ReadyState = Connecting | Open | Closed

  /** A chat bubble; the id and the timestamp are not modelled. */
  datatype Message = Message(content: string, isUser: bool, isMarkdown: bool)

  /** A decoded inbound frame: its `type` (absent or a string), its
      `message` text and its `questions` (present or not). */
  datatype Payload = Payload(kind: Option<string>, message: string, questions: Option<seq<string>>)

  /** What `JSON.parse` makes of an inbound frame: it throws on text that is
      not JSON, yields `null` for the text `null`, and otherwise a value read
      as a payload (a value without the fields reads them as absent). */
  datatype Frame = Unparsable | Null | Parsed(payload: Payload)

  /** The branch of `onmessage` a payload takes. */
  datatype Reply = ErrorReply | QuestionsReply | StrategyReply | UnknownReply

  /** The branches are tried in order: an error, then questions (any list
      is truthy, even an empty one), then a strategy, then anything else. */
  function Classify(p: Payload): Reply {
    if p.kind == Some("error") then ErrorReply
    else if p.questions.Some? then QuestionsReply
    else if p.kind == Some("Strategy") then StrategyReply
    else UnknownReply
  }

  /** An error payload is an error however much else it carries, and a
      payload with questions is never shown as a strategy. */
  lemma ClassifyPriority(p: Payload)
    ensures p.kind == Some("error") ==> Classify(p) == ErrorReply
    ensures p.questions.Some? ==> Classify(p) != StrategyReply && Classify(p) != UnknownReply
    ensures Classify(p) == StrategyReply <==> p.kind == Some("Strategy") && p.questions.None?
  {
  }

  /** The text `sendMessage` sends: a non-empty custom message verbatim,
      otherwise the trimmed input. */
  function Query(custom: Option<string>, input: string): string {
    if custom.Some? && custom.value != "" then custom.value else Trim(input)
  }

  /** A query taken from the input box is empty exactly when the box holds
      only white space, and otherwise has none at either end. */
  lemma QueryFromInput(input: string)
    ensures Query(None, input) == "" <==> forall i :: 0 <= i < |input| ==> IsSpace(input[i])
    ensures Query(None, input) != "" ==> !IsSpace(Query(None, input)[0]) && !IsSpace(Query(None, input)[|Query(None, input)| - 1])
  {
  }

  /** A non-empty custom message is sent as it is, whatever the input box
      holds; an empty one falls back to the input box. */
  lemma QueryPrefersCustom(custom: string, input: string)
    ensures custom != "" ==> Query(Some(custom), input) == custom
    ensures custom == "" ==> Query(Some(custom), input) == Query(None, input)
  {
  }

  /** The texts of the user's own messages, in order. */
  function UserContents(ms: seq<Message>): (r: seq<string>)
    ensures |r| <= |ms|
    ensures forall m :: m in ms && m.isUser ==> m.content in r
    ensures forall t :: t in r ==> exists m :: m in ms && m.isUser && m.content == t
  {
    if ms == [] then []
    else UserContents(ms[..|ms| - 1]) + (if ms[|ms| - 1].isUser then [ms[|ms| - 1].content] else [])
  }

  lemma UserContentsAppend(ms: seq<Message>, m: Message)
    ensures UserContents(ms + [m]) == UserContents(ms) + (if m.isUser then [m.content] else [])
  {
    assert (ms + [m])[..|ms|] == ms;
  }

  const ConnectingStatus := "Connecting..."
  const ConnectedStatus := "Connected to chat"
  const DisconnectedStatus := "Disconnected from chat"
  const SocketErrorStatus := "WebSocket error occurred"
  const FailedStatus := "Failed to connect"

  class ChatSession {
    var messages: seq<Message>
    var inputValue: string
    var isConnected: bool
    var isLoading: bool
    var initialQuestions: seq<string>
    var connectionStatus: string
    var showPredefinedQuestions: bool
    /** The socket (`wsRef.current`): `None` when opening it threw. */
    var socket: Option<ReadyState>
    /** Every frame sent over the socket, in order. */
    var sent: seq<string>

    /** The connection flag mirrors the socket, the user's bubbles are
        exactly what was sent, the predefined form shows until the first
        send, and the spinner only runs after a send. */
    ghost predicate Valid()
      reads this
    {
      (isConnected <==> socket == Some(Open)) &&
      UserContents(messages) == sent &&
      (showPredefinedQuestions <==> sent == []) &&
      (isLoading ==> sent != [])
    }

    /** The suggestions the server sent are listed once the predefined form
        is gone. */
    predicate ShowsInitialQuestions()
      reads this
    {
      |initialQuestions| > 0 && !showPredefinedQuestions
    }

    /** Mounting: `connectWebSocket`; `created` says whether creating the
        socket succeeded. */
    constructor (created: bool)
      ensures Valid()
      ensures messages == [] && inputValue == "" && !isConnected && !isLoading
      ensures initialQuestions == [] && showPredefinedQuestions && sent == []
      ensures created ==> socket == Some(Connecting) && connectionStatus == ConnectingStatus
      ensures !created ==> socket == None && connectionStatus == FailedStatus
    {
      messages := [];
      inputValue := "";
      isConnected := false;
      isLoading := false;
      initialQuestions := [];
      showPredefinedQuestions := true;
      sent := [];
      if created {
        socket := Some(Connecting);
        connectionStatus := ConnectingStatus;
      } else {
        socket := None;
        connectionStatus := FailedStatus;
      }
    }

    /** `ws.onopen`, which the socket fires once, while connecting. */
    method OnOpen()
      requires Valid() && socket == Some(Connecting)
      modifies this
      ensures Valid()
      ensures socket == Some(Open) && isConnected && connectionStatus == ConnectedStatus
      ensures messages == old(messages) && inputValue == old(inputValue) && isLoading == old(isLoading)
      ensures initialQuestions == old(initialQuestions) && showPredefinedQuestions == old(showPredefinedQuestions)
      ensures sent == old(sent)
    {
      socket := Some(Open);
      isConnected := true;
      connectionStatus := ConnectedStatus;
    }

    /** `ws.onclose`: the socket is closed for good. */
    method OnClose()
      requires Valid() && socket.Some?
      modifies this
      ensures Valid()
      ensures socket == Some(Closed) && !isConnected && connectionStatus == DisconnectedStatus
      ensures messages == old(messages) && inputValue == old(inputValue) && isLoading == old(isLoading)
      ensures initialQuestions == old(initialQuestions) && showPredefinedQuestions == old(showPredefinedQuestions)
      ensures sent == old(sent)
    {
      socket := Some(Closed);
      isConnected := false;
      connectionStatus := DisconnectedStatus;
    }

    /** `ws.onerror`: a failed socket is closed before the event fires. */
    method OnError()
      requires Valid() && socket.Some?
      modifies this
      ensures Valid()
      ensures socket == Some(Closed) && !isConnected && connectionStatus == SocketErrorStatus
      ensures messages == old(messages) && inputValue == old(inputValue) && isLoading == old(isLoading)
      ensures initialQuestions == old(initialQuestions) && showPredefinedQuestions == old(showPredefinedQuestions)
      ensures sent == old(sent)
    {
      socket := Some(Closed);
      isConnected := false;
      connectionStatus := SocketErrorStatus;
    }

    /** `addMessage`: one bubble at the end. */
    method AddMessage(content: string, isUser: bool, isMarkdown: bool)
      modifies this
      ensures messages == old(messages) + [Message(content, isUser, isMarkdown)]
      ensures UserContents(messages) == UserContents(old(messages)) + (if isUser then [content] else [])
      ensures inputValue == old(inputValue) && isConnected == old(isConnected) && isLoading == old(isLoading)
      ensures initialQuestions == old(initialQuestions) && connectionStatus == old(connectionStatus)
      ensures showPredefinedQuestions == old(showPredefinedQuestions) && socket == old(socket) && sent == old(sent)
    {
      UserContentsAppend(messages, Message(content, isUser, isMarkdown));
      messages := messages + [Message(content, isUser, isMarkdown)];
    }

    /** `ws.onmessage`; `serialized` is the parsed value as `JSON.stringify`
        writes it. A frame that does not parse throws before anything
        changes. A `null` frame stops the spinner, then throws at
        `message.type`. Every other frame stops the spinner and takes one
        branch. */
    method OnMessage(frame: Frame, serialized: string)
      requires Valid()
      modifies this
      ensures Valid()
      ensures frame.Unparsable? ==>
        messages == old(messages) && isLoading == old(isLoading) &&
        initialQuestions == old(initialQuestions) && connectionStatus == old(connectionStatus)
      ensures frame.Null? ==>
        messages == old(messages) && !isLoading &&
        initialQuestions == old(initialQuestions) && connectionStatus == old(connectionStatus)
      ensures frame.Parsed? ==> !isLoading
      ensures frame.Parsed? && Classify(frame.payload) == ErrorReply ==>
        messages == old(messages) + [Message("Error: " + frame.payload.message, false, false)] &&
        connectionStatus == "Chat error: " + frame.payload.message && initialQuestions == old(initialQuestions)
      ensures frame.Parsed? && Classify(frame.payload) == QuestionsReply ==>
        messages == old(messages) && initialQuestions == frame.payload.questions.value &&
        connectionStatus == old(connectionStatus)
      ensures frame.Parsed? && Classify(frame.payload) == StrategyReply ==>
        messages == old(messages) + [Message(frame.payload.message, false, true)] &&
        initialQuestions == old(initialQuestions) && connectionStatus == old(connectionStatus)
      ensures frame.Parsed? && Classify(frame.payload) == UnknownReply ==>
        messages == old(messages) + [Message("Unknown message type: " + serialized, false, false)] &&
        initialQuestions == old(initialQuestions) && connectionStatus == old(connectionStatus)
      ensures inputValue == old(inputValue) && isConnected == old(isConnected) && socket == old(socket)
      ensures showPredefinedQuestions == old(showPredefinedQuestions) && sent == old(sent)
    {
      if frame.Unparsable? {
        return;
      }
      isLoading := false;
      if frame.Null? {
        return;
      }
      TakeBranch(frame.payload, serialized);
    }

    /** The if-chain of `onmessage` on a parsed payload. */
    method TakeBranch(p: Payload, serialized: string)
      requires Valid()
      modifies this
      ensures Valid()
      ensures Classify(p) == ErrorReply ==>
        messages == old(messages) + [Message("Error: " + p.message, false, false)] &&
        connectionStatus == "Chat error: " + p.message && initialQuestions == old(initialQuestions)
      ensures Classify(p) == QuestionsReply ==>
        messages == old(messages) && initialQuestions == p.questions.value && connectionStatus == old(connectionStatus)
      ensures Classify(p) == StrategyReply ==>
        messages == old(messages) + [Message(p.message, false, true)] &&
        initialQuestions == old(initialQuestions) && connectionStatus == old(connectionStatus)
      ensures Classify(p) == UnknownReply ==>
        messages == old(messages) + [Message("Unknown message type: " + serialized, false, false)] &&
        initialQuestions == old(initialQuestions) && connectionStatus == old(connectionStatus)
      ensures isLoading == old(isLoading) && inputValue == old(inputValue)
      ensures isConnected == old(isConnected) && socket == old(socket)
      ensures showPredefinedQuestions == old(showPredefinedQuestions) && sent == old(sent)
    {
      if p.kind == Some("error") {
        AddMessage("Error: " + p.message, false, false);
        connectionStatus := "Chat error: " + p.message;
      } else if p.questions.Some? {
        initialQuestions := p.questions.value;
      } else if p.kind == Some("Strategy") {
        AddMessage(p.message, false, true);
      } else {
        AddMessage("Unknown message type: " + serialized, false, false);
      }
    }

    /** `sendMessage`: nothing happens for an empty query or a socket that
        is not open; otherwise the query is shown as the user's bubble and
        sent, the input is cleared, the spinner starts and the predefined
        form is hidden. */
    method SendMessage(custom: Option<string>)
      requires Valid()
      modifies this
      ensures Valid()
      ensures var q := Query(custom, old(inputValue));
        if |q| == 0 || old(socket) != Some(Open) then
          messages == old(messages) && inputValue == old(inputValue) && isLoading == old(isLoading) &&
          showPredefinedQuestions == old(showPredefinedQuestions) && sent == old(sent)
        else
          messages == old(messages) + [Message(q, true, false)] && sent == old(sent) + [q] &&
          inputValue == "" && isLoading && !showPredefinedQuestions
      ensures isConnected == old(isConnected) && initialQuestions == old(initialQuestions)
      ensures connectionStatus == old(connectionStatus) && socket == old(socket)
    {
      var query := Query(custom, inputValue);
      if |query| == 0 || socket != Some(Open) {
        return;
      }
      Deliver(query);
    }

    /** What `sendMessage` does once the guard has passed. */
    method Deliver(query: string)
      requires Valid() && |query| > 0 && socket == Some(Open)
      modifies this
      ensures Valid()
      ensures messages == old(messages) + [Message(query, true, false)] && sent == old(sent) + [query]
      ensures inputValue == "" && isLoading && !showPredefinedQuestions
      ensures isConnected == old(isConnected) && initialQuestions == old(initialQuestions)
      ensures connectionStatus == old(connectionStatus) && socket == old(socket)
    {
      AddMessage(query, true, false);
      sent := sent + [query];
      assert |sent| > 0;
      inputValue := "";
      isLoading := true;
      showPredefinedQuestions := false;
    }

    /** Typing into the box. */
    method SetInput(value: string)
      requires Valid()
      modifies this
      ensures Valid()
      ensures inputValue == value
      ensures messages == old(messages) && isConnected == old(isConnected) && isLoading == old(isLoading)
      ensures initialQuestions == old(initialQuestions) && connectionStatus == old(connectionStatus)
      ensures showPredefinedQuestions == old(showPredefinedQuestions) && socket == old(socket) && sent == old(sent)
    {
      inputValue := value;
    }

    /** `handleKeyPress`: Enter without Shift sends the input box. */
    method HandleKeyPress(enter: bool, shift: bool)
      requires Valid()
      modifies this
      ensures Valid()
      ensures !(enter && !shift) ==>
        messages == old(messages) && inputValue == old(inputValue) && isLoading == old(isLoading) &&
        showPredefinedQuestions == old(showPredefinedQuestions) && sent == old(sent)
      ensures enter && !shift ==>
        var q := Trim(old(inputValue));
        if |q| == 0 || old(socket) != Some(Open) then
          messages == old(messages) && inputValue == old(inputValue) && isLoading == old(isLoading) &&
          showPredefinedQuestions == old(showPredefinedQuestions) && sent == old(sent)
        else
          messages == old(messages) + [Message(q, true, false)] && sent == old(sent) + [q] &&
          inputValue == "" && isLoading && !showPredefinedQuestions
      ensures isConnected == old(isConnected) && initialQuestions == old(initialQuestions)
      ensures connectionStatus == old(connectionStatus) && socket == old(socket)
    {
      if enter && !shift {
        assert Query(None, inputValue) == Trim(inputValue);
        SendMessage(None);
      }
    }

    /** `handleQuestionClick`: a server suggestion is copied into the box,
        not sent. */
    method HandleQuestionClick(question: string)
      requires Valid()
      modifies this
      ensures Valid()
      ensures inputValue == question && messages == old(messages) && sent == old(sent)
      ensures isConnected == old(isConnected) && isLoading == old(isLoading)
      ensures initialQuestions == old(initialQuestions) && connectionStatus == old(connectionStatus)
      ensures showPredefinedQuestions == old(showPredefinedQuestions) && socket == old(socket)
    {
      SetInput(question);
    }

    /** `handlePredefinedQuestionSubmit`: the composed question is sent as
        a custom message. */
    method HandlePredefinedQuestionSubmit(formatted: string)
      requires Valid()
      modifies this
      ensures Valid()
      ensures var q := Query(Some(formatted), old(inputValue));
        if |q| == 0 || old(socket) != Some(Open) then
          messages == old(messages) && inputValue == old(inputValue) && isLoading == old(isLoading) &&
          showPredefinedQuestions == old(showPredefinedQuestions) && sent == old(sent)
        else
          messages == old(messages) + [Message(q, true, false)] && sent == old(sent) + [q] &&
          inputValue == "" && isLoading && !showPredefinedQuestions
      ensures formatted != "" && old(socket) == Some(Open) ==>
        messages == old(messages) + [Message(formatted, true, false)] && sent == old(sent) + [formatted]
      ensures isConnected == old(isConnected) && initialQuestions == old(initialQuestions)
      ensures connectionStatus == old(connectionStatus) && socket == old(socket)
    {
      SendMessage(Some(formatted));
    }
  }
}
