/** `process_message` (main.py): one inbound SMS is either a slash command,
    answered at once, or a chat message that goes through the history and
    the completion client and comes back as one or more SMS bodies.

    The completion client (`get_response_from_openai`, openai.py) is the
    `complete` parameter, a function of the history it is sent, and
    `emoji.demojize` is the `demojize` parameter; the sender is not
    modelled here, only the bodies it is handed, in order. */
module Dispatcher {

  import opened Wrappers
  import opened Text
  import opened Chunker
  import opened Conversations

  /** An SMS taken off the modem: `(from_number, body)`. */
  datatype Inbound = Inbound(sender: string, body: string)

  /** What a body asks for. */
  datatype Command = Help | Clear | SetSystem(message: string) | Chat

  const HelpText: string :=
    "Welcome to ai-sms!\n"
    + "\"/clear\" - Clear the conversation history\n"
    + "\"/system <message>\" - Send a system message\n"
    + "\"/help\" - Show this help message"

  const ClearedText: string := "Conversation history cleared."

  const SystemSetPrefix: string := "System message set to: "

  /** `body[8:]`: empty when the body is shorter than 8 characters. */
  function DropPrefix8(body: string): string
  {
    if |body| >= 8 then body[8..] else []
  }

  /** The lower-cased body is compared, in this order, with `/help`, with
      `/clear`, and tested for the prefix `/system`; the `/system` text is
      taken from the original body. */
  function Classify(body: string): (c: Command)
  {
    var lowered := Lower(body);
    if lowered == "/help" then Help
    else if lowered == "/clear" then Clear
    else if "/system" <= lowered then SetSystem(Strip(DropPrefix8(body)))
    else Chat
  }

  /** The outcome of handling one message: the store afterwards, the SMS
      bodies sent back to the sender, and the history the completion client
      was called with, if it was called. */
  datatype Turn = Turn(store: Store, outbox: seq<string>, prompt: Option<History>)

  /** The history a chat message is appended to: the stored one, or the
      default system entry for a number with no row. */
  function PriorHistory(store: Store, sender: string): History
  {
    if sender in store then store[sender] else [Entry(SystemRole, DefaultSystemMessage)]
  }

  /** The text a completion reply is reduced to before chunking. */
  function Sanitize(reply: string, demojize: string -> string): string
  {
    AsciiOnly(demojize(reply))
  }

  /** `process_message`. A store error is not caught by its handler, so it
      escapes as a `Failure`. */
  function ProcessMessage(store: Store, sender: string, body: string,
                          complete: History -> string, demojize: string -> string)
    : (r: Result<Turn, StoreError>)
  {
    match Classify(body)
    case Help => Success(Turn(store, [HelpText], None))
    case Clear => Success(Turn(DeleteMessages(store, sender), [ClearedText], None))
    case SetSystem(message) =>
      (match SetDefaultMessages(store, sender, message)
       case Failure(e) => Failure(e)
       case Success(updated) => Success(Turn(updated, [SystemSetPrefix + message], None)))
    case Chat =>
      match AddMessage(store, sender, body, UserRole)
      case Failure(e) => Failure(e)
      case Success(withQuestion) =>
        var reply := complete(withQuestion.1);
        match AddMessage(withQuestion.0, sender, reply, SystemRole)
        case Failure(e) => Failure(e)
        case Success(withAnswer) =>
          Success(Turn(withAnswer.0, Chunks(Sanitize(reply, demojize)), Some(withQuestion.1)))
  }

  // ---------------------------------------------------------------------
  // Classification

  /** The three commands are recognised case-insensitively, each exactly by
      its test, and everything else is a chat message. */
  lemma {:induction false} ClassifyCases(body: string)
    ensures Classify(body) == Help <==> Lower(body) == "/help"
    ensures Classify(body) == Clear <==> Lower(body) == "/clear"
    ensures Classify(body).SetSystem? <==> "/system" <= Lower(body)
    ensures Classify(body) == Chat <==>
            Lower(body) != "/help" && Lower(body) != "/clear" && !("/system" <= Lower(body))
    ensures Classify(body).SetSystem? ==> Classify(body).message == Strip(DropPrefix8(body))
  {
    var lowered := Lower(body);
    if "/system" <= lowered {
      assert |lowered| >= 7;
      assert lowered != "/help" && lowered != "/clear";
    }
    if lowered == "/help" {
      assert lowered != "/clear" by { assert lowered[1] != "/clear"[1]; }
    }
  }

  /** Which command a body is depends only on its lower-cased form. */
  lemma {:induction false} ClassifyIgnoresCase(a: string, b: string)
    requires Lower(a) == Lower(b)
    ensures Classify(a) == Help <==> Classify(b) == Help
    ensures Classify(a) == Clear <==> Classify(b) == Clear
    ensures Classify(a).SetSystem? <==> Classify(b).SetSystem?
    ensures Classify(a) == Chat <==> Classify(b) == Chat
  {
    ClassifyCases(a);
    ClassifyCases(b);
  }

  /** Only the characters after `/system` and one more are the message,
      so the message keeps the case it was typed in. */
  lemma {:induction false} SystemKeepsCase()
    ensures Classify("/SYSTEM Hi") == SetSystem("Hi")
  {
    var b := "/SYSTEM Hi";
    var l := Lower(b);
    forall i | 0 <= i < |b|
      ensures l[i] == "/system hi"[i]
    {
    }
    assert l == "/system hi";
    assert l != "/help" && l != "/clear" && "/system" <= l;
    assert DropPrefix8(b) == "Hi";
    StripTrimmed("Hi");
  }

  /** A bare `/system` sets an empty system message. */
  lemma {:induction false} BareSystem()
    ensures Classify("/system") == SetSystem("")
  {
    var b := "/system";
    var l := Lower(b);
    forall i | 0 <= i < |b|
      ensures l[i] == b[i]
    {
    }
    assert l == b;
    assert l != "/help" && l != "/clear" && "/system" <= l;
    assert DropPrefix8(b) == "";
    StripTrimmed("");
  }

  /** The prefix test is not a word test: `/systemize` sets the message
      `ze`, the text from the ninth character on. */
  lemma {:induction false} SystemPrefixOnly()
    ensures Classify("/systemize") == SetSystem("ze")
  {
    var b := "/systemize";
    var l := Lower(b);
    forall i | 0 <= i < |b|
      ensures l[i] == b[i]
    {
    }
    assert l == b;
    assert l != "/help" && l != "/clear" && "/system" <= l;
    assert DropPrefix8(b) == "ze";
    StripTrimmed("ze");
  }

  // ---------------------------------------------------------------------
  // What each kind of message does

  /** A command never records the body or calls the completion client: it
      answers with one fixed or echoed message and changes, at most, the
      sender's own history as the command says. */
  lemma {:induction false} CommandsSkipCompletion(store: Store, sender: string, body: string, complete: History -> string,
                                                  demojize: string -> string)
    requires Classify(body) != Chat
    requires !(sender in store && store[sender] == [])
    ensures var r := ProcessMessage(store, sender, body, complete, demojize);
            && r.Success?
            && r.value.prompt == None
            && |r.value.outbox| == 1
            && (Classify(body) == Help ==> r.value.store == store && r.value.outbox == [HelpText])
            && (Classify(body) == Clear ==>
                  GetMessages(r.value.store, sender) == None && r.value.outbox == [ClearedText])
            && (Classify(body).SetSystem? ==>
                  && GetMessages(r.value.store, sender) == Some([Entry(SystemRole, Classify(body).message)])
                  && r.value.outbox == [SystemSetPrefix + Classify(body).message])
  {
  }

  /** A chat message is stored as a user entry, the completion client is
      called with the stored history that ends with it, its reply is then
      stored after it with the `system` role, and the sanitized reply is
      what is chunked and sent. */
  lemma {:induction false} ChatRecordsBoth(store: Store, sender: string, body: string,
                                           complete: History -> string, demojize: string -> string)
    requires Classify(body) == Chat
    requires !(sender in store && store[sender] == [])
    ensures var r := ProcessMessage(store, sender, body, complete, demojize);
            var prompt := PriorHistory(store, sender) + [Entry(UserRole, body)];
            var reply := complete(prompt);
            && r.Success?
            && r.value.prompt == Some(prompt)
            && GetMessages(r.value.store, sender) == Some(prompt + [Entry(SystemRole, reply)])
            && r.value.outbox == Chunks(AsciiOnly(demojize(reply)))
  {
  }

  /** Handling a message touches no other sender's history. */
  lemma {:induction false} ProcessIsolated(store: Store, sender: string, body: string,
                                           complete: History -> string, demojize: string -> string,
                                           other: string)
    requires other != sender
    ensures var r := ProcessMessage(store, sender, body, complete, demojize);
            r.Success? ==> GetMessages(r.value.store, other) == GetMessages(store, other)
  {
    var r := ProcessMessage(store, sender, body, complete, demojize);
    match Classify(body)
    case Help =>
    case Clear =>
      assert r.Success? ==> GetMessages(r.value.store, other) == GetMessages(store, other);
    case SetSystem(message) =>
      assert r.Success? ==> GetMessages(r.value.store, other) == GetMessages(store, other);
    case Chat =>
      var first := AddMessage(store, sender, body, UserRole);
      if first.Success? {
        var second := AddMessage(first.value.0, sender, complete(first.value.1), SystemRole);
        if second.Success? {
          assert GetMessages(second.value.0, other) == GetMessages(first.value.0, other);
          assert r.value.store == second.value.0;
        }
      }
  }

  /** On a valid store no message raises, and the store stays valid. */
  lemma {:induction false} ProcessPreservesValid(store: Store, sender: string, body: string,
                                                 complete: History -> string, demojize: string -> string)
    requires Valid(store)
    ensures ProcessMessage(store, sender, body, complete, demojize).Success?
    ensures Valid(ProcessMessage(store, sender, body, complete, demojize).value.store)
  {
    match Classify(body)
    case Help =>
    case Clear => MutatorsPreserveValid(store, sender, body, UserRole);
    case SetSystem(message) => MutatorsPreserveValid(store, sender, message, UserRole);
    case Chat =>
      MutatorsPreserveValid(store, sender, body, UserRole);
      var first := AddMessage(store, sender, body, UserRole).value;
      MutatorsPreserveValid(first.0, sender, complete(first.1), SystemRole);
  }

  /** `/clear` followed by a chat message: the completion client sees a
      fresh two-entry history, the default system entry and the message,
      not a continuation of the earlier conversation. */
  lemma {:induction false} ClearThenMessage(store: Store, sender: string, body: string,
                                            complete: History -> string, demojize: string -> string)
    requires Classify(body) == Chat
    ensures var cleared := ProcessMessage(store, sender, "/clear", complete, demojize);
            && cleared.Success?
            && var r := ProcessMessage(cleared.value.store, sender, body, complete, demojize);
               && r.Success?
               && r.value.prompt == Some([Entry(SystemRole, DefaultSystemMessage), Entry(UserRole, body)])
  {
    assert Lower("/clear") == "/clear";
    var cleared := ProcessMessage(store, sender, "/clear", complete, demojize);
    assert cleared.value.store == DeleteMessages(store, sender);
    assert sender !in cleared.value.store;
    ChatRecordsBoth(cleared.value.store, sender, body, complete, demojize);
  }
}
