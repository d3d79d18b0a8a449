# ai-sms in Dafny

ai-sms is an SMS gateway to a chat-completion service. A listener talks AT
commands to a GSM modem on a serial line. It waits for `+CMTI` new-message
notices, reads each message with `AT+CMGR`, and queues `(sender, body)`.
A worker thread takes the queue in order and runs `process_message` on each
item:

- `/help`, `/clear` and `/system <text>` are answered at once. They are
  matched case-insensitively.
- Any other body is appended to the sender's conversation history. The
  history is sent to the completion service, and the reply is appended
  with the role `system`.
- The reply has its emoji spelled out and its non-ASCII characters dropped.
  If it is longer than 300 characters, it is cut greedily at word
  boundaries. The resulting bodies are sent back through the same modem
  with a fixed AT dialogue.
- Histories live in a table keyed by phone number (`conversations.py`).

The model is pure Dafny functions over immutable values:

- `Text`: the Python string operations the code relies on, written out
  over `seq<char>`.
  - `strip`, `split(sep)`, `split()`, `' '.join`, `in`.
  - `lower` (ASCII letters), `replace(c, '')`, `encode('ascii', 'ignore')`.
  - Whitespace is Python's `str.isspace` set.
- `Modem`: `wait_for_response` and the send dialogue of
  `send_sms_via_serial`.
  - Real time is replaced by a finite sequence of read results per wait.
  - The exception a timeout raises is `None`.
- `Chunker`: the 300-character splitter of `process_message`.
- `Conversations`: the history table as a `map` from number to history.
  - A database error is a `Failure`.
  - `get_messages` is the lookup in that map. What it returns after each
    mutator is stated in the mutators' contracts.
- `Dispatcher`: command classification and `process_message`.
  - The completion client is a function of the history it is sent.
  - `emoji.demojize` is a function parameter.
- `Listener`: the `+CMTI` notice, the `AT+CMGR` parse, the set-up
  handshake and the listening loop.
  - The serial line is a sequence of polls.
- `Worker`: `message_handler` over the queue, and the listener and worker
  together.

The model keeps several behaviours of the source as written:

- The completion reply is stored with the role `system`, not `assistant`.
- A long reply whose first word has 300 or more characters sends an empty
  first message.
- The `+CMTI` index is read from the first comma of the whole read, not of
  the notice line.
- A read that mentions `+CMTI:` but has no comma raises outside the inner
  handler. That ends the listener.
- A conversation row that holds an empty list makes the next
  `set_default_messages` fail on the primary key. `process_message` does
  not catch that error, so it would end the worker thread. The model keeps
  this path. `Conversations.MutatorsPreserveValid` proves it cannot arise
  from a table that only these operations have written.

## Model

| member | source | states |
|---|---|---|
| Text.Strip | main.py:101 | `strip()` returns text that neither starts nor ends with a Python whitespace character and is no longer than its input |
| Text.StripSlice | main.py:101 | what `strip()` keeps is one contiguous slice of the input, and everything cut off on either side is whitespace |
| Text.StripKeepsOnly | main.py:202 | `strip()` introduces no character, so a stripped line still holds no line break |
| Text.FieldExists | main.py:190 | `s.split(sep)[k]` yields a field exactly when the separator occurs at least `k` times; otherwise it is the `IndexError` |
| Text.SplitJoin | main.py:190 | splitting on a separator and joining with it gives back the input |
| Text.SplitCount | main.py:190 | `split(sep)` yields one more field than there are separators |
| Text.SecondFieldExists | main.py:190 | field 1 exists exactly when the separator occurs; field 2 exists exactly when it occurs at least twice |
| Text.SplitAtFirst | main.py:201-202 | the first field is the text before the first separator, and the later fields are those of the text after it |
| Text.WordsAreWords | main.py:125 | every word of `split()` is non-empty and free of whitespace |
| Text.WordsKeepText | main.py:125 | the words of `split()`, concatenated, are exactly the non-whitespace characters of the text, in order |
| Text.WordsStep | main.py:125 | a run of non-whitespace characters that ends the text or is followed by whitespace is split off whole as one word |
| Text.WordsAtSpace | main.py:125 | `split()` cuts at every whitespace character: the words of `a + c + b` for a whitespace `c` are the words of `a` followed by the words of `b` |
| Text.WordsOfJoin | main.py:125 | splitting words that were joined with single spaces gives the same words back |
| Text.AsciiOnly | main.py:121 | the ASCII filter keeps only characters below 128 and never lengthens the text |
| Text.AsciiOnlyCount | main.py:121 | every ASCII character is kept as often as it occurs, and no other character is kept |
| Text.AsciiOnlyAppend | main.py:121 | the filter distributes over concatenation, so kept characters stay in input order |
| Text.AsciiOnlyIdempotent | main.py:121 | filtering twice is the same as filtering once |
| Text.RemoveAll | main.py:201 | `replace('"', '')` leaves no double quote and keeps every other character as often as it occurred |
| Text.RemoveAllAppend | main.py:201 | the removal distributes over concatenation, so the kept characters stay in input order |
| Text.RemoveAllAbsent | main.py:201 | text without a double quote is left unchanged |
| Text.LowerIdempotent | main.py:89 | lowering turns each letter `A`–`Z` into the letter 32 code points later, `a`–`z`; it leaves no upper-case ASCII letter, changes no other character, and is idempotent |
| Modem.AwaitFirstHit | main.py:26-41 | the wait succeeds iff some prefix of the reads within the budget contains the expected bytes; it then returns the concatenation of the shortest such prefix |
| Modem.SplitTerminatorExample | main.py:36-40 | an `OK` split across two reads is found, and the rest of the last read is kept; with one read allowed, the wait times out |
| Modem.DialogueOutcome | main.py:51-75 | the send reports success iff every wait succeeded; after the first timeout nothing more is written |
| Modem.SendSmsBodyAfterPrompt | main.py:55-70 | the body is written only after `OK` to the three set-up commands and `>` to `AT+CMGS`; Ctrl+Z follows it; success means exactly the six lines of the dialogue were written |
| Chunker.GreedyJoin | main.py:128-138 | from any pending words, the non-empty chunks of the loop, joined with spaces, are all the words joined with spaces |
| Chunker.GreedyBound | main.py:128-138 | every chunk the loop emits is shorter than 300 characters or is a single word |
| Chunker.GreedyFromEmpty | main.py:126-138 | starting from an empty message, the only empty chunk possible is the first, and it occurs exactly when the first word has 300 or more characters |
| Chunker.ChunksContent | main.py:123-141 | a reply of at most 300 characters is sent unchanged as one message; for a longer one, the non-empty chunks joined with spaces equal the reply's words joined with spaces |
| Chunker.ChunksBound | main.py:124-138 | every chunk of a long reply is shorter than 300 characters unless it is one of the reply's words on its own |
| Chunker.ChunksEmpty | main.py:124-138 | a long all-whitespace reply sends nothing; otherwise only the first chunk can be empty, exactly when the first word has 300 or more characters |
| Conversations.DeleteMessages | conversations.py:87-96 | after the delete the number has no row, every other number's row is unchanged, and deleting an absent number changes nothing |
| Conversations.SetDefaultMessages | conversations.py:30-47 | it fails iff the number's row holds an empty list; otherwise the number's history is just the given system entry and no other row changes |
| Conversations.AddMessage | conversations.py:63-85 | it fails iff the row holds an empty list; a new number gets the default system entry and then the message; an existing history gets the message appended; it returns what it stored; no other row changes |
| Conversations.MutatorsPreserveValid | conversations.py:30-96 | on a table whose every history is non-empty and starts with a system entry, no operation fails and each keeps that property |
| Conversations.ClearThenAdd | conversations.py:63-96 | adding after a delete starts a fresh two-entry history: the default system entry, then the message |
| Dispatcher.ClassifyCases | main.py:88-104 | `/help` and `/clear` are recognised by equality of the lower-cased body, `/system` by prefix, and anything else is a chat message; the `/system` text is the stripped body from the ninth character on |
| Dispatcher.ClassifyIgnoresCase | main.py:89-100 | which command a body is depends only on its lower-cased form |
| Dispatcher.SystemKeepsCase | main.py:100-101 | the `/system` text keeps the case it was typed in |
| Dispatcher.BareSystem | main.py:100-101 | a bare `/system` sets an empty system message |
| Dispatcher.SystemPrefixOnly | main.py:100-101 | `/systemize` counts as `/system`, with the text `ze` |
| Dispatcher.CommandsSkipCompletion | main.py:88-104 | a command never calls the completion client and answers with exactly one message: help leaves the table alone, clear removes the sender's row, `/system` resets the history to the given system entry |
| Dispatcher.ChatRecordsBoth | main.py:106-141 | a chat message is appended as a user entry; the completion client gets that history; its reply is appended with the role `system`; what is sent is the chunked, demojized, ASCII-filtered reply |
| Dispatcher.ProcessIsolated | main.py:77-141 | handling a message never changes another sender's history |
| Dispatcher.ProcessPreservesValid | main.py:77-143 | on a valid table, handling any message raises no store error and leaves the table valid |
| Dispatcher.ClearThenMessage | main.py:96-110 | after `/clear`, the next chat message reaches the completion client with only the default system entry and the message |
| Listener.Notification | main.py:187-190 | a read is ignored iff it does not contain `+CMTI:`; it ends the listener iff it contains the marker but no comma |
| Listener.NotificationOfNotice | main.py:186-190 | for a notice `+CMTI: <mem>,<index>` with no earlier comma, the index is the stripped text after the comma |
| Listener.IndexFromFirstComma | main.py:190 | the index is the field after the first comma of the whole read, wherever the marker is |
| Listener.ParseRetrieval | main.py:200-206 | the parse fails iff the answer has no comma or fewer than two line breaks |
| Listener.ParsedShape | main.py:201-202 | a parsed sender has no double quote; a parsed body is one line with no whitespace at either end |
| Listener.ParseRetrievalOfReply | main.py:200-203 | on the echo line, `+CMGR` header and text layout of a modem answer, the parse yields the header's second comma field unquoted and the stripped text line |
| Listener.ListenAppend | main.py:180-208 | the loop over a longer run of reads continues from where the earlier reads left it, unless they ended it |
| Listener.ListenStops | main.py:180-211 | the loop ends iff some read holds the marker without a comma; queued messages never outnumber retrieval commands, nor these the reads |
| Listener.ListenQuiet | main.py:181-187 | reads without the marker write and queue nothing |
| Listener.ListenQueuedClean | main.py:200-203 | every queued sender has no double quote and every queued body is a single line |
| Listener.ListenAfterSetup | main.py:152-163 | nothing is retrieved or queued unless all three set-up commands were acknowledged; then those three lines come first, followed by the loop's commands |
| Worker.ServeAppend | main.py:169-175 | the worker handles the queue one item at a time in order; each message sees the table the previous one left |
| Worker.ServeStopsAtSentinel | main.py:170-173 | nothing after the `None` sentinel is taken off the queue |
| Worker.ServeValid | main.py:169-175 | from a valid table no store error ends the worker and the table stays valid; with no sentinel it processes every message |
| Worker.GatewayServesAll | main.py:165-218 | the listener never queues the sentinel, so from a valid table no store error ends the worker; while the listener runs, once the worker has caught up it has handled every queued message and waits for more; once the listener has returned, the daemon worker ends with the script after the messages it got to, and the rest are lost |

## Left out

- Serial I/O and time: the reads during each wait, and the read after each
  `AT+CMGR`, are parameters. The deadlines (5 and 60 seconds) are recorded
  in `Modem.Step` as the source's constants, but the model never reads
  them: how many reads a wait sees before its deadline is given by the
  length of its read sequence. The one-second sleeps are left out.
- Reads with nothing waiting are not represented. A `Listener.Poll` is one
  non-empty read. UTF-8 decoding with errors ignored, and the `encode()`
  of written commands, are left out: reads and writes are strings of
  characters.
- Threads and the queue's blocking: the worker is run over the queue the
  listener produced. How far the daemon worker gets before the script
  exits is the `drained` parameter of `Worker.Gateway`.
- openai.py: the completion client is the `complete` parameter. Its
  fallback reply on request errors is part of that function.
- Worker.ServeValid and Worker.GatewayServesAll: the completion client is
  taken to return a reply. In the source, a reply body of an unexpected
  shape raises a `KeyError`, `IndexError` or `TypeError` (openai.py:30).
  Neither handler catches it, so it would end the worker like a store
  error. A request with no timeout (openai.py:17) could also stall the
  worker forever. Neither is modelled.
- Worker.GatewayServesAll: `drained` counts whole messages only. The
  interpreter can exit between the two `add_message` calls of a chat
  message (main.py:106-112). The table then keeps the user entry without a
  reply, and the model cannot express that state.
- `emoji.demojize` is the `demojize` parameter.
- Text.Lower: only ASCII letters are lowered, because Python's
  `str.lower` maps the whole of Unicode and that table is not modelled.
- SQLite and JSON: the table is a map from number to history. Connection
  and disk errors are not modelled. `get_conversations` is never called by
  the gateway and is not modelled.
- Logging.
- `send_sms_via_serial` opening the port can fail. That exception is
  caught like a timeout, and the model has no separate case for it.
- If `serial.Serial` fails in `listen_for_sms`, the `finally` block refers
  to an unbound `ser`. This is not modelled.
- The per-message delivery of the worker's outgoing bodies goes through
  `send_sms_via_serial`, whose dialogue is modelled separately.
  `Worker.Serve` records only the bodies handed to it.
