/** `listen_for_sms` (main.py): the modem is set up to announce new
    messages with a `+CMTI: <mem>,<index>` line, and each announcement is
    answered by reading the message at that index with `AT+CMGR` and
    queueing `(sender, body)` for the worker.

    The serial line is replaced by a finite sequence of polls: what each
    non-empty read returned and what the modem answered to the retrieval
    command written after it. The loop runs forever in the source, so it
    only ends by an exception, which its handler logs before closing the
    port; that is `stopped`. */
module Listener {

  import opened Wrappers
  import opened Text
  import opened Modem
  import opened Dispatcher

  /** The unsolicited result code of a newly stored message. */
  const Marker: string := "+CMTI:"

  /** What one read says about new messages. A read that mentions the
      marker but has no comma raises an `IndexError` outside the inner
      handler, which ends the listener. */
  datatype Notice = Quiet | Index(index: string) | Broken

  /** The check on each read: the marker anywhere in it, then the index as
      the stripped text between the first and second comma of the whole
      read. */
  function Notification(data: string): (n: Notice)
    ensures n == Quiet <==> !Contains(data, Marker)
    ensures n == Broken <==> Contains(data, Marker) && ',' !in data
  {
    if !Contains(data, Marker) then Quiet
    else
      SecondFieldExists(data, ',');
      match Field(data, ',', 1)
      case None => Broken
      case Some(f) => Index(Strip(f))
  }

  /** The command that reads the message stored at `index`. */
  function RetrievalCommand(index: string): string
  {
    "AT+CMGR=" + index + "\r"
  }

  /** The parse of the `AT+CMGR` answer: the sender is the stripped text
      between the first and second comma with every double quote removed;
      the body is the stripped third line. `None` is the `IndexError` the
      inner handler logs, after which the message is dropped. */
  function ParseRetrieval(response: string): (m: Option<Inbound>)
    ensures m.None? <==> ',' !in response || multiset(response)['\n'] < 2
  {
    SecondFieldExists(response, ',');
    SecondFieldExists(response, '\n');
    match (Field(response, ',', 1), Field(response, '\n', 2))
    case (Some(number), Some(line)) => Some(Inbound(RemoveAll(Strip(number), '"'), Strip(line)))
    case _ => None
  }

  /** A parsed sender holds no double quote, and a parsed body is a single
      line with no whitespace at either end. */
  lemma {:induction false} ParsedShape(response: string)
    requires ParseRetrieval(response).Some?
    ensures var m := ParseRetrieval(response).value;
            && '"' !in m.sender
            && '\n' !in m.body
            && (m.body == [] || (!IsSpace(m.body[0]) && !IsSpace(m.body[|m.body| - 1])))
  {
    var line := Field(response, '\n', 2).value;
    assert line in Split(response, '\n');
    StripKeepsOnly(line, '\n');
  }

  /** The second comma-separated field of `head,number,tail` is `number`
      when neither `head` nor `number` holds a comma. */
  lemma {:induction false} SecondCommaField(head: string, number: string, tail: string)
    requires ',' !in head && ',' !in number
    ensures Field(head + "," + number + "," + tail, ',', 1) == Some(number)
  {
    var after := number + "," + tail;
    assert head + "," + number + "," + tail == head + [','] + after;
    SplitAtFirst(head, after, ',');
    assert after == number + [','] + tail;
    SplitAtFirst(number, tail, ',');
  }

  /** The third line of `a\nb\nc\nrest` is `c` when none of the three
      lines holds a line break. */
  lemma {:induction false} ThirdLine(a: string, b: string, c: string, rest: string)
    requires '\n' !in a && '\n' !in b && '\n' !in c
    ensures Field(a + "\n" + b + "\n" + c + "\n" + rest, '\n', 2) == Some(c)
  {
    var s := a + "\n" + b + "\n" + c + "\n" + rest;
    var afterA := b + "\n" + c + "\n" + rest;
    var afterB := c + "\n" + rest;
    assert s == a + ['\n'] + afterA;
    assert afterA == b + ['\n'] + afterB;
    assert afterB == c + ['\n'] + rest;
    SplitAtFirst(a, afterA, '\n');
    SplitAtFirst(b, afterB, '\n');
    SplitAtFirst(c, rest, '\n');
  }

  /** The parse reads exactly two fields: the second by commas and the
      third by lines. */
  lemma {:induction false} ParseFromFields(response: string, number: string, line: string)
    requires Field(response, ',', 1) == Some(number)
    requires Field(response, '\n', 2) == Some(line)
    ensures ParseRetrieval(response) == Some(Inbound(RemoveAll(Strip(number), '"'), Strip(line)))
  {
  }

  /** On the layout a modem answers with (an echo or blank line, the
      `+CMGR:` header whose second comma-separated field is the quoted
      number, then the text), the parse yields that number and that text. */
  lemma {:induction false} ParseRetrievalOfReply(echo: string, status: string, number: string,
                                                 details: string, text: string, rest: string)
    requires ',' !in echo && ',' !in status && ',' !in number
    requires '\n' !in echo && '\n' !in status && '\n' !in number && '\n' !in details
    requires '\n' !in text
    ensures ParseRetrieval(echo + "\n" + status + "," + number + "," + details + "\n" + text + "\n" + rest)
            == Some(Inbound(RemoveAll(Strip(number), '"'), Strip(text)))
  {
    var header := status + "," + number + "," + details;
    var tail := details + "\n" + text + "\n" + rest;
    var response := echo + "\n" + status + "," + number + "," + details + "\n" + text + "\n" + rest;
    assert response == (echo + "\n" + status) + "," + number + "," + tail;
    SecondCommaField(echo + "\n" + status, number, tail);
    assert '\n' !in header;
    assert response == echo + "\n" + header + "\n" + text + "\n" + rest;
    ThirdLine(echo, header, text, rest);
    ParseFromFields(response, number, text);
  }

  /** In a notification `+CMTI: "SM",3` the index is the text after the
      comma, with the line end stripped. */
  lemma {:induction false} NotificationOfNotice(prefix: string, memory: string, index: string)
    requires ',' !in prefix + Marker + memory && ',' !in index
    ensures Notification(prefix + Marker + memory + "," + index) == Index(Strip(index))
  {
    var head := prefix + Marker + memory;
    var data := head + "," + index;
    assert data == prefix + Marker + (memory + "," + index);
    assert data[|prefix|..|prefix| + |Marker|] == Marker;
    ContainsAt(data, Marker, |prefix|);
    assert data == head + [','] + index;
    SplitAtFirst(head, index, ',');
    SplitNoSeparator(index, ',');
  }

  /** The index is taken from the first comma of the whole read, wherever
      the marker is: a comma earlier in the same read moves it. */
  lemma {:induction false} IndexFromFirstComma(before: string, after: string)
    requires ',' !in before
    requires Contains(before + "," + after, Marker)
    ensures Notification(before + "," + after) == Index(Strip(Split(after, ',')[0]))
  {
    assert before + "," + after == before + [','] + after;
    SplitAtFirst(before, after, ',');
  }

  // ---------------------------------------------------------------------
  // The listening loop

  /** One non-empty read, and the modem's answer to the retrieval command
      the listener writes if the read is a notification. */
  datatype Poll = Poll(data: string, response: string)

  /** What the loop has done: the commands written, the messages queued,
      and whether it has ended on an exception. */
  datatype Run = Run(written: seq<string>, queued: seq<Inbound>, stopped: bool)

  /** One turn of the loop, given what the read says and how the answer
      to the retrieval command parses, and what the turns on the later
      reads do. */
  function Handle(notice: Notice, parsed: Option<Inbound>, rest: Run): Run
  {
    match notice
    case Quiet => rest
    case Broken => Run([], [], true)
    case Index(index) =>
      var queued := if parsed.Some? then [parsed.value] else [];
      Run([RetrievalCommand(index)] + rest.written, queued + rest.queued, rest.stopped)
  }

  /** One turn of the loop on a read. */
  function Advance(poll: Poll, rest: Run): Run
  {
    Handle(Notification(poll.data), ParseRetrieval(poll.response), rest)
  }

  /** The listening loop over the given reads. */
  function Listen(polls: seq<Poll>): (run: Run)
    decreases |polls|
  {
    if polls == [] then Run([], [], false) else Advance(polls[0], Listen(polls[1..]))
  }

  /** A run followed by another, unless the first already stopped. */
  function Then(a: Run, b: Run): Run
  {
    if a.stopped then a else Run(a.written + b.written, a.queued + b.queued, b.stopped)
  }

  lemma {:induction false} HandleThen(notice: Notice, parsed: Option<Inbound>, a: Run, b: Run)
    ensures Handle(notice, parsed, Then(a, b)) == Then(Handle(notice, parsed, a), b)
  {
    match notice
    case Quiet =>
    case Broken =>
    case Index(index) =>
      var queued := if parsed.Some? then [parsed.value] else [];
      if !a.stopped {
        assert [RetrievalCommand(index)] + (a.written + b.written)
               == [RetrievalCommand(index)] + a.written + b.written;
        assert queued + (a.queued + b.queued) == queued + a.queued + b.queued;
      }
  }

  lemma {:induction false} AdvanceThen(poll: Poll, a: Run, b: Run)
    ensures Advance(poll, Then(a, b)) == Then(Advance(poll, a), b)
  {
    HandleThen(Notification(poll.data), ParseRetrieval(poll.response), a, b);
  }

  /** The loop continues over later reads exactly where it left off: what
      a run writes and queues is what its first part did followed by what
      the rest did, unless the first part already stopped it. */
  lemma {:induction false} ListenAppend(first: seq<Poll>, later: seq<Poll>)
    ensures Listen(first + later) == Then(Listen(first), Listen(later))
    decreases |first|
  {
    if first == [] {
      assert first + later == later;
    } else {
      var both := first + later;
      assert both[0] == first[0];
      assert both[1..] == first[1..] + later;
      ListenAppend(first[1..], later);
      AdvanceThen(first[0], Listen(first[1..]), Listen(later));
    }
  }

  /** The loop stops exactly when some read mentions the marker without a
      comma. Each queued message follows a retrieval command, and each
      retrieval command follows a read. */
  lemma {:induction false} HandleStops(notice: Notice, parsed: Option<Inbound>, rest: Run)
    ensures var run := Handle(notice, parsed, rest);
            && (run.stopped <==> notice == Broken || rest.stopped)
            && (|rest.queued| <= |rest.written| ==> |run.queued| <= |run.written|)
            && |run.written| <= |rest.written| + 1
  {
  }

  lemma {:induction false} AdvanceStops(poll: Poll, rest: Run)
    ensures var run := Advance(poll, rest);
            && (run.stopped <==> Notification(poll.data) == Broken || rest.stopped)
            && (|rest.queued| <= |rest.written| ==> |run.queued| <= |run.written|)
            && |run.written| <= |rest.written| + 1
  {
    HandleStops(Notification(poll.data), ParseRetrieval(poll.response), rest);
  }

  lemma {:induction false} ListenStops(polls: seq<Poll>)
    ensures Listen(polls).stopped <==>
            exists i :: 0 <= i < |polls| && Notification(polls[i].data) == Broken
    ensures |Listen(polls).queued| <= |Listen(polls).written| <= |polls|
    decreases |polls|
  {
    if polls != [] {
      ListenStops(polls[1..]);
      AdvanceStops(polls[0], Listen(polls[1..]));
      if exists i :: 0 <= i < |polls| && Notification(polls[i].data) == Broken {
        var i :| 0 <= i < |polls| && Notification(polls[i].data) == Broken;
        if i > 0 {
          assert polls[1..][i - 1] == polls[i];
        }
      }
      if exists i :: 0 <= i < |polls[1..]| && Notification(polls[1..][i].data) == Broken {
        var i :| 0 <= i < |polls[1..]| && Notification(polls[1..][i].data) == Broken;
        assert polls[i + 1] == polls[1..][i];
      }
    }
  }

  /** Reads that never mention the marker write nothing and queue nothing. */
  lemma {:induction false} ListenQuiet(polls: seq<Poll>)
    requires forall i :: 0 <= i < |polls| ==> !Contains(polls[i].data, Marker)
    ensures Listen(polls) == Run([], [], false)
    decreases |polls|
  {
    if polls != [] {
      assert Notification(polls[0].data) == Quiet;
      ListenQuiet(polls[1..]);
    }
  }

  /** A sender with its quotes removed and a body of one line. */
  predicate Clean(m: Inbound) {
    '"' !in m.sender && '\n' !in m.body
  }

  lemma {:induction false} HandleClean(notice: Notice, parsed: Option<Inbound>, rest: Run)
    requires parsed.Some? ==> Clean(parsed.value)
    requires forall i :: 0 <= i < |rest.queued| ==> Clean(rest.queued[i])
    ensures var run := Handle(notice, parsed, rest);
            forall i :: 0 <= i < |run.queued| ==> Clean(run.queued[i])
  {
    var queued := if parsed.Some? then [parsed.value] else [];
    var run := Handle(notice, parsed, rest);
    if notice.Index? {
      assert run.queued == queued + rest.queued;
      forall i | 0 <= i < |run.queued|
        ensures Clean(run.queued[i])
      {
        if i >= |queued| {
          assert run.queued[i] == rest.queued[i - |queued|];
        }
      }
    }
  }

  lemma {:induction false} AdvanceClean(poll: Poll, rest: Run)
    requires forall i :: 0 <= i < |rest.queued| ==> Clean(rest.queued[i])
    ensures var run := Advance(poll, rest);
            forall i :: 0 <= i < |run.queued| ==> Clean(run.queued[i])
  {
    var parsed := ParseRetrieval(poll.response);
    if parsed.Some? {
      ParsedShape(poll.response);
    }
    HandleClean(Notification(poll.data), parsed, rest);
  }

  /** Every queued sender has had its quotes removed and every queued body
      is a single line. */
  lemma {:induction false} ListenQueuedClean(polls: seq<Poll>)
    ensures forall i :: 0 <= i < |Listen(polls).queued| ==> Clean(Listen(polls).queued[i])
    decreases |polls|
  {
    if polls != [] {
      ListenQueuedClean(polls[1..]);
      AdvanceClean(polls[0], Listen(polls[1..]));
    }
  }

  // ---------------------------------------------------------------------
  // Start-up

  /** The three set-up commands, each acknowledged by `OK` within five
      seconds: attention, text mode, and new-message notification. */
  function SetupScript(): seq<Step>
  {
    [ Step(["AT\r"], "OK", 5),
      Step(["AT+CMGF=1\r"], "OK", 5),
      Step(["AT+CNMI=2,1,0,0,0\r"], "OK", 5) ]
  }

  /** The three lines the set-up writes, in order. */
  const SetupLines: seq<string> := ["AT\r", "AT+CMGF=1\r", "AT+CNMI=2,1,0,0,0\r"]

  /** `listen_for_sms`: the set-up dialogue, then the loop. A set-up
      timeout raises and ends the listener before the loop starts. */
  function ListenForSms(setupReplies: seq<seq<string>>, polls: seq<Poll>): Run
  {
    var script := SetupScript();
    var setup := Dialogue(script, Answers(script, setupReplies), 0);
    if !setup.sent then Run(setup.written, [], true)
    else
      var loop := Listen(polls);
      Run(setup.written + loop.written, loop.queued, loop.stopped)
  }

  /** Nothing is retrieved or queued unless the modem acknowledged every
      set-up command; when it did, the three set-up commands come first and
      the loop's commands follow. */
  lemma {:induction false} ListenAfterSetup(setupReplies: seq<seq<string>>, polls: seq<Poll>)
    ensures var script := SetupScript();
            var ok := Answers(script, setupReplies);
            var run := ListenForSms(setupReplies, polls);
            && (!(ok[0] && ok[1] && ok[2]) ==>
                  run.stopped && run.queued == [] && 1 <= |run.written| <= 3)
            && ((ok[0] && ok[1] && ok[2]) ==>
                  run == Then(Run(SetupLines, [], false), Listen(polls)))
  {
    var script := SetupScript();
    var ok := Answers(script, setupReplies);
    DialogueOutcome(script, ok);
    var setup := Dialogue(script, ok, 0);
    assert AllWrites(script) == SetupLines by {
      assert script[1..][1..][1..] == [];
      assert script[1..][1..] == [script[2]];
      assert script[1..] == [script[1], script[2]];
    }
    if !setup.sent {
      var k :| && 0 <= k < |script| && !ok[k]
               && (forall j :: 0 <= j < k ==> ok[j])
               && setup.written == AllWrites(script[..k + 1]);
      SetupPrefixWrites(k);
    }
  }

  lemma {:induction false} SetupPrefixWrites(k: nat)
    requires k < 3
    ensures |AllWrites(SetupScript()[..k + 1])| == k + 1
    decreases k
  {
    var script := SetupScript();
    if k == 0 {
      assert script[..1] == [script[0]];
      assert AllWrites(script[..1]) == script[0].writes + AllWrites([]);
    } else {
      SetupPrefixWrites(k - 1);
      assert script[..k + 1] == script[..k] + [script[k]];
      AllWritesSnoc(script[..k], script[k]);
    }
  }
}
