/** The command/response side of the serial line: waiting for a terminator
    in accumulated modem output (`wait_for_response`, main.py) and the fixed
    AT dialogue that sends one SMS (`send_sms_via_serial`, main.py).

    Real time is replaced by a finite sequence of read results: `polls[i]`
    is what the i-th poll of the serial line returned, and `fuel` is how
    many polls fit before the deadline. */
module Modem {

  import opened Wrappers
  import opened Text

  /** `wait_for_response`: append each read to the buffer and return the
      whole buffer as soon as it contains `expected`; `None` is the timeout
      exception. */
  function Await<T(==)>(polls: seq<seq<T>>, expected: seq<T>, fuel: nat): (r: Option<seq<T>>)
  {
    AwaitFrom([], polls, expected, fuel)
  }

  /** The polling loop, with `received` the buffer so far. */
  function AwaitFrom<T(==)>(received: seq<T>, polls: seq<seq<T>>, expected: seq<T>, fuel: nat): Option<seq<T>>
    decreases fuel
  {
    if fuel == 0 || polls == [] then None
    else
      var buffer := received + polls[0];
      if Contains(buffer, expected) then Some(buffer)
      else AwaitFrom(buffer, polls[1..], expected, fuel - 1)
  }

  /** After the first `k` polls the buffer holds `expected`. */
  ghost predicate FoundAfter<T>(polls: seq<seq<T>>, expected: seq<T>, k: nat) {
    1 <= k <= |polls| && Contains(Concat(polls[..k]), expected)
  }

  lemma {:induction false} AwaitFromFirstHit<T>(polls: seq<seq<T>>, i: nat, expected: seq<T>, fuel: nat)
    requires i <= |polls|
    ensures var out := AwaitFrom(Concat(polls[..i]), polls[i..], expected, fuel);
            && (out.None? ==> forall k :: i < k <= i + fuel ==> !FoundAfter(polls, expected, k))
            && (out.Some? ==> exists k :: && i < k <= i + fuel
                                          && FoundAfter(polls, expected, k)
                                          && out.value == Concat(polls[..k])
                                          && forall j :: i < j < k ==> !FoundAfter(polls, expected, j))
    decreases fuel
  {
    if fuel > 0 && i < |polls| {
      assert polls[..i + 1] == polls[..i] + [polls[i]];
      ConcatSnoc(polls[..i], polls[i]);
      assert polls[i..][0] == polls[i];
      assert polls[i..][1..] == polls[i + 1..];
      var buffer := Concat(polls[..i]) + polls[i];
      if !Contains(buffer, expected) {
        AwaitFromFirstHit(polls, i + 1, expected, fuel - 1);
      }
    }
  }

  /** The wait succeeds exactly when some prefix of the polls within the
      budget contains the terminator, and then returns the concatenation of
      the shortest such prefix: a terminator split across polls is found,
      and whatever follows it in the last read is kept. */
  lemma AwaitFirstHit<T>(polls: seq<seq<T>>, expected: seq<T>, fuel: nat)
    ensures Await(polls, expected, fuel).None? <==>
            forall k :: 1 <= k <= fuel ==> !FoundAfter(polls, expected, k)
    ensures Await(polls, expected, fuel).Some? ==>
            exists k :: && 1 <= k <= fuel
                        && FoundAfter(polls, expected, k)
                        && Await(polls, expected, fuel).value == Concat(polls[..k])
                        && forall j :: 1 <= j < k ==> !FoundAfter(polls, expected, j)
  {
    assert polls[..0] == [];
    assert polls[0..] == polls;
    AwaitFromFirstHit(polls, 0, expected, fuel);
  }

  /** An `OK` split over two polls is found, and the line end after it is
      kept; without the second read the wait times out. */
  lemma SplitTerminatorExample()
    ensures Await(["AT\r\nO", "K\r\n"], "OK", 5) == Some("AT\r\nOK\r\n")
    ensures Await(["AT\r\nO", "K\r\n"], "OK", 1) == None
  {
    assert !Contains("AT\r\nO", "OK") by {
      assert !Contains("O", "OK");
      assert "\nO"[1..] == "O";
      assert !("OK" <= "\nO") by { assert "\nO"[0] != "OK"[0]; }
      assert !Contains("\nO", "OK");
      assert "\r\nO"[1..] == "\nO";
      assert !("OK" <= "\r\nO") by { assert "\r\nO"[0] != "OK"[0]; }
      assert !Contains("\r\nO", "OK");
      assert "T\r\nO"[1..] == "\r\nO";
      assert !("OK" <= "T\r\nO") by { assert "T\r\nO"[0] != "OK"[0]; }
      assert !Contains("T\r\nO", "OK");
      assert "AT\r\nO"[1..] == "T\r\nO";
      assert !("OK" <= "AT\r\nO") by { assert "AT\r\nO"[0] != "OK"[0]; }
    }
    assert "AT\r\nO" + "K\r\n" == "AT\r\nOK\r\n";
    assert Contains("AT\r\nOK\r\n", "OK") by {
      ContainsAt("AT\r\nOK\r\n", "OK", 4);
    }
    var polls := ["AT\r\nO", "K\r\n"];
    assert [] + polls[0] == "AT\r\nO" && polls[1..] == ["K\r\n"];
    assert AwaitFrom("AT\r\nO", ["K\r\n"], "OK", 4) == Some("AT\r\nOK\r\n");
  }

  // ---------------------------------------------------------------------
  // Sending one SMS

  /** One command turn: what is written, then what is awaited. */
  datatype Step = Step(writes: seq<string>, awaits: string, timeout: nat)

  /** The Ctrl+Z byte that makes the modem transmit the message. */
  const CtrlZ: string := "\U{1a}"

  /** The six writes and five waits of `send_sms_via_serial`. */
  function SendScript(phone: string, body: string): seq<Step>
  {
    [ Step(["AT\r"], "OK", 5),
      Step(["AT+CMGF=1\r"], "OK", 5),
      Step(["AT+CSCS=\"GSM\"\r"], "OK", 5),
      Step(["AT+CMGS=\"" + phone + "\"\r"], ">", 5),
      Step([body + "\r", CtrlZ], "OK", 60) ]
  }

  /** What a dialogue wrote before it ended, and whether every wait
      succeeded. */
  datatype Delivery = Delivery(written: seq<string>, sent: bool)

  /** The reads observed during step `i`, up to that step's deadline. */
  function PollsFor(replies: seq<seq<string>>, i: nat): seq<string>
  {
    if i < |replies| then replies[i] else []
  }

  /** For each step, whether its wait saw the terminator before the
      deadline. */
  function Answers(steps: seq<Step>, replies: seq<seq<string>>): (ok: seq<bool>)
    ensures |ok| == |steps|
  {
    seq(|steps|, i requires 0 <= i < |steps| =>
      var polls := PollsFor(replies, i);
      Await(polls, steps[i].awaits, |polls|).Some?)
  }

  /** All the writes of the given steps, in order. */
  function AllWrites(steps: seq<Step>): seq<string>
  {
    if steps == [] then [] else steps[0].writes + AllWrites(steps[1..])
  }

  /** Run the steps from step `i` on; the first timeout raises, which the
      sender catches: it stops writing and reports the message unsent. */
  function Dialogue(steps: seq<Step>, ok: seq<bool>, i: nat): Delivery
    requires |ok| == |steps| && i <= |steps|
    decreases |steps| - i
  {
    if i == |steps| then Delivery([], true)
    else if !ok[i] then Delivery(steps[i].writes, false)
    else
      var rest := Dialogue(steps, ok, i + 1);
      Delivery(steps[i].writes + rest.written, rest.sent)
  }

  lemma {:induction false} AllWritesSnoc(steps: seq<Step>, s: Step)
    ensures AllWrites(steps + [s]) == AllWrites(steps) + s.writes
    decreases |steps|
  {
    if steps == [] {
      assert [] + [s] == [s];
    } else {
      assert (steps + [s])[1..] == steps[1..] + [s];
      AllWritesSnoc(steps[1..], s);
    }
  }

  lemma {:induction false} DialogueFrom(steps: seq<Step>, ok: seq<bool>, i: nat)
    requires |ok| == |steps| && i <= |steps|
    ensures var d := Dialogue(steps, ok, i);
            && (d.sent <==> forall j :: i <= j < |steps| ==> ok[j])
            && (d.sent ==> d.written == AllWrites(steps[i..]))
            && (!d.sent ==> exists k :: && i <= k < |steps| && !ok[k]
                                        && (forall j :: i <= j < k ==> ok[j])
                                        && d.written == AllWrites(steps[i..k + 1]))
    decreases |steps| - i
  {
    if i < |steps| {
      assert steps[i..][0] == steps[i];
      assert steps[i..][1..] == steps[i + 1..];
      if !ok[i] {
        assert steps[i..i + 1] == [steps[i]];
        assert AllWrites(steps[i..i + 1]) == steps[i].writes + AllWrites([]);
      } else {
        DialogueFrom(steps, ok, i + 1);
        var d := Dialogue(steps, ok, i + 1);
        if !d.sent {
          var k :| && i + 1 <= k < |steps| && !ok[k]
                   && (forall j :: i + 1 <= j < k ==> ok[j])
                   && d.written == AllWrites(steps[i + 1..k + 1]);
          assert steps[i..k + 1][0] == steps[i];
          assert steps[i..k + 1][1..] == steps[i + 1..k + 1];
        }
      }
    }
  }

  /** A dialogue reports success exactly when every step saw its terminator
      in time; it then has written every step's text in order. When a step
      times out, the writes stop right after that step's own writes. */
  lemma DialogueOutcome(steps: seq<Step>, ok: seq<bool>)
    requires |ok| == |steps|
    ensures var d := Dialogue(steps, ok, 0);
            && (d.sent <==> forall j :: 0 <= j < |steps| ==> ok[j])
            && (d.sent ==> d.written == AllWrites(steps))
            && (!d.sent ==> exists k :: && 0 <= k < |steps| && !ok[k]
                                        && (forall j :: 0 <= j < k ==> ok[j])
                                        && d.written == AllWrites(steps[..k + 1]))
  {
    DialogueFrom(steps, ok, 0);
    assert steps[0..] == steps;
  }

  /** `send_sms_via_serial` over the modem replies to each of its steps. */
  function SendSms(phone: string, body: string, replies: seq<seq<string>>): Delivery
  {
    var script := SendScript(phone, body);
    Dialogue(script, Answers(script, replies), 0)
  }

  /** The six lines `send_sms_via_serial` writes, in order. */
  function ScriptLines(phone: string, body: string): seq<string>
  {
    ["AT\r", "AT+CMGF=1\r", "AT+CSCS=\"GSM\"\r",
     "AT+CMGS=\"" + phone + "\"\r", body + "\r", CtrlZ]
  }

  lemma {:induction false} ScriptPrefixWrites(phone: string, body: string, k: nat)
    requires k < 5
    ensures AllWrites(SendScript(phone, body)[..k + 1])
            == ScriptLines(phone, body)[..if k == 4 then 6 else k + 1]
    decreases k
  {
    var script := SendScript(phone, body);
    if k == 0 {
      assert script[..1] == [script[0]];
      assert AllWrites(script[..1]) == script[0].writes + AllWrites([]);
    } else {
      ScriptPrefixWrites(phone, body, k - 1);
      assert script[..k + 1] == script[..k] + [script[k]];
      AllWritesSnoc(script[..k], script[k]);
    }
  }

  /** The message text goes out only after the modem accepted the first
      three commands and answered the send command with its `>` prompt;
      it is followed by Ctrl+Z and is the last thing written. A delivered
      message has written exactly the six lines of the dialogue. */
  lemma SendSmsBodyAfterPrompt(phone: string, body: string, replies: seq<seq<string>>)
    ensures var d := SendSms(phone, body, replies);
            var ok := Answers(SendScript(phone, body), replies);
            && (|d.written| > 4 <==> ok[0] && ok[1] && ok[2] && ok[3])
            && (|d.written| > 4 ==> d.written[4..] == [body + "\r", CtrlZ])
            && (d.sent <==> ok[0] && ok[1] && ok[2] && ok[3] && ok[4])
            && (d.sent ==> d.written == ScriptLines(phone, body))
  {
    var script := SendScript(phone, body);
    var ok := Answers(script, replies);
    DialogueOutcome(script, ok);
    var d := SendSms(phone, body, replies);
    ScriptPrefixWrites(phone, body, 4);
    assert script[..5] == script;
    if !d.sent {
      var k :| && 0 <= k < 5 && !ok[k]
               && (forall j :: 0 <= j < k ==> ok[j])
               && d.written == AllWrites(script[..k + 1]);
      ScriptPrefixWrites(phone, body, k);
    }
  }
}
