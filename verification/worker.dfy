/** `message_handler` (main.py): the thread that takes `(sender, body)`
    pairs off the listener's queue, in order, and runs `process_message` on
    each, until it takes the `None` sentinel. `process_message` catches only
    request errors, so a store error raised inside it ends the thread. */
module Worker {

  import opened Wrappers
  import opened Conversations
  import opened Dispatcher
  import Listener

  /** One SMS handed to the sender. */
  datatype Outgoing = Outgoing(recipient: string, body: string)

  /** Where the loop stands once the queue is empty: blocked waiting for
      more, returned on the sentinel, ended by an uncaught store error, or
      ended with the interpreter, as a daemon thread is when the listener
      returns. `Killed` also stands for a worker that was never started,
      when the set-up dialogue failed: nothing was queued, so either way no
      message is handled. */
  datatype Status = Waiting | Exited | Crashed | Killed

  /** The store after the items taken so far, every SMS handed to the
      sender, how many messages were processed, and the loop's status. */
  datatype Progress = Progress(store: Store, sent: seq<Outgoing>, handled: nat, status: Status)

  /** Each body of one turn, addressed to the message's sender. */
  function Addressed(recipient: string, bodies: seq<string>): seq<Outgoing>
  {
    seq(|bodies|, i requires 0 <= i < |bodies| => Outgoing(recipient, bodies[i]))
  }

  /** The worker's loop over the items in the queue, from the given store;
      each message's store changes are seen by the next one. */
  function Serve(store: Store, queue: seq<Option<Inbound>>,
                 complete: History -> string, demojize: string -> string): (p: Progress)
    decreases |queue|
  {
    if queue == [] then Progress(store, [], 0, Waiting)
    else
      match queue[0]
      case None => Progress(store, [], 0, Exited)
      case Some(m) =>
        match ProcessMessage(store, m.sender, m.body, complete, demojize)
        case Failure(_) => Progress(store, [], 0, Crashed)
        case Success(turn) =>
          Prepend(Addressed(m.sender, turn.outbox), Serve(turn.store, queue[1..], complete, demojize))
  }

  /** One message handled, with these SMS, before the given progress. */
  function Prepend(out: seq<Outgoing>, rest: Progress): Progress
  {
    Progress(rest.store, out + rest.sent, rest.handled + 1, rest.status)
  }

  /** The worker's progress over one part of the queue followed by its
      progress over the rest, unless the first part ended the loop. */
  function Then(a: Progress, b: Progress): Progress
  {
    if a.status != Waiting then a
    else Progress(b.store, a.sent + b.sent, a.handled + b.handled, b.status)
  }

  lemma {:induction false} PrependThen(out: seq<Outgoing>, a: Progress, b: Progress)
    ensures Then(Prepend(out, a), b) == Prepend(out, Then(a, b))
  {
    if a.status == Waiting {
      assert out + (a.sent + b.sent) == out + a.sent + b.sent;
    }
  }

  /** Items are handled one at a time in queue order: handling a queue is
      handling its first part and then, from the store that part leaves,
      the rest. */
  lemma {:induction false} ServeAppend(store: Store, first: seq<Option<Inbound>>, later: seq<Option<Inbound>>,
                                       complete: History -> string, demojize: string -> string)
    ensures var a := Serve(store, first, complete, demojize);
            Serve(store, first + later, complete, demojize)
            == Then(a, Serve(a.store, later, complete, demojize))
    decreases |first|
  {
    if first == [] {
      assert first + later == later;
    } else {
      var both := first + later;
      assert both[0] == first[0];
      assert both[1..] == first[1..] + later;
      match first[0]
      case None =>
      case Some(m) =>
        var r := ProcessMessage(store, m.sender, m.body, complete, demojize);
        if r.Success? {
          var turn := r.value;
          ServeAppend(turn.store, first[1..], later, complete, demojize);
          var a1 := Serve(turn.store, first[1..], complete, demojize);
          PrependThen(Addressed(m.sender, turn.outbox), a1, Serve(a1.store, later, complete, demojize));
        }
    }
  }

  /** Nothing after the sentinel is ever taken off the queue. */
  lemma {:induction false} ServeStopsAtSentinel(store: Store, first: seq<Option<Inbound>>,
                                               later: seq<Option<Inbound>>,
                                               complete: History -> string, demojize: string -> string)
    requires Serve(store, first, complete, demojize).status == Waiting
    ensures var a := Serve(store, first, complete, demojize);
            Serve(store, first + [None] + later, complete, demojize)
            == Progress(a.store, a.sent, a.handled, Exited)
  {
    ServeAppend(store, first, [None] + later, complete, demojize);
    assert first + [None] + later == first + ([None] + later);
    var a := Serve(store, first, complete, demojize);
    assert a.sent + [] == a.sent;
  }

  /** On a valid store no store error ends the worker, and the store stays
      valid; with no sentinel in the queue it processes every message and
      waits for more. The completion client is taken to return a reply. */
  lemma {:induction false} ServeValid(store: Store, queue: seq<Option<Inbound>>,
                                      complete: History -> string, demojize: string -> string)
    requires Valid(store)
    ensures var p := Serve(store, queue, complete, demojize);
            && p.status != Crashed
            && Valid(p.store)
            && p.handled <= |queue|
            && ((forall i :: 0 <= i < |queue| ==> queue[i].Some?) ==>
                  p.status == Waiting && p.handled == |queue|)
    decreases |queue|
  {
    if queue != [] {
      match queue[0]
      case None =>
      case Some(m) =>
        ProcessPreservesValid(store, m.sender, m.body, complete, demojize);
        var turn := ProcessMessage(store, m.sender, m.body, complete, demojize).value;
        ServeValid(turn.store, queue[1..], complete, demojize);
        if forall i :: 0 <= i < |queue| ==> queue[i].Some? {
          forall i | 0 <= i < |queue[1..]|
            ensures queue[1..][i].Some?
          {
            assert queue[1..][i] == queue[i + 1];
          }
        }
    }
  }

  // ---------------------------------------------------------------------
  // The listener and the worker together

  /** The queue as the listener fills it: every item is a message. */
  function Enqueued(messages: seq<Inbound>): (q: seq<Option<Inbound>>)
    ensures |q| == |messages|
    ensures forall i :: 0 <= i < |q| ==> q[i].Some? && q[i].value == messages[i]
  {
    if messages == [] then [] else [Some(messages[0])] + Enqueued(messages[1..])
  }

  /** The running gateway: the listener's queued messages, handled by the
      worker from the given store. Once the listener has returned, the
      script ends and the daemon worker with it; `drained` is how many
      queued messages it finished before that, which thread scheduling
      decides. */
  function Gateway(store: Store, setupReplies: seq<seq<string>>, polls: seq<Listener.Poll>, drained: nat,
                   complete: History -> string, demojize: string -> string): Progress
  {
    var run := Listener.ListenForSms(setupReplies, polls);
    var queue := Enqueued(run.queued);
    if !run.stopped then Serve(store, queue, complete, demojize)
    else
      var p := Serve(store, queue[..if drained < |queue| then drained else |queue|], complete, demojize);
      if p.status == Waiting then Progress(p.store, p.sent, p.handled, Killed) else p
  }

  /** The listener never queues the sentinel, so from a valid store the
      worker is never ended by a store error: while the listener runs,
      once the worker has caught up it has handled every message queued so
      far and waits for more; once the listener has returned, it has
      handled the messages it got to before the script ended, and the rest
      are lost. */
  lemma {:induction false} GatewayServesAll(store: Store, setupReplies: seq<seq<string>>, polls: seq<Listener.Poll>,
                                            drained: nat, complete: History -> string, demojize: string -> string)
    requires Valid(store)
    ensures var run := Listener.ListenForSms(setupReplies, polls);
            var p := Gateway(store, setupReplies, polls, drained, complete, demojize);
            && p.status != Crashed
            && Valid(p.store)
            && (!run.stopped ==> p.status == Waiting && p.handled == |run.queued|)
            && (run.stopped ==>
                  p.status == Killed
                  && p.handled == if drained < |run.queued| then drained else |run.queued|)
  {
    var run := Listener.ListenForSms(setupReplies, polls);
    var queue := Enqueued(run.queued);
    if !run.stopped {
      ServeValid(store, queue, complete, demojize);
    } else {
      var taken := queue[..if drained < |queue| then drained else |queue|];
      assert forall i :: 0 <= i < |taken| ==> taken[i] == queue[i];
      ServeValid(store, taken, complete, demojize);
    }
  }
}
