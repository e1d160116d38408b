/** What every run of an asynchronous connection delivers. */
module AsyncRuns {
  import opened Bytes
  import opened RespSpec
  import RespRuns
  import opened AsyncSpec

  function Callbacks(reqs: seq<Request>): (cbs: seq<Callback>)
    ensures |cbs| == |reqs|
    ensures forall i :: 0 <= i < |reqs| ==> cbs[i] == reqs[i].cb
  {
    if reqs == [] then [] else [reqs[0].cb] + Callbacks(reqs[1..])
  }

  /** The bytes of some commands. */
  function Commands(reqs: seq<Request>): seq<byte> {
    if reqs == [] then [] else Commands(reqs[..|reqs| - 1]) + reqs[|reqs| - 1].cmd
  }

  /** What the callback of request number k is to be run with: reply number k, or NULL when there is none. */
  function Answer(replies: seq<Reply>, k: nat): Option<Reply> {
    if k < |replies| then Some(replies[k]) else None
  }

  /** The callbacks of some requests in order, each run once with its answer; NULL callbacks are passed over. */
  function Deliveries(reqs: seq<Request>, replies: seq<Reply>): seq<Delivery> {
    if reqs == [] then []
    else
      var k := |reqs| - 1;
      Deliveries(reqs[..k], replies) + if reqs[k].cb.Fn? then [Delivery(reqs[k].cb, Answer(replies, k))] else []
  }

  /** Requests whose callback is still owed. */
  ghost predicate Owed(s: Conn, taken: nat) {
    taken <= |s.accepted| && s.queue == Callbacks(s.accepted)[taken..]
  }

  /** The history of a connection whose first taken requests have been dealt with. */
  ghost predicate Good(s: Conn, taken: nat) {
    && Owed(s, taken)
    && |s.answered| <= taken
    && s.log == Deliveries(s.accepted[..taken], s.answered)
    && s.sent + s.obuf == Commands(s.accepted)
  }

  // ----- Steps that keep the history good -----

  lemma {:induction false} CallbacksAppend(reqs: seq<Request>, r: Request)
    ensures Callbacks(reqs + [r]) == Callbacks(reqs) + [r.cb]
  {
  }

  /** A reply to come later does not change what has been delivered before it. */
  lemma {:induction false} DeliveriesExtend(reqs: seq<Request>, replies: seq<Reply>, r: Reply)
    requires |reqs| <= |replies|
    ensures Deliveries(reqs, replies + [r]) == Deliveries(reqs, replies)
  {
    if reqs != [] {
      DeliveriesExtend(reqs[..|reqs| - 1], replies, r);
    }
  }

  lemma {:induction false} CommandsAppend(reqs: seq<Request>, r: Request)
    ensures Commands(reqs + [r]) == Commands(reqs) + r.cmd
  {
    assert (reqs + [r])[..|reqs|] == reqs;
  }

  lemma GoodCommand(s: Conn, taken: nat, cb: Callback, cmd: seq<byte>)
    requires Good(s, taken)
    ensures Good(Command(s, cb, cmd), taken)
  {
    hide Commands, Callbacks, Deliveries;
    var reqs := s.accepted + [Request(cb, cmd)];
    CallbacksAppend(s.accepted, Request(cb, cmd));
    CommandsAppend(s.accepted, Request(cb, cmd));
    assert reqs[..taken] == s.accepted[..taken];
    assert s.sent + (s.obuf + cmd) == s.sent + s.obuf + cmd;
  }

  lemma {:induction false} GoodScript(s: Conn, taken: nat, script: seq<Action>)
    requires s.status == Live && s.inCallback && Good(s, taken)
    ensures Good(RunScript(s, script), taken)
    decreases |script|
  {
    hide Commands, Callbacks, Deliveries;
    if script != [] {
      if script[0].Issue? {
        GoodCommand(s, taken, script[0].cb, script[0].cmd);
      }
      GoodScript(Act(s, script[0]), taken, script[1..]);
    }
  }

  lemma GoodRunning(s: Conn, taken: nat, cb: Callback, reply: Option<Reply>)
    requires s.status == Live && !s.inCallback
    requires Good(if cb.Fn? then s.(log := s.log + [Delivery(cb, reply)]) else s, taken)
    ensures Good(RunCallback(s, cb, reply), taken)
  {
    hide RunScript, Commands, Callbacks, Deliveries;
    if cb.Fn? {
      GoodScript(s.(inCallback := true, log := s.log + [Delivery(cb, reply)]), taken, cb.script);
    }
  }

  /** The state once the next callback has been taken off the queue, with a reply for it if there is one. */
  function Taken(s: Conn, reply: Option<Reply>): Conn
    requires s.queue != []
  {
    s.(queue := s.queue[1..], answered := if reply.Some? then s.answered + [reply.value] else s.answered)
  }

  lemma DeliveriesNext(reqs: seq<Request>, k: nat, replies: seq<Reply>)
    requires k < |reqs|
    ensures Deliveries(reqs[..k + 1], replies)
         == Deliveries(reqs[..k], replies) + if reqs[k].cb.Fn? then [Delivery(reqs[k].cb, Answer(replies, k))] else []
  {
    assert reqs[..k + 1][..k] == reqs[..k];
  }

  lemma {:induction false} GoodTake(s: Conn, taken: nat, reply: Option<Reply>)
    requires s.status == Live && !s.inCallback && Good(s, taken) && s.queue != []
    requires reply.Some? ==> |s.answered| == taken
    ensures Good(RunCallback(Taken(s, reply), s.queue[0], reply), taken + 1)
  {
    hide RunCallback, Commands, Callbacks, Deliveries;
    var r := Taken(s, reply);
    assert s.accepted[taken].cb == s.queue[0];
    if reply.Some? {
      DeliveriesExtend(s.accepted[..taken], s.answered, reply.value);
    }
    assert Answer(r.answered, taken) == reply;
    DeliveriesNext(s.accepted, taken, r.answered);
    GoodRunning(r, taken + 1, s.queue[0], reply);
  }

  lemma {:induction false} GoodDrain(s: Conn, taken: nat)
    requires s.status == Live && !s.inCallback && Closing(s) && Good(s, taken)
    ensures var r := Drain(s);
      && Good(r, |r.accepted|) && r.accepted == s.accepted && r.answered == s.answered && r.told == s.told
      && r.inbox == s.inbox && r.connected == s.connected && r.hook == s.hook && (s.freeing ==> r.freeing)
    decreases |s.queue|
  {
    hide RunCallback, Commands, Callbacks, Deliveries;
    if s.queue != [] {
      GoodTake(s, taken, None);
      GoodDrain(RunCallback(Taken(s, None), s.queue[0], None), taken + 1);
    }
  }

  // ----- Whole runs -----

  /**
   Between events, everything received has been handed out: the callbacks run are those of the first accepted
   requests, in order, each with the reply of its number; after the context is freed, they are those of all of
   them, and the disconnect hook has been told once if the connection had come up.
   */
  ghost predicate Settled(s: Conn) {
    && !s.inCallback
    && s.answered <= ParseStream(s.inbox).replies
    && match s.status
       case Live =>
         && Good(s, |s.answered|) && s.answered == ParseStream(s.inbox).replies
         && ParseStream(s.inbox).failure.None? && s.told == [] && !s.freeing
       case Freed => Good(s, |s.accepted|) && Answered(s) && |s.told| == if s.hook && s.connected then 1 else 0
       case Aborted => Good(s, |s.answered|) && s.told == [] && (Unasked(s) || Unflushed(s))
  }

  /**
   Nothing that came was kept back: all replies received have been used, or every command has had one, or a
   free was asked for.
   */
  ghost predicate Answered(s: Conn) {
    s.freeing || |s.answered| == |s.accepted| || s.answered == ParseStream(s.inbox).replies
  }

  /** A reply, not an error, arrived when no command was waiting for one. */
  ghost predicate Unasked(s: Conn) {
    var replies := ParseStream(s.inbox).replies;
    s.queue == [] && |s.answered| < |replies| && !replies[|s.answered|].Error?
  }

  /** A disconnect was asked for, all has been sent and all that came was handed out, but commands still wait. */
  ghost predicate Unflushed(s: Conn) {
    s.queue != [] && s.disconnecting && s.obuf == [] && s.answered == ParseStream(s.inbox).replies
  }

  lemma FreeSettles(s: Conn)
    requires s.status == Live && !s.inCallback && Closing(s) && Good(s, |s.answered|)
    requires s.told == [] && s.answered <= ParseStream(s.inbox).replies && Answered(s)
    ensures Settled(FreeNow(s)) && FreeNow(s).accepted == s.accepted
  {
    GoodDrain(s, |s.answered|);
  }

  lemma DisconnectSettles(s: Conn)
    requires s.status == Live && !s.inCallback && (s.err || Closing(s)) && Good(s, |s.answered|)
    requires s.told == [] && s.answered <= ParseStream(s.inbox).replies && Answered(s)
    requires s.err || s.queue == [] || Unflushed(s)
    ensures Settled(DisconnectNow(s)) && DisconnectNow(s).accepted == s.accepted
  {
    hide FreeNow, Deliveries, Commands, Callbacks, ParseStream;
    if s.err {
      FreeSettles(s.(disconnecting := true));
    } else if s.queue == [] {
      FreeSettles(s);
    }
  }

  lemma ProcessEnds(s: Conn, replies: seq<Reply>, broken: bool)
    requires s.status == Live && !s.inCallback && !s.freeing && !s.err && s.told == [] && Good(s, |s.answered|)
    requires ParseStream(s.inbox).replies == s.answered + replies && ParseStream(s.inbox).failure.Some? == broken
    requires replies == [] || s.queue == []
    ensures Settled(Process(s, replies, broken))
  {
    hide FreeNow, DisconnectNow, Deliveries, Commands, Callbacks, ParseStream;
    if replies == [] {
      if broken {
        DisconnectSettles(s.(err := true));
      } else if s.disconnecting && s.obuf == [] {
        DisconnectSettles(s);
      }
    } else if replies[0].Error? {
      DisconnectSettles(s.(err := true));
    }
  }

  lemma {:induction false} ProcessSettles(s: Conn, replies: seq<Reply>, broken: bool)
    requires s.status == Live && !s.inCallback && !s.freeing && !s.err && s.told == [] && Good(s, |s.answered|)
    requires ParseStream(s.inbox).replies == s.answered + replies && ParseStream(s.inbox).failure.Some? == broken
    ensures Settled(Process(s, replies, broken))
    decreases |replies|
  {
    hide FreeNow, DisconnectNow, RunCallback, Settled, Deliveries, Commands, Callbacks, ParseStream;
    if replies == [] || s.queue == [] {
      ProcessEnds(s, replies, broken);
    } else {
      var r := RunCallback(Taken(s, Some(replies[0])), s.queue[0], Some(replies[0]));
      GoodTake(s, |s.answered|, Some(replies[0]));
      assert s.answered + replies == s.answered + [replies[0]] + replies[1..];
      if s.queue[0].Fn? && r.freeing {
        FreeSettles(r);
      } else {
        ProcessSettles(r, replies[1..], broken);
      }
    }
  }

  lemma HandshakeSettles(s: Conn, h: Handshake)
    requires s.status == Live && Settled(s)
    ensures Settled(HandleConnect(s, h))
  {
    if h.Refused? {
      DisconnectSettles(s.(err := true));
    }
  }

  lemma ReadSettles(s: Conn, h: Handshake, bytes: Option<seq<byte>>)
    requires s.status == Live && Settled(s)
    ensures Settled(HandleRead(s, h, bytes))
  {
    hide DisconnectNow, Process, Good, ParseStream;
    HandshakeSettles(s, h);
    var r := if s.connected then s else HandleConnect(s, h);
    if r.status == Live && r.connected {
      GoodInbox(r, if bytes.Some? then s.inbox + bytes.value else s.inbox);
      if r.err || bytes.None? {
        DisconnectSettles(r.(err := true));
      } else {
        RespRuns.StreamGrows(s.inbox, bytes.value);
        ProcessSettles(r.(inbox := s.inbox + bytes.value), ParseStream(s.inbox + bytes.value).replies[|s.answered|..],
                       ParseStream(s.inbox + bytes.value).failure.Some?);
      }
    }
  }

  lemma GoodInbox(s: Conn, inbox: seq<byte>)
    requires Good(s, |s.answered|)
    ensures Good(s.(inbox := inbox), |s.answered|) && Good(s.(err := true), |s.answered|)
  {
  }

  lemma WriteSettles(s: Conn, h: Handshake, written: Option<nat>)
    requires s.status == Live && Settled(s)
    ensures Settled(HandleWrite(s, h, written))
  {
    hide HandleConnect, DisconnectNow, Deliveries, Commands, Callbacks, ParseStream;
    HandshakeSettles(s, h);
    var r := if s.connected then s else HandleConnect(s, h);
    if r.status == Live && r.connected {
      if r.err || written.None? {
        DisconnectSettles(r.(err := true));
      } else {
        var n := if written.value <= |r.obuf| then written.value else |r.obuf|;
        assert r.sent + r.obuf == r.sent + r.obuf[..n] + r.obuf[n..];
      }
    }
  }

  lemma CallSettles(s: Conn, a: Action)
    requires s.status == Live && Settled(s)
    ensures Settled(Act(s, a))
  {
    hide DisconnectNow, FreeNow, Deliveries, Commands, Callbacks, ParseStream;
    match a
    case Issue(cb, cmd) => GoodCommand(s, |s.answered|, cb, cmd);
    case Disconnect => if s.queue == [] { DisconnectSettles(s.(disconnecting := true)); }
    case Free => FreeSettles(s.(freeing := true));
  }

  /** Every run of every connection, whatever its callbacks do, stays settled. */
  lemma {:induction false} RunSettles(s: Conn, events: seq<Event>)
    requires Settled(s)
    ensures Settled(Run(s, events))
    decreases |events|
  {
    hide Settled, HandleRead, HandleWrite, Act;
    SettledOutside(s);
    if s.status == Live && events != [] {
      match events[0] {
        case Call(a) => CallSettles(s, a);
        case Readable(h, bytes) => ReadSettles(s, h, bytes);
        case Writable(h, written) => WriteSettles(s, h, written);
      }
      RunSettles(Step(s, events[0]), events[1..]);
    }
  }

  lemma SettledOutside(s: Conn)
    requires Settled(s)
    ensures !s.inCallback
  {
  }

  /** Callbacks among some requests that are not NULL. */
  function Fns(reqs: seq<Request>): nat {
    if reqs == [] then 0 else Fns(reqs[..|reqs| - 1]) + if reqs[|reqs| - 1].cb.Fn? then 1 else 0
  }

  /** Request number k has exactly one delivery, at the place its number gives it, with the answer of its number. */
  lemma {:induction false} DeliveryOf(reqs: seq<Request>, replies: seq<Reply>, k: nat)
    requires k < |reqs| && reqs[k].cb.Fn?
    ensures |Deliveries(reqs, replies)| == Fns(reqs) && Fns(reqs[..k]) < Fns(reqs)
    ensures Deliveries(reqs, replies)[Fns(reqs[..k])] == Delivery(reqs[k].cb, Answer(replies, k))
  {
    DeliveriesCount(reqs, replies);
    var n := |reqs| - 1;
    DeliveriesCount(reqs[..n], replies);
    if k < n {
      DeliveryOf(reqs[..n], replies, k);
      assert reqs[..n][..k] == reqs[..k];
    }
  }

  lemma {:induction false} DeliveriesCount(reqs: seq<Request>, replies: seq<Reply>)
    ensures |Deliveries(reqs, replies)| == Fns(reqs)
  {
    if reqs != [] {
      DeliveriesCount(reqs[..|reqs| - 1], replies);
    }
  }

  /**
   Delivery over whole runs. Once the context is freed, the callbacks that ran are exactly the non-NULL ones of
   the accepted commands, in the order of the commands: number k ran once, with reply number k of those used if
   there is one, with NULL otherwise. The replies used are the first ones of the byte stream received, and
   unless a free was asked for, no callback got NULL whose reply had come.
   */
  lemma {:induction false} EachCallbackOnce(hook: bool, events: seq<Event>, k: nat)
    requires var s := Run(Start(hook), events); s.status == Freed && k < |s.accepted| && s.accepted[k].cb.Fn?
    ensures var s := Run(Start(hook), events);
      var replies := ParseStream(s.inbox).replies;
      && s.answered <= replies
      && |s.log| == Fns(s.accepted) && Fns(s.accepted[..k]) < |s.log|
      && s.log[Fns(s.accepted[..k])] == Delivery(s.accepted[k].cb, Answer(s.answered, k))
      && (s.freeing || Answer(s.answered, k) == Answer(replies, k))
  {
    StartSettled(hook);
    RunSettles(Start(hook), events);
    var s := Run(Start(hook), events);
    assert s.accepted[..|s.accepted|] == s.accepted;
    DeliveryOf(s.accepted, s.answered, k);
  }

  lemma StartSettled(hook: bool)
    ensures Settled(Start(hook))
  {
    assert ParseStream([]) == Stream([], None);
  }

  // ----- Closing -----

  lemma {:induction false} DrainRefuses(s: Conn)
    requires s.status == Live && !s.inCallback && Closing(s)
    ensures Drain(s).accepted == s.accepted
    decreases |s.queue|
  {
    hide RunCallback;
    if s.queue != [] {
      DrainRefuses(RunCallback(s.(queue := s.queue[1..]), s.queue[0], None));
    }
  }

  lemma DisconnectRefuses(s: Conn)
    requires s.status == Live && !s.inCallback && Closing(s)
    ensures FreeNow(s).accepted == s.accepted && DisconnectNow(s).accepted == s.accepted
    ensures DisconnectNow(s.(err := true)).accepted == s.accepted
  {
    hide Drain;
    DrainRefuses(s);
    DrainRefuses(s.(disconnecting := true));
    DrainRefuses(s.(err := true, disconnecting := true));
  }

  lemma {:induction false} ProcessRefuses(s: Conn, replies: seq<Reply>, broken: bool)
    requires s.status == Live && !s.inCallback && Closing(s)
    ensures var r := Process(s, replies, broken); r.accepted == s.accepted && (r.status == Live ==> Closing(r))
    decreases |replies|
  {
    hide RunCallback, DisconnectNow, FreeNow;
    DisconnectRefuses(s);
    if replies != [] && s.queue != [] {
      var r := RunCallback(Taken(s, Some(replies[0])), s.queue[0], Some(replies[0]));
      DisconnectRefuses(r);
      if !(s.queue[0].Fn? && r.freeing) {
        ProcessRefuses(r, replies[1..], broken);
      }
    }
  }

  lemma CallRefuses(s: Conn, a: Action)
    requires s.status == Live && !s.inCallback && Closing(s)
    ensures var r := Act(s, a); r.accepted == s.accepted && (r.status == Live ==> Closing(r))
  {
    hide DisconnectNow, FreeNow;
    DisconnectRefuses(s.(freeing := true));
    DisconnectRefuses(s.(disconnecting := true));
    assert a.Free? ==> Act(s, a) == AsyncFree(s) == FreeNow(s.(freeing := true));
    assert a.Disconnect? ==> Act(s, a) == AsyncDisconnect(s);
  }

  lemma ReadRefuses(s: Conn, h: Handshake, bytes: Option<seq<byte>>)
    requires s.status == Live && !s.inCallback && Closing(s)
    ensures var r := HandleRead(s, h, bytes); r.accepted == s.accepted && (r.status == Live ==> Closing(r))
  {
    hide Process, DisconnectNow, ParseStream;
    DisconnectRefuses(s);
    var r := if s.connected then s else HandleConnect(s, h);
    if r.status == Live && r.connected {
      DisconnectRefuses(r);
      if bytes.Some? {
        var st := ParseStream(s.inbox + bytes.value);
        var seen := if |s.answered| <= |st.replies| then |s.answered| else |st.replies|;
        ProcessRefuses(r.(inbox := s.inbox + bytes.value), st.replies[seen..], st.failure.Some?);
      }
    }
  }

  lemma WriteRefuses(s: Conn, h: Handshake, written: Option<nat>)
    requires s.status == Live && !s.inCallback && Closing(s)
    ensures var r := HandleWrite(s, h, written); r.accepted == s.accepted && (r.status == Live ==> Closing(r))
  {
    hide DisconnectNow;
    DisconnectRefuses(s);
    DisconnectRefuses(s.(connected := true));
  }

  /** Once a disconnect or a free has been asked for, no run accepts another command, from inside a callback or outside. */
  lemma {:induction false} ClosingIsFinal(s: Conn, events: seq<Event>)
    requires !s.inCallback && Closing(s)
    ensures Run(s, events).accepted == s.accepted
    decreases |events|
  {
    hide Act, HandleRead, HandleWrite;
    if s.status == Live && events != [] {
      match events[0] {
        case Call(a) => CallRefuses(s, a);
        case Readable(h, bytes) => ReadRefuses(s, h, bytes);
        case Writable(h, written) => WriteRefuses(s, h, written);
      }
      if Step(s, events[0]).status == Live {
        ClosingIsFinal(Step(s, events[0]), events[1..]);
      }
    }
  }

  // ----- After an error -----

  /** No byte has been read or written, and no command answered by a reply. */
  predicate Silent(s: Conn, r: Conn) {
    r.inbox == s.inbox && r.sent == s.sent && r.answered == s.answered && r.status != Aborted && (r.status == Live ==> r.err)
  }

  lemma {:induction false} DrainSilent(s: Conn)
    requires s.status == Live && !s.inCallback && Closing(s) && s.err
    ensures Silent(s, FreeNow(s)) && Silent(s, Drain(s))
    decreases |s.queue|
  {
    hide RunCallback;
    if s.queue != [] {
      DrainSilent(RunCallback(s.(queue := s.queue[1..]), s.queue[0], None));
    }
  }

  lemma DisconnectSilent(s: Conn)
    requires s.status == Live && !s.inCallback && s.err
    ensures Silent(s, DisconnectNow(s))
  {
    hide FreeNow;
    DrainSilent(s.(disconnecting := true));
  }

  lemma SocketSilent(s: Conn, h: Handshake, bytes: Option<seq<byte>>, written: Option<nat>)
    requires s.status == Live && !s.inCallback && s.err
    ensures Silent(s, HandleRead(s, h, bytes)) && Silent(s, HandleWrite(s, h, written))
  {
    hide DisconnectNow, Process;
    DisconnectSilent(s);
    DisconnectSilent(s.(connected := true));
  }

  lemma CallSilent(s: Conn, a: Action)
    requires s.status == Live && !s.inCallback && s.err
    ensures Silent(s, Act(s, a))
  {
    hide DisconnectNow, FreeNow;
    match a
    case Issue(cb, cmd) =>
    case Disconnect =>
      DisconnectSilent(s.(disconnecting := true));
      assert Act(s, a) == AsyncDisconnect(s);
    case Free =>
      DrainSilent(s.(freeing := true));
      assert Act(s, a) == AsyncFree(s);
  }

  lemma EventSilent(s: Conn, e: Event)
    requires s.status == Live && !s.inCallback && s.err
    ensures Silent(s, Step(s, e))
  {
    hide Act, HandleRead, HandleWrite;
    match e
    case Call(a) => CallSilent(s, a);
    case Readable(h, bytes) => SocketSilent(s, h, bytes, None);
    case Writable(h, written) => SocketSilent(s, h, None, written);
  }

  /**
   A context that has an error neither reads nor writes another byte and gives no command a reply. A connection
   that was still in progress when it was looked at is such a context: it is never tried again.
   */
  lemma {:induction false} ErrorIsFinal(s: Conn, events: seq<Event>)
    requires s.status == Live && !s.inCallback && s.err
    ensures Silent(s, Run(s, events))
    decreases |events|
  {
    hide Step;
    if events != [] {
      EventSilent(s, events[0]);
      if Step(s, events[0]).status == Live {
        ErrorIsFinal(Step(s, events[0]), events[1..]);
      }
    }
  }

  // ----- When the assert fails -----

  function ScriptOf(cb: Callback): seq<Action> {
    if cb.Fn? then cb.script else []
  }

  /** The calls some callbacks make, one callback after the other. */
  function Scripts(cbs: seq<Callback>): seq<Action> {
    if cbs == [] then [] else ScriptOf(cbs[0]) + Scripts(cbs[1..])
  }

  predicate Closes(acts: seq<Action>) {
    Disconnect in acts || Free in acts
  }

  /** The commands accepted among some calls: those before the connection is closing. */
  function Issued(acts: seq<Action>, closing: bool): seq<Request> {
    if closing || acts == [] || !acts[0].Issue? then []
    else [Request(acts[0].cb, acts[0].cmd)] + Issued(acts[1..], false)
  }

  /** The calls made by the first n callbacks to be run, which may be callbacks of commands these issue. */
  function Acts(queue: seq<Callback>, closing: bool, n: nat): seq<Action>
    decreases n
  {
    if n == 0 || queue == [] then []
    else
      var script := ScriptOf(queue[0]);
      script + Acts(queue[1..] + Callbacks(Issued(script, closing)), closing || Closes(script), n - 1)
  }

  /** While there are no more replies than commands, these are the callbacks at the head of the queue. */
  lemma {:induction false} ActsWithin(queue: seq<Callback>, closing: bool, n: nat)
    requires n <= |queue|
    ensures Acts(queue, closing, n) == Scripts(queue[..n])
    decreases n
  {
    if n > 0 {
      var script := ScriptOf(queue[0]);
      var queue' := queue[1..] + Callbacks(Issued(script, closing));
      ActsWithin(queue', closing || Closes(script), n - 1);
      assert queue'[..n - 1] == queue[..n][1..];
    }
  }

  /**
   Whether some replies, followed by a failure or by none, make the connection abort. Either there is one reply
   too many and it is no error, or there is one too few when a disconnect has been asked for and nothing is left
   to send. A callback that frees the connection prevents both.
   */
  predicate Aborts(s: Conn, replies: seq<Reply>, broken: bool) {
    var acts := Acts(s.queue, Closing(s), |replies|);
    var issued := Issued(acts, Closing(s));
    var asked := |s.queue| + |issued|;
    && Free !in acts
    && if |replies| > asked then !replies[asked].Error?
       else |replies| < asked && !broken && (s.disconnecting || Disconnect in acts) && s.obuf + Commands(issued) == []
  }

  /**
   How processing some replies leaves a connection: freed if a callback asks for it, if one reply too many is an error,
   if the stream fails, or if all is done and a disconnect has been asked for; aborted as above; alive otherwise.
   */
  function Ending(s: Conn, replies: seq<Reply>, broken: bool): Status {
    var acts := Acts(s.queue, Closing(s), |replies|);
    var issued := Issued(acts, Closing(s));
    var asked := |s.queue| + |issued|;
    if Free in acts then Freed
    else if |replies| > asked then if replies[asked].Error? then Freed else Aborted
    else if broken then Freed
    else if (s.disconnecting || Disconnect in acts) && s.obuf + Commands(issued) == [] then
      if |replies| < asked then Aborted else Freed
    else Live
  }

  lemma {:induction false} IssuedAppend(a: seq<Action>, b: seq<Action>, closing: bool)
    ensures Issued(a + b, closing) == Issued(a, closing) + Issued(b, closing || Closes(a))
    decreases |a|
  {
    if a == [] {
      assert a + b == b;
    } else if !closing && a[0].Issue? {
      assert (a + b)[1..] == a[1..] + b;
      IssuedAppend(a[1..], b, false);
      assert Closes(a) == Closes(a[1..]);
    } else {
      assert a[0] in a;
    }
  }

  lemma {:induction false} CommandsConcat(a: seq<Request>, b: seq<Request>)
    ensures Commands(a + b) == Commands(a) + Commands(b)
    decreases |b|
  {
    if b == [] {
      assert a + b == a;
    } else {
      var n := |b| - 1;
      var front, last := b[..n], b[n];
      assert b == front + [last] && a + b == a + front + [last];
      CommandsConcat(a, front);
      hide Commands;
      CommandsAppend(a + front, last);
      CommandsAppend(front, last);
      assert Commands(a) + (Commands(front) + last.cmd) == Commands(a) + Commands(front) + last.cmd;
    }
  }

  lemma {:induction false} CallbacksConcat(a: seq<Request>, b: seq<Request>)
    ensures Callbacks(a + b) == Callbacks(a) + Callbacks(b)
  {
  }

  /** What running a script does to a connection. */
  function Acted(s: Conn, acts: seq<Action>): Conn {
    var issued := Issued(acts, Closing(s));
    s.(disconnecting := s.disconnecting || Disconnect in acts, freeing := s.freeing || Free in acts,
       queue := s.queue + Callbacks(issued), obuf := s.obuf + Commands(issued), accepted := s.accepted + issued)
  }

  lemma ActedOnce(s: Conn, a: Action)
    requires s.status == Live && s.inCallback
    ensures Act(s, a) == Acted(s, [a])
  {
    var issued := Issued([a], Closing(s));
    if a.Issue? && !Closing(s) {
      var none: seq<Action> := [];
      assert [a][1..] == none && Issued(none, false) == [];
      assert issued == [Request(a.cb, a.cmd)];
      assert Callbacks(issued) == [a.cb] && Commands(issued) == [] + a.cmd;
    } else {
      assert issued == [];
    }
  }

  lemma ActedTwice(s: Conn, a: seq<Action>, b: seq<Action>)
    ensures Acted(Acted(s, a), b) == Acted(s, a + b)
  {
    var x, y := Issued(a, Closing(s)), Issued(b, Closing(s) || Closes(a));
    hide Issued, Callbacks, Commands;
    IssuedAppend(a, b, Closing(s));
    CommandsConcat(x, y);
    CallbacksConcat(x, y);
    assert s.queue + Callbacks(x) + Callbacks(y) == s.queue + (Callbacks(x) + Callbacks(y));
    assert s.obuf + Commands(x) + Commands(y) == s.obuf + (Commands(x) + Commands(y));
    assert s.accepted + x + y == s.accepted + (x + y);
  }

  lemma ActedNever(s: Conn)
    ensures Acted(s, []) == s
  {
    assert s.queue + [] == s.queue && s.obuf + [] == s.obuf && s.accepted + [] == s.accepted;
  }

  lemma {:induction false} ScriptActs(s: Conn, script: seq<Action>)
    requires s.status == Live && s.inCallback
    ensures RunScript(s, script) == Acted(s, script)
    decreases |script|
  {
    hide Act, Acted;
    if script == [] {
      ActedNever(s);
    } else {
      ActedOnce(s, script[0]);
      ScriptActs(Act(s, script[0]), script[1..]);
      ActedTwice(s, [script[0]], script[1..]);
      assert [script[0]] + script[1..] == script;
    }
  }

  /** Running a callback: one more delivery, and what its script does. */
  lemma CallbackActs(s: Conn, cb: Callback, reply: Option<Reply>)
    requires s.status == Live && !s.inCallback
    ensures var r := Acted(s, ScriptOf(cb));
      RunCallback(s, cb, reply) == if cb.Fn? then r.(log := s.log + [Delivery(cb, reply)]) else r
  {
    hide RunScript, Issued, Callbacks, Commands;
    if cb.Fn? {
      ScriptActs(s.(inCallback := true, log := s.log + [Delivery(cb, reply)]), cb.script);
    } else {
      ActedNever(s);
    }
  }

  lemma ActsFirst(queue: seq<Callback>, closing: bool, n: nat)
    requires n > 0 && queue != []
    ensures var script := ScriptOf(queue[0]);
      var acts := Acts(queue[1..] + Callbacks(Issued(script, closing)), closing || Closes(script), n - 1);
      && Acts(queue, closing, n) == script + acts
      && (Free in script + acts <==> Free in script || Free in acts)
      && (Disconnect in script + acts <==> Disconnect in script || Disconnect in acts)
  {
  }

  /** The commands issued and the bytes to send are the same, counted from before the first callback or from behind it. */
  lemma IssuedNext(obuf: seq<byte>, queue: seq<Callback>, closing: bool, n: nat)
    requires n > 0 && queue != []
    ensures var script := ScriptOf(queue[0]);
      var first := Issued(script, closing);
      var later := Issued(Acts(queue[1..] + Callbacks(first), closing || Closes(script), n - 1), closing || Closes(script));
      && Issued(Acts(queue, closing, n), closing) == first + later
      && obuf + Commands(first + later) == obuf + Commands(first) + Commands(later)
  {
    hide Issued, Callbacks, Commands, Acts, Closes, ScriptOf;
    ActsFirst(queue, closing, n);
    var script := ScriptOf(queue[0]);
    var first := Issued(script, closing);
    var acts := Acts(queue[1..] + Callbacks(first), closing || Closes(script), n - 1);
    var later := Issued(acts, closing || Closes(script));
    IssuedAppend(script, acts, closing);
    CommandsConcat(first, later);
    assert obuf + (Commands(first) + Commands(later)) == obuf + Commands(first) + Commands(later);
  }

  /** Serving the first reply turns the ending for all replies into the ending for the rest. */
  lemma EndingNext(s: Conn, r: Conn, replies: seq<Reply>, broken: bool)
    requires replies != [] && s.queue != [] && Free !in ScriptOf(s.queue[0])
    requires var t := Acted(s.(queue := s.queue[1..]), ScriptOf(s.queue[0]));
      r.queue == t.queue && r.obuf == t.obuf && r.disconnecting == t.disconnecting && r.freeing == t.freeing
    ensures Ending(s, replies, broken) == Ending(r, replies[1..], broken)
  {
    hide Issued, Callbacks, Commands, Acts, ScriptOf;
    var script := ScriptOf(s.queue[0]);
    assert r.queue == s.queue[1..] + Callbacks(Issued(script, Closing(s))) && Closing(r) == (Closing(s) || Closes(script));
    ActsFirst(s.queue, Closing(s), |replies|);
    IssuedNext(s.obuf, s.queue, Closing(s), |replies|);
  }

  lemma {:induction false} ProcessEnding(s: Conn, replies: seq<Reply>, broken: bool)
    requires s.status == Live && !s.inCallback && !s.freeing && !s.err
    ensures Process(s, replies, broken).status == Ending(s, replies, broken)
    decreases |replies|
  {
    hide RunCallback, FreeNow, Acted, Ending, ScriptOf;
    if replies == [] || s.queue == [] {
      EndingNow(s, replies, broken);
    } else {
      var t := Taken(s, Some(replies[0]));
      var r := RunCallback(t, s.queue[0], Some(replies[0]));
      CallbackActs(t, s.queue[0], Some(replies[0]));
      FreeActs(s, replies, broken, r);
      if !r.freeing {
        ProcessEnding(r, replies[1..], broken);
      }
    }
  }

  lemma EndingNow(s: Conn, replies: seq<Reply>, broken: bool)
    requires replies == [] || s.queue == []
    ensures Ending(s, replies, broken) ==
      if replies != [] then if replies[0].Error? then Freed else Aborted
      else if broken then Freed
      else if s.disconnecting && s.obuf == [] then if s.queue != [] then Aborted else Freed
      else Live
  {
    assert Acts(s.queue, Closing(s), |replies|) == [] && Issued([], Closing(s)) == [];
    assert s.obuf + [] == s.obuf;
  }

  /** The callback that is run first frees the connection, or leaves the ending as it was. */
  lemma FreeActs(s: Conn, replies: seq<Reply>, broken: bool, r: Conn)
    requires replies != [] && s.queue != [] && !s.freeing
    requires var t := Acted(Taken(s, Some(replies[0])), ScriptOf(s.queue[0]));
      r.queue == t.queue && r.obuf == t.obuf && r.disconnecting == t.disconnecting && r.freeing == t.freeing && r.err == t.err
    ensures r.err == s.err
    ensures r.freeing ==> s.queue[0].Fn? && Ending(s, replies, broken) == Freed
    ensures !r.freeing ==> Ending(s, replies, broken) == Ending(r, replies[1..], broken)
  {
    hide Issued, Callbacks, Commands;
    if Free in ScriptOf(s.queue[0]) {
      assert Free in Acts(s.queue, Closing(s), |replies|);
    } else {
      hide Acts, Ending;
      EndingNext(s, r, replies, broken);
    }
  }

  lemma AbortsIsEnding(s: Conn, replies: seq<Reply>, broken: bool)
    ensures Aborts(s, replies, broken) <==> Ending(s, replies, broken) == Aborted
  {
    hide Acts, Issued, Commands;
  }

  /**
   A readable event makes a connection abort exactly when it gets to read, on a context without an error, and its
   replies make it abort, whatever the callbacks it runs call: commands they issue, disconnects and frees count
   just as if they had been called before.
   */
  lemma ReadAborts(s: Conn, h: Handshake, bytes: seq<byte>)
    requires s.status == Live && Settled(s)
    ensures var st := ParseStream(s.inbox + bytes);
      && |s.answered| <= |st.replies|
      && (HandleRead(s, h, Some(bytes)).status == Aborted <==>
          Reads(s, h) && Aborts(s, st.replies[|s.answered|..], st.failure.Some?))
  {
    hide ParseStream, HandleRead, Aborts, Ending, Settled;
    ReadEnding(s, h, bytes);
    var st := ParseStream(s.inbox + bytes);
    AbortsIsEnding(s, st.replies[|s.answered|..], st.failure.Some?);
  }

  /** What a readable event with some bytes makes of any live context. */
  lemma ReadEnding(s: Conn, h: Handshake, bytes: seq<byte>)
    requires s.status == Live && Settled(s)
    ensures var st := ParseStream(s.inbox + bytes);
      && |s.answered| <= |st.replies|
      && HandleRead(s, h, Some(bytes)).status ==
           if Reads(s, h) then Ending(s, st.replies[|s.answered|..], st.failure.Some?)
           else if !s.connected && h.InProgress? then Live
           else Freed
  {
    hide Process, ParseStream, HandleRead, Ending, Settled;
    AnsweredSoFar(s);
    RespRuns.StreamGrows(s.inbox, bytes);
    var st := ParseStream(s.inbox + bytes);
    HandleReadIs(s, h, bytes);
    if Reads(s, h) {
      var t := s.(connected := true, inbox := s.inbox + bytes);
      ProcessEnding(t, st.replies[|s.answered|..], st.failure.Some?);
      EndingAlike(s, t, st.replies[|s.answered|..], st.failure.Some?);
    }
  }

  /** What a failed read and what a writable event make of it. */
  lemma SocketEnding(s: Conn, h: Handshake, written: Option<nat>)
    requires s.status == Live && !s.inCallback
    ensures HandleRead(s, h, None).status == if !s.connected && h.InProgress? then Live else Freed
    ensures HandleWrite(s, h, written).status == if (Reads(s, h) && written.Some?) || (!s.connected && h.InProgress?) then Live else Freed
  {
    hide DisconnectNow, Process;
    ErrorFrees(s);
  }

  /** A write that takes n bytes takes the first n of those to be sent, or all of them, and does nothing else. */
  lemma WriteTakes(s: Conn, h: Handshake, n: nat)
    requires s.status == Live && !s.inCallback && Reads(s, h)
    ensures var r := HandleWrite(s, h, Some(n));
      && r == s.(connected := true, sent := r.sent, obuf := r.obuf) && r.sent + r.obuf == s.sent + s.obuf
      && |r.obuf| == if n <= |s.obuf| then |s.obuf| - n else 0
  {
    hide DisconnectNow;
    var k := if n <= |s.obuf| then n else |s.obuf|;
    assert s.sent + s.obuf == s.sent + s.obuf[..k] + s.obuf[k..];
  }

  /** What a call makes of it. */
  lemma CallEnding(s: Conn, a: Action)
    requires s.status == Live && !s.inCallback
    ensures Act(s, a).status == if a.Free? || (a.Disconnect? && s.queue == []) then Freed else Live
  {
    hide FreeNow, DisconnectNow;
    match a
    case Issue(cb, cmd) =>
    case Free => assert Act(s, a) == AsyncFree(s);
    case Disconnect =>
      assert Act(s, a) == AsyncDisconnect(s);
      if s.queue == [] {
        CleanFrees(s.(disconnecting := true));
      }
  }

  lemma CleanFrees(s: Conn)
    requires s.status == Live && !s.inCallback && Closing(s) && s.queue == []
    ensures DisconnectNow(s).status == Freed
  {
  }

  lemma AnsweredSoFar(s: Conn)
    requires s.status == Live && Settled(s)
    ensures !s.inCallback && !s.freeing && s.answered == ParseStream(s.inbox).replies
  {
  }

  lemma HandleReadIs(s: Conn, h: Handshake, bytes: seq<byte>)
    requires s.status == Live && !s.inCallback && |s.answered| <= |ParseStream(s.inbox + bytes).replies|
    ensures var st := ParseStream(s.inbox + bytes);
      if Reads(s, h) then
        HandleRead(s, h, Some(bytes))
          == Process(s.(connected := true, inbox := s.inbox + bytes), st.replies[|s.answered|..], st.failure.Some?)
      else HandleRead(s, h, Some(bytes)).status == if !s.connected && h.InProgress? then Live else Freed
  {
    hide Process, ParseStream, DisconnectNow;
    ErrorFrees(s);
  }

  lemma EndingAlike(s: Conn, t: Conn, replies: seq<Reply>, broken: bool)
    requires t == s.(connected := t.connected, inbox := t.inbox)
    ensures Ending(s, replies, broken) == Ending(t, replies, broken)
  {
    hide Acts, Issued, Commands;
  }

  /** Whether a readable event gets as far as reading: connected, by now at least, and no error so far. */
  predicate Reads(s: Conn, h: Handshake) {
    (s.connected || h.Established?) && !s.err
  }

  lemma ErrorFrees(s: Conn)
    requires s.status == Live && !s.inCallback
    ensures DisconnectNow(s.(err := true)).status == Freed
    ensures DisconnectNow(s.(err := true, connected := true)).status == Freed
  {
  }

  /** No call and no writable event makes a connection abort, and of the readable ones only those just described. */
  lemma EventAborts(s: Conn, e: Event)
    requires s.status == Live && Settled(s)
    ensures Step(s, e).status == Aborted <==>
      && e.Readable? && e.bytes.Some? && Reads(s, e.handshake)
      && var st := ParseStream(s.inbox + e.bytes.value);
        |s.answered| <= |st.replies| && Aborts(s, st.replies[|s.answered|..], st.failure.Some?)
  {
    hide Settled, HandleRead, HandleWrite, Act, Aborts, ParseStream;
    SettledOutside(s);
    if e.Readable? {
      if e.bytes.Some? {
        ReadAborts(s, e.handshake, e.bytes.value);
      } else {
        SocketEnding(s, e.handshake, None);
      }
    } else if e.Writable? {
      SocketEnding(s, e.handshake, e.written);
    } else {
      CallEnding(s, e.action);
    }
  }

  /** The other assertion: a status line comes in on a new connection, to which nothing has been sent. */
  lemma UnaskedReplyAborts()
    ensures Run(Start(false), [Readable(Established, Some(['+' as int, CR, LF]))]).status == Aborted
  {
    var line: seq<byte> := ['+' as int, CR, LF];
    var s, e := Start(false), Readable(Established, Some(line));
    assert Run(s, [e]) == Run(Step(s, e), []) == Step(s, e);
    hide Settled, Run, HandleRead;
    StartSettled(false);
    OneStatus(line);
    assert s.inbox + line == line;
    ReadAborts(s, Established, line);
    EndingNow(s, [Status([])], false);
    AbortsIsEnding(s, [Status([])], false);
  }

  /** It does happen: a command is sent in full, a disconnect is asked for, and half a reply comes in. */
  lemma GracefulDisconnectAborts(id: int)
    ensures var cmd := ['*' as int, '0' as int, CR, LF];
      var events := [
        Call(Issue(Fn(id, []), cmd)), Writable(Established, Some(|cmd|)), Call(Disconnect),
        Readable(Established, Some(['+' as int]))];
      Run(Start(false), events).status == Aborted
  {
    var cmd := ['*' as int, '0' as int, CR, LF];
    var e0, e1, e2, e3 := Call(Issue(Fn(id, []), cmd)), Writable(Established, Some(|cmd|)), Call(Disconnect),
      Readable(Established, Some(['+' as int]));
    var s0 := Start(false);
    var s1 := Step(s0, e0);
    var s2 := Step(s1, e1);
    var s3 := Step(s2, e2);
    assert s1 == s0.(queue := [Fn(id, [])], obuf := cmd, accepted := [Request(Fn(id, []), cmd)]);
    assert s2 == s1.(connected := true, sent := cmd, obuf := []);
    assert |s2.queue| == 1 && s3 == AsyncDisconnect(s2);
    assert s3 == s2.(disconnecting := true);
    var half: seq<byte> := ['+' as int];
    assert half[1..] == [] && ParseItem(half, 0) == More;
    assert ParseStream(half) == Stream([], None);
    assert s3.inbox + half == half;
    var s4 := Step(s3, e3);
    assert s4.status == Aborted;
    assert Run(s3, [e3]) == s4;
    assert Run(s2, [e2, e3]) == Run(s3, [e3]);
    assert Run(s1, [e1, e2, e3]) == Run(s2, [e2, e3]);
    assert Run(s0, [e0, e1, e2, e3]) == Run(s1, [e1, e2, e3]);
  }

  /** A connection with two commands sent in full. */
  function TwoSent(cb: Callback, cb': Callback, cmd: seq<byte>): Conn {
    Start(false).(connected := true, queue := [cb, cb'], sent := cmd + cmd, accepted := [Request(cb, cmd), Request(cb', cmd)])
  }

  lemma RunFour(s0: Conn, e0: Event, e1: Event, e2: Event, e3: Event, s1: Conn, s2: Conn, s3: Conn)
    requires !s0.inCallback && !s1.inCallback && !s2.inCallback && !s3.inCallback
    requires s0.status == s1.status == s2.status == s3.status == Live
    requires s1 == Step(s0, e0) && s2 == Step(s1, e1) && s3 == Step(s2, e2)
    ensures Run(s0, [e0, e1, e2, e3]) == Step(s3, e3)
  {
    hide Step;
    assert Run(s3, [e3]) == Step(s3, e3);
    assert [e2, e3][1..] == [e3];
    assert Run(s2, [e2, e3]) == Run(s3, [e3]);
    assert [e1, e2, e3][1..] == [e2, e3];
    assert Run(s1, [e1, e2, e3]) == Run(s2, [e2, e3]);
    assert [e0, e1, e2, e3][1..] == [e1, e2, e3];
  }

  /** How it comes about: each step, and that all of them leave a settled connection. */
  lemma TwoSentSteps(cb: Callback, cb': Callback, cmd: seq<byte>)
    ensures var s0 := Start(false);
      var s1 := s0.(queue := [cb], obuf := cmd, accepted := [Request(cb, cmd)]);
      var s2 := s1.(queue := [cb, cb'], obuf := cmd + cmd, accepted := [Request(cb, cmd), Request(cb', cmd)]);
      && s1 == Step(s0, Call(Issue(cb, cmd))) && s2 == Step(s1, Call(Issue(cb', cmd)))
      && TwoSent(cb, cb', cmd) == Step(s2, Writable(Established, Some(|cmd| + |cmd|)))
      && Settled(TwoSent(cb, cb', cmd))
  {
    hide Settled;
    var s0 := Start(false);
    var s1 := s0.(queue := [cb], obuf := cmd, accepted := [Request(cb, cmd)]);
    var s2 := s1.(queue := [cb, cb'], obuf := cmd + cmd, accepted := [Request(cb, cmd), Request(cb', cmd)]);
    assert s1 == Act(s0, Issue(cb, cmd)) && s2 == Act(s1, Issue(cb', cmd));
    assert TwoSent(cb, cb', cmd) == HandleWrite(s2, Established, Some(|cmd| + |cmd|));
    StartSettled(false);
    CallSettles(s0, Issue(cb, cmd));
    CallSettles(s1, Issue(cb', cmd));
    WriteSettles(s2, Established, Some(|cmd| + |cmd|));
  }

  lemma TwoSentRun(cb: Callback, cb': Callback, cmd: seq<byte>, last: Event)
    ensures
      Run(Start(false), [Call(Issue(cb, cmd)), Call(Issue(cb', cmd)), Writable(Established, Some(|cmd| + |cmd|)), last])
      == Step(TwoSent(cb, cb', cmd), last)
  {
    hide Step, Run, Settled;
    var s0 := Start(false);
    var s1 := s0.(queue := [cb], obuf := cmd, accepted := [Request(cb, cmd)]);
    var s2 := s1.(queue := [cb, cb'], obuf := cmd + cmd, accepted := [Request(cb, cmd), Request(cb', cmd)]);
    TwoSentSteps(cb, cb', cmd);
    RunFour(s0, Call(Issue(cb, cmd)), Call(Issue(cb', cmd)), Writable(Established, Some(|cmd| + |cmd|)), last,
            s1, s2, TwoSent(cb, cb', cmd));
  }

  /** So does a disconnect asked for by a callback: two commands are sent, and the first reply makes its callback ask. */
  lemma DisconnectInCallbackAborts(id: int, id': int)
    ensures var cmd := ['*' as int, '0' as int, CR, LF];
      var events := [
        Call(Issue(Fn(id, [Disconnect]), cmd)), Call(Issue(Fn(id', []), cmd)), Writable(Established, Some(|cmd| + |cmd|)),
        Readable(Established, Some(['+' as int, CR, LF]))];
      Run(Start(false), events).status == Aborted
  {
    var cmd: seq<byte> := ['*' as int, '0' as int, CR, LF];
    var line: seq<byte> := ['+' as int, CR, LF];
    var cb, cb' := Fn(id, [Disconnect]), Fn(id', []);
    var s := TwoSent(cb, cb', cmd);
    TwoSentSteps(cb, cb', cmd);
    TwoSentRun(cb, cb', cmd, Readable(Established, Some(line)));
    hide Settled, Run, HandleRead;
    OneStatus(line);
    assert s.inbox + line == line;
    ReadAborts(s, Established, line);
    DisconnectActs(s, cb, cb');
  }

  lemma OneStatus(line: seq<byte>)
    requires line == ['+' as int, CR, LF]
    ensures ParseStream(line) == Stream([Status([])], None)
  {
    var t := line[1..];
    assert CrlfAt(t, 0) && t[..0] == [] && t[2..] == [];
    assert ParseItem(line, 0) == Done(Status([]), []);
    assert ParseStream([]) == Stream([], None);
  }

  lemma DisconnectActs(s: Conn, cb: Callback, cb': Callback)
    requires cb.Fn? && cb.script == [Disconnect] && s.queue == [cb, cb'] && s.obuf == [] && !Closing(s)
    ensures Aborts(s, [Status([])], false)
  {
    ActsWithin(s.queue, false, 1);
    assert s.queue[..1] == [cb] && Scripts([cb]) == [Disconnect];
    assert Issued([Disconnect], false) == [];
  }
}
