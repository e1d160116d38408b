/** The asynchronous context: a linked list of callbacks and a few flags, updated in place. */
module Async {
  import opened Bytes
  import opened RespSpec
  import opened AsyncSpec

  class CallbackNode {
    var next: CallbackNode?
    const cb: Callback

    constructor (cb: Callback)
      ensures this.cb == cb && next == null
    {
      this.cb := cb;
      next := null;
    }
  }

  class CallbackList {
    var head: CallbackNode?
    var tail: CallbackNode?
    ghost var nodes: seq<CallbackNode>
    ghost var Repr: set<object>

    ghost predicate Valid()
      reads this, Repr
    {
      && this in Repr
      && (forall i :: 0 <= i < |nodes| ==> nodes[i] in Repr)
      && (forall i, j :: 0 <= i < j < |nodes| ==> nodes[i] != nodes[j])
      && (forall i {:trigger nodes[i].next} :: 0 <= i < |nodes| ==> nodes[i].next == (if i + 1 < |nodes| then nodes[i + 1] else null))
      && head == (if nodes == [] then null else nodes[0])
      && tail == (if nodes == [] then null else nodes[|nodes| - 1])
    }

    /** The callbacks waiting, first in first. */
    ghost function Contents(): (cbs: seq<Callback>)
      reads this
    {
      seq(|nodes|, i requires 0 <= i < |nodes| reads this => nodes[i].cb)
    }

    constructor ()
      ensures Valid() && fresh(Repr) && Contents() == []
    {
      head, tail, nodes := null, null, [];
      new;
      Repr := {this};
    }

    /** __redisPushCallback. */
    method Push(source: Callback)
      requires Valid()
      modifies Repr
      ensures Valid() && fresh(Repr - old(Repr))
      ensures Contents() == old(Contents()) + [source]
    {
      var cb := new CallbackNode(source);
      if head == null {
        head := cb;
      }
      if tail != null {
        tail.next := cb;
      }
      tail := cb;
      nodes := nodes + [cb];
      Repr := Repr + {cb};
    }

    /** __redisShiftCallback. */
    method Shift() returns (target: Option<Callback>)
      requires Valid()
      modifies Repr
      ensures Valid() && Repr == old(Repr)
      ensures old(Contents()) == [] ==> target == None && Contents() == []
      ensures old(Contents()) != [] ==> target == Some(old(Contents())[0]) && Contents() == old(Contents())[1..]
    {
      var cb := head;
      target := None;
      if cb != null {
        assert nodes[0] == cb && Contents()[0] == cb.cb;
        assert cb == tail <==> |nodes| == 1;
        head := cb.next;
        if cb == tail {
          tail := null;
        }
        target := Some(cb.cb);
        nodes := nodes[1..];
      }
    }
  }

  class AsyncContext {
    const replies: CallbackList
    const onDisconnect: bool
    var status: Status
    var connected: bool
    var disconnecting: bool
    var freeing: bool
    var inCallback: bool
    var err: bool
    var obuf: seq<byte>
    var inbox: seq<byte>      // what the reply reader has been fed
    var answered: seq<Reply>  // what it has handed out
    ghost var sent: seq<byte>
    ghost var accepted: seq<Request>
    ghost var log: seq<Delivery>
    ghost var told: seq<bool>

    ghost predicate Valid()
      reads this, replies, replies.Repr
    {
      replies.Valid() && this !in replies.Repr
    }

    /** The state as a value. */
    ghost function State(): Conn
      reads this, replies
    {
      Conn(status, connected, disconnecting, freeing, inCallback, err, onDisconnect,
           replies.Contents(), obuf, sent, inbox, accepted, answered, log, told)
    }

    lemma StateIs()
      ensures State().status == status && State().inCallback == inCallback
    {
    }

    constructor (hook: bool)
      ensures Valid() && fresh(replies) && fresh(replies.Repr) && State() == Start(hook)
    {
      replies := new CallbackList();
      onDisconnect := hook;
      status, connected, disconnecting, freeing, inCallback, err := Live, false, false, false, false, false;
      obuf, inbox, answered := [], [], [];
      sent, accepted, log, told := [], [], [], [];
    }

    /** __redisAsyncCommand, for commands other than the pub/sub ones and MONITOR. */
    method Command(fn: Callback, cmd: seq<byte>) returns (ok: bool)
      requires Valid() && status == Live
      modifies this, replies.Repr
      ensures Valid() && fresh(replies.Repr - old(replies.Repr))
      ensures ok <==> !Closing(old(State()))
      ensures State() == AsyncSpec.Command(old(State()), fn, cmd)
    {
      if disconnecting || freeing {
        return false;
      }
      replies.Push(fn);
      obuf := obuf + cmd;
      accepted := accepted + [Request(fn, cmd)];
      ok := true;
    }

    /** One call a callback, or the program, makes. */
    method Act(a: Action)
      requires Valid() && status == Live
      modifies this, replies.Repr
      ensures Valid() && fresh(replies.Repr - old(replies.Repr))
      ensures State() == AsyncSpec.Act(old(State()), a)
      decreases if inCallback then 0 else 1, 5
    {
      match a
      case Issue(cb, cmd) =>
        var ok := Command(cb, cmd);
      case Disconnect =>
        AsyncDisconnect();
      case Free =>
        AsyncFree();
    }

    /** What the function of a callback does. */
    method RunScript(script: seq<Action>)
      requires Valid() && status == Live && inCallback
      modifies this, replies.Repr
      ensures Valid() && fresh(replies.Repr - old(replies.Repr))
      ensures State() == AsyncSpec.RunScript(old(State()), script)
      decreases 0, 6
    {
      var i := 0;
      while i < |script|
        invariant 0 <= i <= |script|
        invariant Valid() && fresh(replies.Repr - old(replies.Repr)) && status == Live && inCallback
        invariant AsyncSpec.RunScript(State(), script[i..]) == AsyncSpec.RunScript(old(State()), script)
      {
        assert script[i..][1..] == script[i + 1..];
        Act(script[i]);
        i := i + 1;
      }
    }

    /** __redisRunCallback. */
    method RunCallback(cb: Callback, reply: Option<Reply>)
      requires Valid() && status == Live && !inCallback
      modifies this, replies.Repr
      ensures Valid() && fresh(replies.Repr - old(replies.Repr))
      ensures State() == AsyncSpec.RunCallback(old(State()), cb, reply)
      decreases 1, 0
    {
      hide AsyncSpec.RunScript, CallbackList.Contents, CallbackList.Valid;
      if cb.Fn? {
        inCallback := true;
        log := log + [Delivery(cb, reply)];
        RunScript(cb.script);
        inCallback := false;
      }
    }

    /** Takes the next callback off the queue. */
    method Next() returns (cb: Option<Callback>)
      requires Valid()
      modifies replies.Repr
      ensures Valid() && replies.Repr == old(replies.Repr)
      ensures old(State().queue) == [] ==> cb == None && State() == old(State())
      ensures old(State().queue) != [] ==> cb == Some(old(State().queue[0]))
      ensures old(State().queue) != [] ==> State() == old(State()).(queue := old(State().queue[1..]))
    {
      cb := replies.Shift();
    }

    /** The loop of __redisAsyncFree over pending callbacks. */
    method DrainAll()
      requires Valid() && status == Live && !inCallback && (disconnecting || freeing)
      modifies this, replies.Repr
      ensures Valid() && fresh(replies.Repr - old(replies.Repr))
      ensures State() == Drain(old(State()))
      decreases 1, 1
    {
      hide AsyncSpec.RunCallback, Within, CallbackList.Contents, CallbackList.Valid;
      var cb := Next();
      while cb != None
        invariant Valid() && fresh(replies.Repr - old(replies.Repr))
        invariant status == Live && !inCallback && (disconnecting || freeing)
        invariant Drain(old(State())) == if cb == None then State() else Drain(AsyncSpec.RunCallback(State(), cb.value, None))
        decreases if cb == None then 0 else 1 + |State().queue|
      {
        RunCallback(cb.value, None);
        cb := Next();
      }
    }

    /** __redisAsyncFree. */
    method FreeNow()
      requires Valid() && status == Live && !inCallback && (disconnecting || freeing)
      modifies this, replies.Repr
      ensures Valid() && fresh(replies.Repr - old(replies.Repr))
      ensures State() == AsyncSpec.FreeNow(old(State()))
      decreases 1, 2
    {
      DrainAll();
      if onDisconnect && connected {
        told := told + [freeing || !err];
      }
      status := Freed;
    }

    /** redisAsyncFree. */
    method AsyncFree()
      requires Valid() && status == Live
      modifies this, replies.Repr
      ensures Valid() && fresh(replies.Repr - old(replies.Repr))
      ensures State() == AsyncSpec.AsyncFree(old(State()))
      decreases if inCallback then 0 else 1, 4
    {
      freeing := true;
      if !inCallback {
        FreeNow();
      }
    }

    /** __redisAsyncDisconnect. */
    method DisconnectNow()
      requires Valid() && status == Live && !inCallback && (err || disconnecting || freeing)
      modifies this, replies.Repr
      ensures Valid() && fresh(replies.Repr - old(replies.Repr))
      ensures State() == AsyncSpec.DisconnectNow(old(State()))
      decreases 1, 3
    {
      if !err {
        if replies.head != null {
          status := Aborted;
          return;
        }
      } else {
        disconnecting := true;
      }
      FreeNow();
    }

    /** redisAsyncDisconnect. */
    method AsyncDisconnect()
      requires Valid() && status == Live
      modifies this, replies.Repr
      ensures Valid() && fresh(replies.Repr - old(replies.Repr))
      ensures State() == AsyncSpec.AsyncDisconnect(old(State()))
      decreases if inCallback then 0 else 1, 4
    {
      disconnecting := true;
      if !inCallback && replies.head == null {
        DisconnectNow();
      }
    }

    /** A reply nobody waits for. */
    method Spontaneous(reply: Reply)
      requires Valid() && status == Live && !inCallback
      modifies this, replies.Repr
      ensures Valid() && fresh(replies.Repr - old(replies.Repr))
      ensures var s := old(State());
        State() == if reply.Error? then AsyncSpec.DisconnectNow(s.(err := true)) else s.(status := Aborted)
    {
      hide AsyncSpec.DisconnectNow, CallbackList.Contents, CallbackList.Valid;
      if reply.Error? {
        err := true;
        DisconnectNow();
      } else {
        status := Aborted;
      }
    }

    /** Runs a callback with a reply, and frees the context if the callback has asked for it. */
    method Deliver(cb: Callback, reply: Reply) returns (more: bool)
      requires Valid() && status == Live && !inCallback
      modifies this, replies.Repr
      ensures Valid() && fresh(replies.Repr - old(replies.Repr))
      ensures var s := old(State());
        var r := AsyncSpec.RunCallback(s.(answered := s.answered + [reply]), cb, Some(reply));
        && more == !(cb.Fn? && r.freeing) && State() == if more then r else AsyncSpec.FreeNow(r)
      ensures more ==> status == Live && !inCallback
    {
      hide AsyncSpec.RunCallback, AsyncSpec.FreeNow, CallbackList.Contents, CallbackList.Valid;
      answered := answered + [reply];
      RunCallback(cb, Some(reply));
      more := !(cb.Fn? && freeing);
      if !more {
        FreeNow();
      }
    }

    /** Gives the first of some replies to the callback at the head of the queue; false when the context is gone. */
    method Serve(reply: Reply, ghost rest: seq<Reply>, ghost broken: bool) returns (more: bool)
      requires Valid() && status == Live && !inCallback
      modifies this, replies.Repr
      ensures Valid() && fresh(replies.Repr - old(replies.Repr))
      ensures more ==> status == Live && !inCallback
      ensures Process(old(State()), [reply] + rest, broken) == if more then Process(State(), rest, broken) else State()
    {
      hide Process, AsyncSpec.RunCallback, AsyncSpec.FreeNow, AsyncSpec.DisconnectNow, CallbackList.Valid, State;
      StateIs();
      ProcessOne(State(), reply, rest, broken);
      var cb := Next();
      if cb == None {
        Spontaneous(reply);
        more := false;
      } else {
        more := Deliver(cb.value, reply);
      }
    }

    /** No further reply: the reader has failed, or a disconnect that was put off is due, or there is nothing to do. */
    method OutOfReplies(broken: bool)
      requires Valid() && status == Live && !inCallback
      modifies this, replies.Repr
      ensures Valid() && fresh(replies.Repr - old(replies.Repr))
      ensures State() == Process(old(State()), [], broken)
    {
      hide AsyncSpec.DisconnectNow, CallbackList.Contents, CallbackList.Valid;
      if broken {
        err := true;
        DisconnectNow();
      } else if disconnecting && obuf == [] {
        DisconnectNow();
      }
    }

    /** redisProcessCallbacks: the reader yields these replies and then fails, or has no more. */
    method ProcessCallbacks(incoming: seq<Reply>, broken: bool)
      requires Valid() && status == Live && !inCallback
      modifies this, replies.Repr
      ensures Valid() && fresh(replies.Repr - old(replies.Repr))
      ensures State() == Process(old(State()), incoming, broken)
    {
      hide Process, CallbackList.Contents, CallbackList.Valid;
      var i := 0;
      while i < |incoming|
        invariant 0 <= i <= |incoming|
        invariant Valid() && fresh(replies.Repr - old(replies.Repr)) && status == Live && !inCallback
        invariant Process(State(), incoming[i..], broken) == Process(old(State()), incoming, broken)
      {
        ghost var rest := incoming[i + 1..];
        assert incoming[i..] == [incoming[i]] + rest;
        var more := Serve(incoming[i], rest, broken);
        if !more {
          return;
        }
        i := i + 1;
      }
      assert incoming[i..] == [];
      OutOfReplies(broken);
    }

    /** __redisAsyncHandleConnect. */
    method HandleConnect(h: Handshake)
      requires Valid() && status == Live && !inCallback
      modifies this, replies.Repr
      ensures Valid() && fresh(replies.Repr - old(replies.Repr))
      ensures State() == AsyncSpec.HandleConnect(old(State()), h)
    {
      hide AsyncSpec.DisconnectNow, CallbackList.Contents, CallbackList.Valid;
      match h
      case InProgress =>
        err := true;
      case Refused =>
        err := true;
        DisconnectNow();
      case Established =>
        connected := true;
    }

    /** redisAsyncHandleRead. */
    method HandleRead(h: Handshake, bytes: Option<seq<byte>>)
      requires Valid() && status == Live && !inCallback
      modifies this, replies.Repr
      ensures Valid() && fresh(replies.Repr - old(replies.Repr))
      ensures State() == AsyncSpec.HandleRead(old(State()), h, bytes)
    {
      hide ParseStream, AsyncSpec.DisconnectNow, AsyncSpec.HandleConnect, Process, CallbackList.Contents, CallbackList.Valid;
      if !connected {
        ConnectedKeeps(State(), h);
        HandleConnect(h);
        if status != Live || !connected {
          return;
        }
      }
      if err || bytes.None? {
        err := true;
        DisconnectNow();
      } else {
        inbox := inbox + bytes.value;
        var st := ParseStream(inbox);
        var seen := if |answered| <= |st.replies| then |answered| else |st.replies|;
        ProcessCallbacks(st.replies[seen..], st.failure.Some?);
      }
    }

    /** redisAsyncHandleWrite. */
    method HandleWrite(h: Handshake, written: Option<nat>)
      requires Valid() && status == Live && !inCallback
      modifies this, replies.Repr
      ensures Valid() && fresh(replies.Repr - old(replies.Repr))
      ensures State() == AsyncSpec.HandleWrite(old(State()), h, written)
    {
      hide AsyncSpec.Written, AsyncSpec.HandleConnect, CallbackList.Contents, CallbackList.Valid;
      if !connected {
        ConnectedKeeps(State(), h);
        HandleConnect(h);
        if status != Live || !connected {
          return;
        }
      }
      Written(written);
    }

    method Written(written: Option<nat>)
      requires Valid() && status == Live && !inCallback
      modifies this, replies.Repr
      ensures Valid() && fresh(replies.Repr - old(replies.Repr))
      ensures State() == AsyncSpec.Written(old(State()), written)
    {
      hide AsyncSpec.DisconnectNow, CallbackList.Contents, CallbackList.Valid;
      if err || written.None? {
        err := true;
        DisconnectNow();
      } else {
        var n := if written.value <= |obuf| then written.value else |obuf|;
        sent := sent + obuf[..n];
        obuf := obuf[n..];
      }
    }
  }

  /** The first of some replies, then the others. */
  lemma ProcessOne(s: Conn, reply: Reply, rest: seq<Reply>, broken: bool)
    requires s.status == Live && !s.inCallback
    ensures s.queue == [] ==>
      Process(s, [reply] + rest, broken) == if reply.Error? then AsyncSpec.DisconnectNow(s.(err := true)) else s.(status := Aborted)
    ensures s.queue != [] ==>
      var r := AsyncSpec.RunCallback(s.(queue := s.queue[1..], answered := s.answered + [reply]), s.queue[0], Some(reply));
      Process(s, [reply] + rest, broken)
        == if s.queue[0].Fn? && r.freeing then AsyncSpec.FreeNow(r) else Process(r, rest, broken)
  {
    hide AsyncSpec.RunCallback, AsyncSpec.FreeNow, AsyncSpec.DisconnectNow;
    assert ([reply] + rest)[1..] == rest;
  }

  lemma ConnectedKeeps(s: Conn, h: Handshake)
    requires s.status == Live && !s.inCallback
    ensures var r := AsyncSpec.HandleConnect(s, h); r.status == Live ==> r == s.(connected := r.connected, err := r.err)
  {
  }

  /** A program's whole use of a context: the events in turn, for as long as the context is there. */
  method Drive(hook: bool, events: seq<Event>) returns (ac: AsyncContext)
    ensures ac.State() == Run(Start(hook), events)
  {
    hide Step, CallbackList.Contents, CallbackList.Valid;
    ac := new AsyncContext(hook);
    var i := 0;
    while i < |events| && ac.status == Live
      invariant 0 <= i <= |events|
      invariant ac.Valid() && fresh(ac) && fresh(ac.replies) && fresh(ac.replies.Repr) && !ac.inCallback
      invariant Run(ac.State(), events[i..]) == Run(Start(hook), events)
    {
      assert events[i..][0] == events[i] && events[i..][1..] == events[i + 1..];
      HandleEvent(ac, events[i]);
      i := i + 1;
    }
    assert i == |events| ==> events[i..] == [];
  }

  method HandleEvent(ac: AsyncContext, e: Event)
    requires ac.Valid() && ac.status == Live && !ac.inCallback
    modifies ac, ac.replies.Repr
    ensures ac.Valid() && fresh(ac.replies.Repr - old(ac.replies.Repr))
    ensures ac.State() == Step(old(ac.State()), e) && !ac.inCallback
  {
    match e
    case Call(a) => ac.Act(a);
    case Readable(h, bytes) => ac.HandleRead(h, bytes);
    case Writable(h, written) => ac.HandleWrite(h, written);
  }
}
