/**
 An asynchronous connection as a value and its operations as functions: regular commands only, no
 SUBSCRIBE and no MONITOR. User callbacks may call back into the library; what a callback does is
 the list of calls it makes, which is all one run of it can show.
 */
module AsyncSpec {
  import opened Bytes
  import opened RespSpec

  datatype Callback = NullFn | Fn(id: int, script: seq<Action>)

  /** The library calls a callback can make. */
  datatype Action = Issue(cb: Callback, cmd: seq<byte>) | Disconnect | Free

  datatype Request = Request(cb: Callback, cmd: seq<byte>)

  /** A callback that was run, with a reply or with NULL. */
  datatype Delivery = Delivery(cb: Callback, reply: Option<Reply>)

  /** Aborted: an assert of the C code failed. */
  datatype Status = Live | Freed | Aborted

  /** The last five fields are history: bytes received, commands accepted, replies used, callbacks run, and
      the statuses passed to the disconnect hook (true for REDIS_OK). */
  datatype Conn = Conn(
    status: Status, connected: bool, disconnecting: bool, freeing: bool, inCallback: bool, err: bool, hook: bool,
    queue: seq<Callback>, obuf: seq<byte>, sent: seq<byte>,
    inbox: seq<byte>, accepted: seq<Request>, answered: seq<Reply>, log: seq<Delivery>, told: seq<bool>)

  const IDLE := Conn(Live, false, false, false, false, false, false, [], [], [], [], [], [], [], [])

  /** A fresh connection, with or without a disconnect hook. */
  function Start(hook: bool): Conn {
    IDLE.(hook := hook)
  }

  predicate Closing(s: Conn) {
    s.disconnecting || s.freeing
  }

  // ----- Operations -----

  /** A command is refused once the connection is closing. */
  function Command(s: Conn, cb: Callback, cmd: seq<byte>): Conn {
    if Closing(s) then s
    else s.(queue := s.queue + [cb], obuf := s.obuf + cmd, accepted := s.accepted + [Request(cb, cmd)])
  }

  /** What running a callback may change. */
  predicate Within(s: Conn, r: Conn) {
    && r == s.(disconnecting := r.disconnecting, freeing := r.freeing, queue := r.queue, obuf := r.obuf, accepted := r.accepted)
    && (s.disconnecting ==> r.disconnecting) && (s.freeing ==> r.freeing)
    && (Closing(s) ==> r.queue == s.queue && r.obuf == s.obuf && r.accepted == s.accepted)
  }

  function Rank(s: Conn): nat {
    if s.inCallback then 0 else 1
  }

  function Act(s: Conn, a: Action): (r: Conn)
    requires s.status == Live
    ensures r.inCallback == s.inCallback && (s.inCallback ==> Within(s, r))
    decreases Rank(s), 5
  {
    match a
    case Issue(cb, cmd) => Command(s, cb, cmd)
    case Disconnect => AsyncDisconnect(s)
    case Free => AsyncFree(s)
  }

  function RunScript(s: Conn, script: seq<Action>): (r: Conn)
    requires s.status == Live && s.inCallback
    ensures Within(s, r)
    decreases 0, 6, |script|
  {
    if script == [] then s else RunScript(Act(s, script[0]), script[1..])
  }

  function RunCallback(s: Conn, cb: Callback, reply: Option<Reply>): (r: Conn)
    requires s.status == Live && !s.inCallback
    ensures cb.Fn? ==> Within(s.(log := s.log + [Delivery(cb, reply)]), r)
    ensures cb.NullFn? ==> r == s
    ensures r.status == Live && !r.inCallback
    ensures Closing(s) ==> Closing(r) && r.queue == s.queue
    decreases 1, 0
  {
    if cb.NullFn? then s
    else RunScript(s.(inCallback := true, log := s.log + [Delivery(cb, reply)]), cb.script).(inCallback := false)
  }

  /** Pending callbacks get a NULL reply. The connection is closing, so none of them can add to the queue. */
  function Drain(s: Conn): (r: Conn)
    requires s.status == Live && !s.inCallback && Closing(s)
    ensures r.queue == [] && r.status == Live && !r.inCallback
    decreases 1, 1, |s.queue|
  {
    if s.queue == [] then s
    else Drain(RunCallback(s.(queue := s.queue[1..]), s.queue[0], None))
  }

  /** __redisAsyncFree. */
  function FreeNow(s: Conn): (r: Conn)
    requires s.status == Live && !s.inCallback && Closing(s)
    ensures r.status == Freed && !r.inCallback
    decreases 1, 2
  {
    var d := Drain(s);
    d.(status := Freed, told := d.told + if d.hook && d.connected then [d.freeing || !d.err] else [])
  }

  /** redisAsyncFree: put off while a callback is running. */
  function AsyncFree(s: Conn): (r: Conn)
    requires s.status == Live
    ensures r.inCallback == s.inCallback && (s.inCallback ==> r == s.(freeing := true))
    decreases Rank(s), 4
  {
    var f := s.(freeing := true);
    if f.inCallback then f else FreeNow(f)
  }

  /** __redisAsyncDisconnect: without an error, the queue is asserted to be empty. */
  function DisconnectNow(s: Conn): (r: Conn)
    requires s.status == Live && !s.inCallback && (s.err || Closing(s))
    ensures r.status != Live && !r.inCallback
    decreases 1, 3
  {
    if s.err then FreeNow(s.(disconnecting := true))
    else if s.queue != [] then s.(status := Aborted)
    else FreeNow(s)
  }

  /** redisAsyncDisconnect: at once only when nothing is pending. */
  function AsyncDisconnect(s: Conn): (r: Conn)
    requires s.status == Live
    ensures r.inCallback == s.inCallback && (s.inCallback ==> r == s.(disconnecting := true))
    decreases Rank(s), 4
  {
    var d := s.(disconnecting := true);
    if !d.inCallback && d.queue == [] then DisconnectNow(d) else d
  }

  /** redisProcessCallbacks, given the replies the reader will yield and whether it fails after them. */
  function Process(s: Conn, replies: seq<Reply>, broken: bool): (t: Conn)
    requires s.status == Live && !s.inCallback
    ensures !t.inCallback
    decreases |replies|
  {
    if replies == [] then
      if broken then DisconnectNow(s.(err := true))
      else if s.disconnecting && s.obuf == [] then DisconnectNow(s)
      else s
    else if s.queue == [] then
      if replies[0].Error? then DisconnectNow(s.(err := true)) else s.(status := Aborted)
    else
      var r := RunCallback(s.(queue := s.queue[1..], answered := s.answered + [replies[0]]), s.queue[0], Some(replies[0]));
      if s.queue[0].Fn? && r.freeing then FreeNow(r) else Process(r, replies[1..], broken)
  }

  // ----- Events -----

  /** What a readable or writable socket shows while connecting. */
  datatype Handshake = InProgress | Refused | Established

  /** Bytes received or written by the system call, None when it fails; after an error it is not made. */
  datatype Event =
    | Call(action: Action)
    | Readable(handshake: Handshake, bytes: Option<seq<byte>>)
    | Writable(handshake: Handshake, written: Option<nat>)

  /** __redisAsyncHandleConnect. A connection still in progress is to be tried again, but its error has been recorded. */
  function HandleConnect(s: Conn, h: Handshake): (t: Conn)
    requires s.status == Live && !s.inCallback
    ensures !t.inCallback
  {
    match h
    case InProgress => s.(err := true)
    case Refused => DisconnectNow(s.(err := true))
    case Established => s.(connected := true)
  }

  function HandleRead(s: Conn, h: Handshake, bytes: Option<seq<byte>>): (t: Conn)
    requires s.status == Live && !s.inCallback
    ensures !t.inCallback
  {
    var r := if s.connected then s else HandleConnect(s, h);
    if r.status != Live || !r.connected then r
    else if r.err || bytes.None? then DisconnectNow(r.(err := true))
    else
      var inbox := s.inbox + bytes.value;
      var st := ParseStream(inbox);
      var seen := if |s.answered| <= |st.replies| then |s.answered| else |st.replies|;
      Process(r.(inbox := inbox), st.replies[seen..], st.failure.Some?)
  }

  function HandleWrite(s: Conn, h: Handshake, written: Option<nat>): (t: Conn)
    requires s.status == Live && !s.inCallback
    ensures !t.inCallback
  {
    var r := if s.connected then s else HandleConnect(s, h);
    if r.status != Live || !r.connected then r else Written(r, written)
  }

  /** What the write call has taken leaves the output buffer; a failed call ends the connection. */
  function Written(s: Conn, written: Option<nat>): (t: Conn)
    requires s.status == Live && !s.inCallback
    ensures !t.inCallback
  {
    if s.err || written.None? then DisconnectNow(s.(err := true))
    else
      var n := if written.value <= |s.obuf| then written.value else |s.obuf|;
      s.(sent := s.sent + s.obuf[..n], obuf := s.obuf[n..])
  }

  function Step(s: Conn, e: Event): (t: Conn)
    requires s.status == Live && !s.inCallback
    ensures !t.inCallback
  {
    match e
    case Call(a) => Act(s, a)
    case Readable(h, bytes) => HandleRead(s, h, bytes)
    case Writable(h, written) => HandleWrite(s, h, written)
  }

  /** A whole run; a context that is gone takes no more events. */
  function Run(s: Conn, events: seq<Event>): Conn
    requires !s.inCallback
    decreases |events|
  {
    if s.status != Live || events == [] then s else Run(Step(s, events[0]), events[1..])
  }
}
