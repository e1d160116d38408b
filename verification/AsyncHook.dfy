/**
 What the disconnect hook is told, in terms of the events of a run and of the calls made by the callbacks that ran:
 what was read, whether the connection came up, whether anything went wrong, and whether a free was asked for.
 */
module AsyncHook {
  import opened Bytes
  import opened RespSpec
  import RespRuns
  import opened AsyncSpec
  import opened AsyncRuns

  // ----- What events say by themselves -----

  /** The events a context takes: those until it is gone. */
  function Lived(s: Conn, events: seq<Event>): seq<Event>
    requires !s.inCallback
    decreases |events|
  {
    if s.status != Live || events == [] then [] else [events[0]] + Lived(Step(s, events[0]), events[1..])
  }

  predicate Completes(e: Event) {
    match e
    case Call(_) => false
    case Readable(h, _) => h.Established?
    case Writable(h, _) => h.Established?
  }

  /** The connection has come up. */
  predicate Up(events: seq<Event>) {
    events != [] && (Up(events[..|events| - 1]) || Completes(events[|events| - 1]))
  }

  /** A socket event that finds no connection, or whose read or write fails. */
  predicate Fails(up: bool, e: Event) {
    match e
    case Call(_) => false
    case Readable(h, bytes) => if up || h.Established? then bytes.None? else true
    case Writable(h, written) => if up || h.Established? then written.None? else true
  }

  /** The connection was refused or still in progress when looked at, or a read or a write failed. */
  predicate Trouble(events: seq<Event>) {
    events != [] && (Trouble(events[..|events| - 1]) || Fails(Up(events[..|events| - 1]), events[|events| - 1]))
  }

  /** The bytes read, up to the first trouble. */
  function Received(events: seq<Event>): seq<byte> {
    if events == [] then []
    else
      var e := events[|events| - 1];
      Received(events[..|events| - 1]) + if e.Readable? && e.bytes.Some? && !Trouble(events) then e.bytes.value else []
  }

  /** A free was asked for, by a call between two events or by a callback that ran. */
  ghost predicate FreeAsked(s: Conn, events: seq<Event>) {
    Call(Free) in events || FreeLogged(s.log)
  }

  ghost predicate FreeLogged(log: seq<Delivery>) {
    exists i :: 0 <= i < |log| && Free in ScriptOf(log[i].cb)
  }

  /** Of the replies that came, the one after those to all commands is an error. */
  predicate UnaskedError(s: Conn) {
    var replies := ParseStream(s.inbox).replies;
    |s.accepted| < |replies| && replies[|s.accepted|].Error?
  }

  /** What the hook is to be told: that all is well if a free was asked for, or nothing went wrong. */
  ghost predicate AllWell(s: Conn, events: seq<Event>) {
    FreeAsked(s, events) || (!Trouble(events) && ParseStream(s.inbox).failure.None? && !UnaskedError(s))
  }

  /** The state agrees with the events that led to it. */
  ghost predicate Tied(s: Conn, hook: bool, events: seq<Event>) {
    && s.hook == hook && s.connected == Up(events) && s.inbox == Received(events) && s.freeing == FreeAsked(s, events)
    && match s.status
       case Live => s.err == Trouble(events)
       case Freed => s.told == if hook && Up(events) then [AllWell(s, events)] else []
       case Aborted => s.told == [] && !Trouble(events)
  }

  // ----- Steps -----

  /** The free flag says whether a free was asked for. */
  ghost predicate Flagged(s: Conn, called: bool) {
    s.freeing == (called || FreeLogged(s.log))
  }

  lemma FreeLoggedNext(log: seq<Delivery>, d: Delivery)
    ensures FreeLogged(log + [d]) == (FreeLogged(log) || Free in ScriptOf(d.cb))
  {
    var all := log + [d];
    if FreeLogged(log) {
      var i :| 0 <= i < |log| && Free in ScriptOf(log[i].cb);
      assert all[i] == log[i];
    }
    assert all[|log|] == d;
  }

  lemma CallbackFlags(s: Conn, cb: Callback, reply: Option<Reply>, called: bool)
    requires s.status == Live && !s.inCallback && Flagged(s, called)
    ensures Flagged(RunCallback(s, cb, reply), called)
  {
    hide RunCallback, Issued, FreeLogged;
    CallbackActs(s, cb, reply);
    FreeLoggedNext(s.log, Delivery(cb, reply));
  }

  lemma {:induction false} DrainFlags(s: Conn, called: bool)
    requires s.status == Live && !s.inCallback && Closing(s) && Flagged(s, called)
    ensures var r := Drain(s);
      r == s.(queue := [], log := r.log, freeing := r.freeing, disconnecting := r.disconnecting) && Flagged(r, called)
      && (s.freeing ==> r.freeing)
    decreases |s.queue|
  {
    hide RunCallback, FreeLogged, Flagged;
    if s.queue != [] {
      var t := s.(queue := s.queue[1..]);
      assert Flagged(t, called) by { FlaggedAlike(s, t, called); }
      CallbackFlags(t, s.queue[0], None, called);
      DrainFlags(RunCallback(t, s.queue[0], None), called);
    }
  }

  lemma FlaggedAlike(s: Conn, t: Conn, called: bool)
    requires s.log == t.log && s.freeing == t.freeing
    ensures Flagged(s, called) == Flagged(t, called)
  {
  }

  /** r is s, freed, with the hook told. */
  predicate FreedFrom(s: Conn, r: Conn) {
    && r.status == Freed && r.connected == s.connected && r.inbox == s.inbox && r.accepted == s.accepted && r.hook == s.hook
    && r.err == s.err && (s.freeing ==> r.freeing)
    && r.told == s.told + if s.hook && s.connected then [r.freeing || !s.err] else []
  }

  lemma FreeTells(s: Conn, called: bool)
    requires s.status == Live && !s.inCallback && Closing(s) && Flagged(s, called)
    ensures FreedFrom(s, FreeNow(s)) && Flagged(FreeNow(s), called)
  {
    hide Drain, FreeLogged;
    DrainFlags(s, called);
  }

  lemma DisconnectTells(s: Conn, called: bool)
    requires s.status == Live && !s.inCallback && (s.err || Closing(s)) && Flagged(s, called)
    ensures var r := DisconnectNow(s);
      && Flagged(r, called)
      && if s.err || s.queue == [] then FreedFrom(s, r) else r == s.(status := Aborted)
  {
    hide FreeNow, FreeLogged;
    if s.err {
      FreeTells(s.(disconnecting := true), called);
    } else if s.queue == [] {
      FreeTells(s, called);
    }
  }

  /** What processing replies leaves: the hook is told whether something went wrong, unless a free was asked for. */
  ghost predicate Processed(s: Conn, r: Conn, called: bool) {
    && r.connected == s.connected && r.inbox == s.inbox && r.hook == s.hook && Flagged(r, called)
    && match r.status
       case Live => !r.err
       case Freed =>
         && r.told == (if r.hook && r.connected then [r.freeing || !r.err] else [])
         && (!r.freeing ==> (r.err <==> ParseStream(r.inbox).failure.Some? || UnaskedError(r)))
       case Aborted => r.told == []
  }

  lemma {:induction false} ProcessTells(s: Conn, replies: seq<Reply>, broken: bool, called: bool)
    requires s.status == Live && !s.inCallback && !s.freeing && !s.err && s.told == [] && Good(s, |s.answered|)
    requires ParseStream(s.inbox).replies == s.answered + replies && ParseStream(s.inbox).failure.Some? == broken
    requires Flagged(s, called)
    ensures Processed(s, Process(s, replies, broken), called)
    decreases |replies|
  {
    hide RunCallback, FreeNow, DisconnectNow, Good, Flagged, ParseStream, UnaskedError;
    if replies == [] || s.queue == [] {
      EndTells(s, replies, broken, called);
    } else {
      var t := Taken(s, Some(replies[0]));
      var r := RunCallback(t, s.queue[0], Some(replies[0]));
      GoodTake(s, |s.answered|, Some(replies[0]));
      FlaggedAlike(s, t, called);
      CallbackFlags(t, s.queue[0], Some(replies[0]), called);
      assert s.answered + replies == s.answered + [replies[0]] + replies[1..];
      if s.queue[0].Fn? && r.freeing {
        FreeTells(r, called);
      } else {
        NullKeeps(t, s.queue[0], Some(replies[0]));
        ProcessTells(r, replies[1..], broken, called);
      }
    }
  }

  lemma NullKeeps(s: Conn, cb: Callback, reply: Option<Reply>)
    requires s.status == Live && !s.inCallback
    ensures cb.NullFn? ==> RunCallback(s, cb, reply) == s
  {
  }

  lemma EndTells(s: Conn, replies: seq<Reply>, broken: bool, called: bool)
    requires s.status == Live && !s.inCallback && !s.freeing && !s.err && s.told == [] && Good(s, |s.answered|)
    requires ParseStream(s.inbox).replies == s.answered + replies && ParseStream(s.inbox).failure.Some? == broken
    requires Flagged(s, called) && (replies == [] || s.queue == [])
    ensures Processed(s, Process(s, replies, broken), called)
  {
    hide FreeNow, DisconnectNow, FreeLogged, ParseStream, Deliveries, Commands;
    var all := ParseStream(s.inbox).replies;
    assert s.queue == [] ==> |s.accepted| == |s.answered|;
    assert replies == [] ==> all == s.answered;
    if replies == [] {
      if broken {
        DisconnectTells(s.(err := true), called);
      } else if s.disconnecting && s.obuf == [] {
        DisconnectTells(s, called);
      }
    } else {
      assert all[|s.answered|] == replies[0];
      if replies[0].Error? {
        DisconnectTells(s.(err := true), called);
      }
    }
  }

  // ----- Events -----

  lemma Snoc(past: seq<Event>, e: Event)
    ensures var events := past + [e];
      && Up(events) == (Up(past) || Completes(e)) && Trouble(events) == (Trouble(past) || Fails(Up(past), e))
      && Received(events) == Received(past) + (if e.Readable? && e.bytes.Some? && !Trouble(events) then e.bytes.value else [])
      && (Call(Free) in events <==> Call(Free) in past || e == Call(Free))
  {
    assert (past + [e])[..|past|] == past;
  }

  lemma CallTied(s: Conn, past: seq<Event>, a: Action)
    requires s.status == Live && Settled(s) && Tied(s, s.hook, past)
    ensures Tied(Act(s, a), s.hook, past + [Call(a)])
  {
    hide FreeNow, DisconnectNow, FreeLogged, ParseStream, Deliveries, Commands, Up, Trouble, Received;
    Snoc(past, Call(a));
    var called := Call(Free) in past;
    assert Received(past) + [] == Received(past);
    assert !UnaskedError(s);
    match a
    case Issue(cb, cmd) =>
    case Disconnect =>
      assert Act(s, a) == AsyncDisconnect(s);
      if s.queue == [] {
        DisconnectTells(s.(disconnecting := true), called);
      }
    case Free =>
      assert Act(s, a) == AsyncFree(s);
      FreeTells(s.(freeing := true), true);
  }

  /** A socket event that ends in an error. */
  lemma ErrorTied(s: Conn, past: seq<Event>, e: Event, up: bool)
    requires s.status == Live && Settled(s) && Tied(s, s.hook, past) && Trouble(past + [e]) && up == Up(past + [e]) && !e.Call?
    ensures Tied(DisconnectNow(s.(connected := up, err := true)), s.hook, past + [e])
  {
    hide DisconnectNow, FreeLogged, ParseStream, Deliveries, Commands, Up, Trouble, Received;
    Snoc(past, e);
    assert Received(past) + [] == Received(past);
    DisconnectTells(s.(connected := up, err := true), Call(Free) in past);
  }

  lemma WriteTied(s: Conn, past: seq<Event>, h: Handshake, written: Option<nat>)
    requires s.status == Live && Settled(s) && Tied(s, s.hook, past)
    ensures Tied(HandleWrite(s, h, written), s.hook, past + [Writable(h, written)])
  {
    hide DisconnectNow, FreeLogged, ParseStream, Deliveries, Commands, Up, Trouble, Received;
    var e := Writable(h, written);
    Snoc(past, e);
    assert Received(past) + [] == Received(past);
    if Trouble(past + [e]) {
      ErrorTied(s, past, e, Up(past + [e]));
    }
  }

  lemma ReadTied(s: Conn, past: seq<Event>, h: Handshake, bytes: Option<seq<byte>>)
    requires s.status == Live && Settled(s) && Tied(s, s.hook, past)
    ensures Tied(HandleRead(s, h, bytes), s.hook, past + [Readable(h, bytes)])
  {
    hide DisconnectNow, Process, FreeLogged, ParseStream, Good, UnaskedError, Up, Trouble, Received;
    var e := Readable(h, bytes);
    Snoc(past, e);
    assert Received(past) + [] == Received(past);
    if Trouble(past + [e]) {
      ErrorTied(s, past, e, Up(past + [e]));
    } else {
      RespRuns.StreamGrows(s.inbox, bytes.value);
      var t := s.(connected := true, inbox := s.inbox + bytes.value);
      var st := ParseStream(t.inbox);
      GoodInbox(s, t.inbox);
      GoodConnected(s.(inbox := t.inbox));
      var replies := st.replies[|s.answered|..];
      assert st.replies == s.answered + replies;
      ProcessTells(t, replies, st.failure.Some?, Call(Free) in past);
      ProcessedTied(t, Process(t, replies, st.failure.Some?), past, e);
    }
  }

  lemma GoodConnected(s: Conn)
    requires Good(s, |s.answered|)
    ensures Good(s.(connected := true), |s.answered|)
  {
  }

  lemma ProcessedTied(s: Conn, r: Conn, past: seq<Event>, e: Event)
    requires e.Readable? && !Trouble(past + [e]) && s.connected && Up(past + [e]) && s.inbox == Received(past + [e])
    requires Processed(s, r, Call(Free) in past)
    ensures Tied(r, s.hook, past + [e])
  {
    hide FreeLogged, ParseStream, UnaskedError, Up, Trouble, Received;
    Snoc(past, e);
  }

  lemma {:induction false} EventTied(s: Conn, past: seq<Event>, e: Event)
    requires s.status == Live && Settled(s) && Tied(s, s.hook, past)
    ensures Tied(Step(s, e), s.hook, past + [e])
  {
    hide Tied, Settled, Act, HandleRead, HandleWrite;
    match e
    case Call(a) => CallTied(s, past, a);
    case Readable(h, bytes) => ReadTied(s, past, h, bytes);
    case Writable(h, written) => WriteTied(s, past, h, written);
  }

  /** Every run keeps the state in agreement with its events. */
  lemma {:induction false} RunTied(s: Conn, hook: bool, past: seq<Event>, events: seq<Event>)
    requires Settled(s) && Tied(s, hook, past)
    ensures Settled(Run(s, events)) && Tied(Run(s, events), hook, past + Lived(s, events))
    decreases |events|
  {
    hide Tied, Settled, Step;
    SettledOutside(s);
    if s.status == Live && events != [] {
      var e, rest := events[0], events[1..];
      HookIs(s, hook, past);
      EventTied(s, past, e);
      StepSettles(s, e);
      RunTied(Step(s, e), hook, past + [e], rest);
      assert past + [e] + Lived(Step(s, e), rest) == past + Lived(s, events);
    } else {
      assert past + [] == past;
    }
  }

  lemma HookIs(s: Conn, hook: bool, past: seq<Event>)
    requires Tied(s, hook, past)
    ensures s.hook == hook
  {
  }

  lemma StepSettles(s: Conn, e: Event)
    requires s.status == Live && Settled(s)
    ensures Settled(Step(s, e)) && !s.inCallback && !Step(s, e).inCallback
  {
    hide Settled, Act, HandleRead, HandleWrite;
    SettledOutside(s);
    match e
    case Call(a) => CallSettles(s, a);
    case Readable(h, bytes) => ReadSettles(s, h, bytes);
    case Writable(h, written) => WriteSettles(s, h, written);
  }

  /**
   What the disconnect hook is told, over every run. When the context is freed, a hook is told once if the connection
   had come up, and never otherwise; and it is told that all is well if and only if a free was asked for, or no
   connection attempt, read or write failed, the stream received is sound and no error came unasked.
   */
  lemma HookTold(hook: bool, events: seq<Event>)
    requires Run(Start(hook), events).status == Freed
    ensures var s, lived := Run(Start(hook), events), Lived(Start(hook), events);
      && s.inbox == Received(lived)
      && s.told == if hook && Up(lived) then [AllWell(s, lived)] else []
  {
    hide Settled;
    StartSettled(hook);
    assert !FreeLogged([]);
    RunTied(Start(hook), hook, [], events);
    assert [] + Lived(Start(hook), events) == Lived(Start(hook), events);
  }
}
