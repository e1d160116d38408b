/** Sending and receiving frames: the encoder, the receive buffer, and the decoding loop. */
module Rpc {
  import opened Bytes
  import opened Memory
  import opened RpcSpec

  // ----- The encoder -----

  /** The sizing pass. */
  method Measure(m: Message) returns (plen: nat)
    ensures plen == |Frame(m)|
  {
    hide Frame, ArgsBytes;
    plen := 2 + 2 + |m.action| + 2;
    var i := 0;
    FrameSize(m);
    assert m.args[0..] == m.args;
    while i < |m.args|
      invariant 0 <= i <= |m.args|
      invariant plen + |ArgsBytes(m.args[i..])| == |Frame(m)|
    {
      assert m.args[i..][0] == m.args[i] && m.args[i..][1..] == m.args[i + 1..];
      SizeNext(m.args[i..]);
      if m.args[i].Number? {
        plen := plen + (1 + 4);
      } else if m.args[i].Text? {
        plen := plen + (1 + 2 + |m.args[i].bytes|);
      } else {
        plen := plen + 1;
      }
      i := i + 1;
    }
    SizeNext(m.args[i..]);
  }

  lemma FrameSize(m: Message)
    ensures |Frame(m)| == 2 + 2 + |m.action| + 2 + |ArgsBytes(m.args)|
  {
  }

  lemma SizeNext(args: seq<Arg>)
    ensures |ArgsBytes(args)| == if args == [] then 0 else
      (match args[0] case Number(_) => 1 + 4 case Text(bytes) => 1 + 2 + |bytes| case Nil => 1) + |ArgsBytes(args[1..])|
  {
  }

  /** A type code and the field behind it. */
  method PutTagged(buf: array<byte>, pos: nat, ty: byte, field: seq<byte>) returns (next: nat)
    requires pos + 1 + |field| <= buf.Length
    modifies buf
    ensures next == pos + 1 + |field| && buf[..next] == old(buf[..pos]) + ([ty] + field)
  {
    next := Put(buf, pos, [ty]);
    next := Put(buf, next, field);
  }

  method PutArg(buf: array<byte>, pos: nat, a: Arg) returns (next: nat)
    requires pos + |ArgBytes(a)| <= buf.Length
    modifies buf
    ensures next == pos + |ArgBytes(a)| && buf[..next] == old(buf[..pos]) + ArgBytes(a)
  {
    hide Le32, Le16;
    if a.Number? {
      next := PutTagged(buf, pos, TNUMBER, Le32(a.v));
    } else if a.Text? {
      next := PutTagged(buf, pos, TSTRING, Le16(|a.bytes|));
      next := Put(buf, next, a.bytes);
      assert old(buf[..pos]) + ([TSTRING] + Le16(|a.bytes|)) + a.bytes == old(buf[..pos]) + ArgBytes(a);
    } else {
      next := Put(buf, pos, [TNIL]);
    }
  }

  method PutArgs(buf: array<byte>, pos: nat, args: seq<Arg>) returns (next: nat)
    requires pos + |ArgsBytes(args)| <= buf.Length
    modifies buf
    ensures next == pos + |ArgsBytes(args)| && buf[..next] == old(buf[..pos]) + ArgsBytes(args)
  {
    hide ArgBytes;
    ghost var all := buf[..pos] + ArgsBytes(args);
    next := pos;
    var i := 0;
    assert args[0..] == args;
    while i < |args|
      invariant 0 <= i <= |args| && 0 <= next <= buf.Length
      invariant buf[..next] + ArgsBytes(args[i..]) == all
    {
      ghost var done, rest := buf[..next], ArgsBytes(args[i + 1..]);
      assert args[i..][0] == args[i] && args[i..][1..] == args[i + 1..];
      assert done + (ArgBytes(args[i]) + rest) == done + ArgBytes(args[i]) + rest;
      assert |done + ArgBytes(args[i]) + rest| == |all|;
      next := PutArg(buf, next, args[i]);
      i := i + 1;
    }
    assert buf[..next] + [] == buf[..next];
  }

  /** post: the writing pass fills exactly the bytes the sizing pass asked for. */
  method Post(m: Message) returns (buf: array<byte>)
    ensures fresh(buf) && buf[..] == Frame(m)
  {
    hide ArgsBytes, Le16;
    var plen := Measure(m);
    buf := new byte[plen];
    var pos := Put(buf, 0, Le16(plen));
    pos := Put(buf, pos, Le16(|m.action|));
    pos := Put(buf, pos, m.action);
    pos := Put(buf, pos, Le16(|m.args|));
    pos := PutArgs(buf, pos, m.args);
    assert buf[..pos] == Frame(m);
    assert buf[..] == buf[..pos];
  }

  // ----- The receive buffer -----

  class RecvBuf {
    const buf: array<byte>
    var rptr: nat
    var wptr: nat

    ghost predicate Valid()
      reads this
    {
      rptr <= wptr <= buf.Length
    }

    /** The bytes received and not yet consumed. */
    ghost function Contents(): seq<byte>
      requires Valid()
      reads this, buf
    {
      buf[rptr..wptr]
    }

    constructor (size: nat)
      ensures Valid() && fresh(buf) && buf.Length == size && rptr == wptr == 0
    {
      buf := new byte[size];
      rptr, wptr := 0, 0;
    }

    /** Bytes arrive at the write pointer; wskip. */
    method Receive(bytes: seq<byte>)
      requires Valid() && |bytes| <= buf.Length - wptr
      modifies this, buf
      ensures Valid() && Contents() == old(Contents()) + bytes
    {
      var next := Put(buf, wptr, bytes);
      assert buf[..next][rptr..] == old(buf[..wptr])[rptr..] + bytes;
      wptr := next;
    }

    /** rskip: refused when there is less to skip. */
    method RSkip(len: nat) returns (skipped: nat)
      requires Valid()
      modifies this
      ensures Valid()
      ensures len <= |old(Contents())| ==> skipped == len && Contents() == old(Contents())[len..]
      ensures len > |old(Contents())| ==> skipped == 0 && Contents() == old(Contents())
    {
      if wptr - rptr < len {
        return 0;
      }
      rptr := rptr + len;
      skipped := len;
    }

    /** buf2line: moves what is unread to the front. */
    method Buf2Line()
      requires Valid()
      modifies this, buf
      ensures Valid() && rptr == 0 && Contents() == old(Contents())
    {
      if rptr == 0 {
        return;
      }
      var len := wptr - rptr;
      var next := Put(buf, 0, buf[rptr..wptr]);
      rptr := 0;
      wptr := len;
    }
  }

  // ----- Dispatching -----

  /** A call of a Lua function: the name as a C string, and the arguments. */
  datatype Call = Call(name: seq<byte>, args: seq<Arg>)

  /** A string as C reads it. */
  function CName(s: seq<byte>): seq<byte> {
    if NUL in s then s[..StrLen(s)] else s
  }

  /** It ends before the first NUL, or where the bytes end. */
  lemma CNameIs(s: seq<byte>, n: nat)
    requires n <= |s| && NUL !in s[..n] && (n < |s| ==> s[n] == 0)
    ensures CName(s) == s[..n]
  {
    if n < |s| {
      StrLenIs(s, n);
    } else {
      assert s[..n] == s;
    }
  }

  function CallOf(m: Message): Call {
    Call(CName(m.action), m.args)
  }

  function CallsOf(ms: seq<Message>): seq<Call> {
    if ms == [] then [] else CallsOf(ms[..|ms| - 1]) + [CallOf(ms[|ms| - 1])]
  }

  lemma {:induction false} StrLenIs(s: seq<byte>, n: nat)
    requires n < |s| && s[n] == NUL && NUL !in s[..n]
    ensures NUL in s && StrLen(s) == n
  {
    if n > 0 {
      assert s[0] == s[..n][0] && s[1..][..n - 1] == s[..n][1..];
      StrLenIs(s[1..], n - 1);
    }
  }

  /** Reads the C string that starts at index at, in a buffer patched to end it at index p at the latest. */
  method ReadName(data: array<byte>, at: nat, p: nat) returns (name: seq<byte>)
    requires at <= p < data.Length && data[p] == NUL
    ensures name == CName(data[at..p])
  {
    var n := at;
    while data[n] != NUL
      invariant at <= n <= p && NUL !in data[at..n]
      decreases p - n
    {
      assert data[at..n + 1] == data[at..n] + [data[n]];
      n := n + 1;
    }
    name := data[at..n];
    if n < p {
      assert data[at..p][..n - at] == data[at..n];
      StrLenIs(data[at..p], n - at);
    }
  }

  lemma SliceOf(data: array<byte>, p: nat, body: seq<byte>, i: nat, j: nat)
    requires p + |body| <= data.Length && data[p..p + |body|] == body && i <= j <= |body|
    ensures data[p + i..p + j] == body[i..j]
  {
    forall k | i <= k < j ensures data[p + k] == body[k] {
      assert data[p + k] == data[p..p + |body|][k];
    }
  }

  /** Numbers are read from the bytes at the front only. */
  lemma FieldsFront(s: seq<byte>)
    requires s != []
    ensures |s| >= 3 ==> U16(s[1..]) == U16(s[1..][..2])
    ensures |s| >= 5 ==> I32(s[1..]) == I32(s[1..][..4])
  {
    if |s| >= 5 {
      assert s[1..][..4][2..] == s[3..5] && s[1..][2..][..2] == s[3..5];
    }
  }

  /** Reads one argument at index p. */
  method ReadArgAt(data: array<byte>, p: nat, ghost body: seq<byte>) returns (a: Arg, next: nat)
    requires p + |body| <= data.Length && data[p..p + |body|] == body && ReadArg(body).Ok?
    ensures a == ReadArg(body).value && next + |ReadArg(body).rest| == p + |body| && p <= next
    ensures data[next..p + |body|] == ReadArg(body).rest
  {
    hide I32, U16;
    FieldsFront(body);
    var ty := data[p];
    assert ty == body[0];
    next := p + 1;
    if ty == TNUMBER {
      SliceOf(data, p, body, 1, 5);
      assert body[1..5] == body[1..][..4];
      a := Number(I32(data[next..next + 4]));
      next := next + 4;
    } else if ty == TSTRING {
      SliceOf(data, p, body, 1, 3);
      assert body[1..3] == body[1..][..2];
      var len := U16(data[next..next + 2]);
      next := next + 2;
      SliceOf(data, p, body, 3, 3 + len);
      a := Text(data[next..next + len]);
      next := next + len;
    } else {
      a := Nil;
    }
    SliceOf(data, p, body, next - p, |body|);
  }

  /** The loop of dispatch_frame over the arguments. */
  method ReadArgsAt(data: array<byte>, p: nat, n: nat, ghost body: seq<byte>) returns (args: seq<Arg>)
    requires p + |body| <= data.Length && data[p..p + |body|] == body && ReadArgs(body, n).Ok?
    ensures args == ReadArgs(body, n).value
  {
    hide ReadArg;
    var q, i := p, 0;
    ghost var rest := body;
    args := [];
    while i < n
      invariant 0 <= i <= n && p <= q && q + |rest| == p + |body| && data[q..q + |rest|] == rest
      invariant ReadArgs(rest, n - i).Ok? && args + ReadArgs(rest, n - i).value == ReadArgs(body, n).value
    {
      ghost var done, a, tail := args, ReadArg(rest).value, ReadArg(rest).rest;
      assert done + ([a] + ReadArgs(tail, n - i - 1).value) == done + [a] + ReadArgs(tail, n - i - 1).value;
      var v;
      v, q := ReadArgAt(data, q, rest);
      rest := tail;
      args := args + [v];
      i := i + 1;
    }
  }

  /** The bytes from at to p as a C string: a NUL is patched in at p, and the byte put back. */
  method PatchedName(data: array<byte>, at: nat, p: nat) returns (name: seq<byte>)
    requires at <= p < data.Length
    modifies data
    ensures data[..] == old(data[..]) && name == CName(data[at..p])
  {
    ghost var was := data[..];
    var c := data[p];
    data[p] := 0;
    assert data[at..p] == was[at..p];
    name := ReadName(data, at, p);
    data[p] := c;
    assert data[..] == was && data[at..p] == was[at..p];
  }

  lemma Unchanged(data: array<byte>, at: nat, body: seq<byte>, was: seq<byte>)
    requires data[..] == was && at + |body| <= data.Length && was[at..at + |body|] == body
    ensures data[at..at + |body|] == body
  {
  }

  /** dispatch_frame: patches a NUL behind the name to look the function up, and puts the byte back. */
  method DispatchFrame(data: array<byte>, at: nat, ghost body: seq<byte>) returns (call: Call)
    requires at + |body| <= data.Length && data[at..at + |body|] == body && ReadBody(body).Ok?
    modifies data
    ensures data[..] == old(data[..])
    ensures call == CallOf(ReadBody(body).value)
  {
    hide ReadArgs, ReadBody, U16, CName;
    BodyShape(body);
    var actionLen := WordAt(data, at, body, 0);
    var action := at + 2;
    var p := action + actionLen;
    SliceOf(data, at, body, 2, 2 + actionLen);
    var name := PatchedName(data, action, p);
    Unchanged(data, at, body, old(data[..]));
    var argNum := WordAt(data, at, body, 2 + actionLen);
    ghost var rest := body[4 + actionLen..];
    SliceOf(data, at, body, 4 + actionLen, |body|);
    var args := ReadArgsAt(data, p + 2, argNum, rest);
    call := Call(name, args);
  }

  /** A 16-bit integer at offset i of a body. */
  method WordAt(data: array<byte>, at: nat, ghost body: seq<byte>, i: nat) returns (n: nat)
    requires at + |body| <= data.Length && data[at..at + |body|] == body && i + 2 <= |body|
    ensures n == U16(body[i..]) < 0x10000
  {
    SliceOf(data, at, body, i, i + 2);
    assert body[i..i + 2] == body[i..][..2];
    n := U16(data[at + i..at + i + 2]);
  }

  lemma BodyShape(body: seq<byte>)
    requires ReadBody(body).Ok?
    ensures |body| >= 2 && body[0..] == body
    ensures var k := 2 + U16(body);
      && k + 2 <= |body| && ReadArgs(body[k + 2..], U16(body[k..])).Ok?
      && ReadBody(body).value == Message(body[2..k], ReadArgs(body[k + 2..], U16(body[k..])).value)
  {
    hide ReadArgs, U16;
  }

  // ----- The receiving end of a connection -----

  class Peer {
    const recv: RecvBuf
    var open: bool
    var calls: seq<Call>

    ghost predicate Valid()
      reads this, recv
    {
      recv.Valid()
    }

    constructor (size: nat)
      ensures Valid() && fresh(recv) && fresh(recv.buf) && recv.buf.Length == size && recv.Contents() == [] && recv.rptr == 0
      ensures open && calls == []
    {
      recv := new RecvBuf(size);
      open, calls := true, [];
    }

    /** _decode_packet: dispatches the frame at the read pointer if it is complete, and returns its length. */
    method DecodePacket() returns (plen: nat)
      requires Valid() && Packets(recv.Contents()).Stream?
      modifies `calls, recv.buf
      ensures Valid() && recv.buf[..] == old(recv.buf[..]) && recv.Contents() == old(recv.Contents())
      ensures var s := recv.Contents();
        if Incomplete(s) then plen == 0 && calls == old(calls)
        else plen == U16(s) >= 2 && calls == old(calls) + [CallOf(ReadBody(s[2..plen]).value)]
    {
      hide ReadBody, Packets, CName;
      ghost var s := recv.Contents();
      var datalen := recv.wptr - recv.rptr;
      if datalen < 2 {
        return 0;
      }
      plen := U16(recv.buf[recv.rptr..recv.rptr + 2]);
      assert plen == U16(s);
      if datalen < plen {
        return 0;
      }
      FirstPacket(s);
      SliceOf(recv.buf, recv.rptr, s, 2, plen);
      var call := DispatchFrame(recv.buf, recv.rptr + 2, s[2..plen]);
      calls := calls + [call];
      assert recv.Contents() == recv.buf[..][recv.rptr..recv.wptr];
    }

    /** One round of the decoding loop: a complete frame is dispatched and skipped. */
    method DecodeNext() returns (packetLen: nat, ghost m: Message)
      requires Valid() && Packets(recv.Contents()).Stream?
      modifies `calls, recv, recv.buf
      ensures Valid()
      ensures packetLen == 0 ==> Incomplete(recv.Contents()) && recv.Contents() == old(recv.Contents()) && calls == old(calls)
      ensures packetLen > 0 ==>
        && Packets(old(recv.Contents())) == Prepend([m], Packets(recv.Contents())) && calls == old(calls) + [CallOf(m)]
        && |recv.Contents()| < |old(recv.Contents())|
    {
      hide ReadBody;
      ghost var s := recv.Contents();
      packetLen := DecodePacket();
      m := Message([], []);
      if packetLen > 0 {
        var skipped := recv.RSkip(packetLen);
        m := ReadBody(s[2..packetLen]).value;
      }
    }

    /** The decoding loop: dispatches every complete frame, and moves the incomplete one to the front. */
    method DecodeAll()
      requires Valid() && Packets(recv.Contents()).Stream?
      modifies `calls, recv, recv.buf
      ensures Valid() && recv.rptr == 0
      ensures var st := Packets(old(recv.Contents()));
        recv.Contents() == st.rest && calls == old(calls) + CallsOf(st.messages)
    {
      hide Packets;
      ghost var st := Packets(recv.Contents());
      ghost var done: seq<Message> := [];
      assert [] + st.messages == st.messages;
      var packetLen, more := 0, true;
      while more
        invariant Valid() && st == Prepend(done, Packets(recv.Contents())) && Packets(recv.Contents()).Stream?
        invariant calls == old(calls) + CallsOf(done)
        invariant !more ==> Incomplete(recv.Contents())
        decreases more, |recv.Contents()|
      {
        ghost var m;
        packetLen, m := DecodeNext();
        if packetLen == 0 {
          more := false;
        } else {
          PrependTwice(done, [m], Packets(recv.Contents()));
          assert (done + [m])[..|done|] == done;
          done := done + [m];
        }
      }
      NoPacket(recv.Contents());
      assert done + [] == done;
      recv.Buf2Line();
    }

    /**
     _ev_readable: reads what fits behind the data already there, and decodes. Reading nothing closes the
     connection, also when that is because the buffer has no room.
     */
    method OnReadable(pending: seq<byte>) returns (taken: nat)
      requires Valid() && open && Packets(recv.Contents() + pending).Stream?
      modifies this, recv, recv.buf
      ensures Valid()
      ensures taken == if |pending| <= old(recv.buf.Length - recv.wptr) then |pending| else old(recv.buf.Length - recv.wptr)
      ensures taken == 0 ==> !open && calls == old(calls) && recv.Contents() == old(recv.Contents()) && recv.rptr == old(recv.rptr)
      ensures taken > 0 ==>
        var st := Packets(old(recv.Contents()) + pending[..taken]);
        open && recv.rptr == 0 && st.Stream? && recv.Contents() == st.rest && calls == old(calls) + CallsOf(st.messages)
    {
      hide Packets;
      var buflen := recv.buf.Length - recv.wptr;
      taken := if |pending| <= buflen then |pending| else buflen;
      if taken == 0 {
        open := false;
        return;
      }
      PacketsExtend(recv.Contents() + pending[..taken], pending[taken..]);
      assert recv.Contents() + pending[..taken] + pending[taken..] == recv.Contents() + pending;
      recv.Receive(pending[..taken]);
      DecodeAll();
    }
  }

  // ----- Whole connections -----

  /** How many messages come before the first whose frame is longer than the buffer. */
  function Fitting(ms: seq<Message>, size: nat): (k: nat)
    ensures k <= |ms|
    ensures forall i :: 0 <= i < k ==> |Frame(ms[i])| <= size
    ensures k < |ms| ==> |Frame(ms[k])| > size
  {
    if ms == [] || |Frame(ms[0])| > size then 0 else 1 + Fitting(ms[1..], size)
  }

  lemma {:induction false} FrameInFrames(ms: seq<Message>, i: nat)
    requires i < |ms|
    ensures |Frame(ms[i])| <= |Frames(ms)|
  {
    if i > 0 {
      FrameInFrames(ms[1..], i - 1);
    }
  }

  lemma {:induction false} CallsAppend(a: seq<Message>, b: seq<Message>)
    ensures CallsOf(a + b) == CallsOf(a) + CallsOf(b)
    decreases |b|
  {
    if b == [] {
      assert a + b == a;
    } else {
      var n := |b| - 1;
      assert (a + b)[..|a + b| - 1] == a + b[..n];
      CallsAppend(a, b[..n]);
    }
  }

  /** After more bytes that fit the buffer, only messages that fit it have been decoded. */
  lemma Progress(ms: seq<Message>, size: nat, history: seq<byte>, x: seq<byte>)
    requires (forall i :: 0 <= i < |ms| ==> Sendable(ms[i])) && history + x <= Frames(ms)
    requires Packets(history).Stream? && |Packets(history).messages| <= Fitting(ms, size)
    requires |Packets(history).rest + x| <= size
    ensures var st, more := Packets(history), Packets(Packets(history).rest + x);
      && more.Stream? && Packets(history + x) == Stream(st.messages + more.messages, more.rest)
      && |st.messages + more.messages| <= Fitting(ms, size)
  {
    hide Packets, Frames, Frame, Sendable;
    assert history <= history + x;
    PrefixReads(ms, history);
    PrefixReads(ms, history + x);
    PacketsExtend(history, x);
    var st, more := Packets(history), Packets(Packets(history).rest + x);
    FramesAppend(st.messages, more.messages);
    AllFit(ms, size, st.messages, more.messages);
  }

  lemma {:induction false} FramesAppend(a: seq<Message>, b: seq<Message>)
    ensures Frames(a + b) == Frames(a) + Frames(b)
  {
    if a == [] {
      assert [] + b == b;
    } else {
      assert (a + b)[1..] == a[1..] + b;
      FramesAppend(a[1..], b);
      assert Frame(a[0]) + (Frames(a[1..]) + Frames(b)) == Frame(a[0]) + Frames(a[1..]) + Frames(b);
    }
  }

  lemma AllFit(ms: seq<Message>, size: nat, done: seq<Message>, more: seq<Message>)
    requires done + more <= ms && |done| <= Fitting(ms, size) && |Frames(more)| <= size
    ensures |done + more| <= Fitting(ms, size)
  {
    hide Frame, Frames;
    var k := Fitting(ms, size);
    if |done| <= k < |done + more| {
      assert (done + more)[k] == ms[k];
      FrameInFrames(more, k - |done|);
    }
  }

  /** A full buffer holds the beginning of a frame that is longer than it. */
  lemma Full(ms: seq<Message>, size: nat, history: seq<byte>, pending: seq<byte>)
    requires (forall i :: 0 <= i < |ms| ==> Sendable(ms[i])) && history + pending <= Frames(ms) && pending != []
    requires Packets(history).Stream? && |Packets(history).messages| <= Fitting(ms, size) && |Packets(history).rest| >= size
    ensures Fitting(ms, size) == |Packets(history).messages| < |ms|
  {
    hide Packets, Frames, Frame, Sendable;
    assert history <= history + pending;
    PrefixReads(ms, history);
    var st := Packets(history);
    if |st.messages| == |ms| {
      PrefixWhole(st.messages, ms);
    }
  }

  lemma PrefixWhole(a: seq<Message>, b: seq<Message>)
    requires a <= b && |a| == |b|
    ensures a == b
  {
  }

  /** What holds of the receiver after the bytes of history; it is closed when it is full and more bytes are there. */
  ghost predicate Reached(peer: Peer, size: nat, ms: seq<Message>, history: seq<byte>)
    reads peer, peer.recv, peer.recv.buf
  {
    && peer.Valid() && peer.recv.buf.Length == size && peer.recv.rptr == 0
    && var st := Packets(history);
      && st.Stream? && peer.recv.Contents() == st.rest && peer.calls == CallsOf(st.messages)
      && st.messages <= ms && |st.messages| <= Fitting(ms, size)
      && (!peer.open ==> |st.messages| == Fitting(ms, size) < |ms| && |st.rest| == size)
  }

  lemma NothingServed(peer: Peer, size: nat, ms: seq<Message>)
    requires peer.Valid() && peer.recv.buf.Length == size && peer.recv.rptr == 0 && peer.recv.Contents() == []
    requires peer.open && peer.calls == []
    ensures Reached(peer, size, ms, [])
  {
  }

  /** One readable event. */
  method ServeOnce(peer: Peer, size: nat, ghost ms: seq<Message>, ghost history: seq<byte>, pending: seq<byte>)
    returns (taken: nat)
    requires (forall i :: 0 <= i < |ms| ==> Sendable(ms[i])) && history + pending <= Frames(ms) && pending != []
    requires Reached(peer, size, ms, history) && peer.open
    modifies peer, peer.recv, peer.recv.buf
    ensures taken <= |pending| && peer.Valid() && Reached(peer, size, ms, history + pending[..taken])
    ensures peer.open ==> taken > 0
    ensures !peer.open ==> taken == 0
  {
    hide Packets, Frames, Frame, Sendable;
    ghost var st := Packets(history);
    PrefixReads(ms, history + pending);
    PacketsExtend(history, pending);
    taken := peer.OnReadable(pending);
    if taken == 0 {
      Full(ms, size, history, pending);
      assert history + pending[..taken] == history;
    } else {
      assert history + pending[..taken] <= history + pending;
      PrefixReads(ms, history + pending[..taken]);
      Progress(ms, size, history, pending[..taken]);
      CallsAppend(st.messages, Packets(st.rest + pending[..taken]).messages);
    }
  }

  method ServeChunk(peer: Peer, size: nat, ghost ms: seq<Message>, ghost history0: seq<byte>, chunk: seq<byte>, ghost rest: seq<byte>)
    returns (ghost history: seq<byte>)
    requires (forall i :: 0 <= i < |ms| ==> Sendable(ms[i])) && history0 + chunk + rest <= Frames(ms)
    requires peer.Valid() && Reached(peer, size, ms, history0) && peer.open
    modifies peer, peer.recv, peer.recv.buf
    ensures peer.Valid() && Reached(peer, size, ms, history)
    ensures if peer.open then history == history0 + chunk else history < history0 + chunk
  {
    hide Packets, Frames, Frame, Sendable, Reached;
    history := history0;
    var pending := chunk;
    while pending != [] && peer.open
      invariant peer.Valid() && Reached(peer, size, ms, history) && history + pending == history0 + chunk
      invariant peer.open || pending != []
      decreases |pending|, peer.open
    {
      assert history + pending <= history0 + chunk + rest;
      var taken := ServeOnce(peer, size, ms, history, pending);
      assert history + pending == history + pending[..taken] + pending[taken..];
      history := history + pending[..taken];
      pending := pending[taken..];
    }
  }

  /**
   Whether so many bytes of the frames of some messages are too many for a buffer: there is a frame longer than
   it, and of that frame more bytes have come than it holds.
   */
  predicate Overflows(ms: seq<Message>, size: nat, bytes: nat) {
    var k := Fitting(ms, size);
    k < |ms| && bytes > |Frames(ms[..k])| + size
  }

  /**
   A connection up to any moment: the frames of some messages, the last one perhaps in part, have come cut into any
   chunks. The calls made are those of the messages that have come whole, in order, up to the first whose frame is
   longer than the buffer; and the connection is open still unless more of that frame has come than the buffer holds.
   */
  method Serve(size: nat, ghost ms: seq<Message>, chunks: seq<seq<byte>>) returns (peer: Peer)
    requires (forall i :: 0 <= i < |ms| ==> Sendable(ms[i])) && Flatten(chunks) <= Frames(ms)
    ensures Packets(Flatten(chunks)).Stream?
    ensures var whole := |Packets(Flatten(chunks)).messages|;
      whole <= |ms| && peer.calls == CallsOf(ms[..if whole <= Fitting(ms, size) then whole else Fitting(ms, size)])
    ensures peer.open <==> !Overflows(ms, size, |Flatten(chunks)|)
    ensures Flatten(chunks) == Frames(ms) ==>
      && peer.calls == CallsOf(ms[..Fitting(ms, size)])
      && (peer.open <==> forall i :: 0 <= i < |ms| ==> |Frame(ms[i])| <= size)
  {
    hide Packets, Frames, Frame, Sendable, Reached, Overflows, Fitting;
    peer := new Peer(size);
    ghost var history: seq<byte> := [];
    ghost var all := Flatten(chunks);
    var i := 0;
    assert chunks[0..] == chunks && [] + Flatten(chunks) == all;
    NothingServed(peer, size, ms);
    while i < |chunks| && peer.open
      invariant 0 <= i <= |chunks| && peer.Valid() && fresh(peer) && fresh(peer.recv) && fresh(peer.recv.buf)
      invariant Reached(peer, size, ms, history)
      invariant if peer.open then history + Flatten(chunks[i..]) == all else history < all
    {
      ghost var rest := Flatten(chunks[i + 1..]);
      assert chunks[i..][0] == chunks[i] && chunks[i..][1..] == chunks[i + 1..];
      assert history + (chunks[i] + rest) == history + chunks[i] + rest;
      history := ServeChunk(peer, size, ms, history, chunks[i], rest);
      i := i + 1;
    }
    if peer.open {
      assert history + [] == history;
    }
    Served(peer, size, ms, history, all);
    WholeStream(size, ms);
  }

  lemma Served(peer: Peer, size: nat, ms: seq<Message>, history: seq<byte>, all: seq<byte>)
    requires (forall i :: 0 <= i < |ms| ==> Sendable(ms[i])) && Reached(peer, size, ms, history) && all <= Frames(ms)
    requires if peer.open then history == all else history < all
    ensures Packets(all).Stream?
    ensures var whole := |Packets(all).messages|;
      whole <= |ms| && peer.calls == CallsOf(ms[..if whole <= Fitting(ms, size) then whole else Fitting(ms, size)])
    ensures peer.open <==> !Overflows(ms, size, |all|)
  {
    hide Packets, Frames, Frame, Sendable;
    PrefixReads(ms, all);
    PrefixReads(ms, history);
    var st, k := Packets(history), Fitting(ms, size);
    assert st.messages == ms[..|st.messages|];
    if peer.open {
      StillOpen(ms, size, all);
    } else {
      assert all == history + all[|history|..];
      PacketsExtend(history, all[|history|..]);
    }
  }

  /** As long as no more messages have come whole than fit, what has come of the next one fits, unless it is too many bytes. */
  lemma StillOpen(ms: seq<Message>, size: nat, all: seq<byte>)
    requires (forall i :: 0 <= i < |ms| ==> Sendable(ms[i])) && all <= Frames(ms)
    requires Packets(all).Stream? && |Packets(all).messages| <= Fitting(ms, size) && |Packets(all).rest| <= size
    ensures !Overflows(ms, size, |all|)
  {
    hide Packets, Frame, Frames, Sendable;
    PrefixReads(ms, all);
    var st, k := Packets(all), Fitting(ms, size);
    if |st.messages| < k {
      FramesAppend(st.messages, ms[|st.messages|..k]);
      assert st.messages + ms[|st.messages|..k] == ms[..k];
      FrameInFrames(ms[|st.messages|..k], 0);
    } else {
      assert st.messages == ms[..k];
    }
  }

  /** A whole stream: every message is called and the connection stays open exactly when every frame fits the buffer. */
  lemma WholeStream(size: nat, ms: seq<Message>)
    requires forall i :: 0 <= i < |ms| ==> Sendable(ms[i])
    ensures Packets(Frames(ms)) == Stream(ms, [])
    ensures Overflows(ms, size, |Frames(ms)|) <==> exists i :: 0 <= i < |ms| && |Frame(ms[i])| > size
  {
    hide Packets, Frame, Frames, Sendable;
    RoundTrip(ms);
    var k := Fitting(ms, size);
    if k < |ms| {
      FramesAppend(ms[..k], ms[k..]);
      assert ms[..k] + ms[k..] == ms;
      FrameInFrames(ms[k..], 0);
    }
  }
}
