/**
 The frames the game server and the database server exchange: a 16-bit length that counts itself, an action
 name, and typed arguments, all little-endian.
 */
module RpcSpec {
  import opened Bytes

  // Lua's type codes.
  const TNIL: byte := 0
  const TNUMBER: byte := 3
  const TSTRING: byte := 4

  datatype Arg = Number(v: int) | Text(bytes: seq<byte>) | Nil

  datatype Message = Message(action: seq<byte>, args: seq<Arg>)

  /** Undefined: the C code reads beyond the frame, or meets a type it does not push. */
  datatype Parsed<+T> = Ok(value: T, rest: seq<byte>) | Undefined

  // ----- Integers -----

  function Le16(n: nat): (s: seq<byte>)
    ensures |s| == 2
  {
    [n % 256, n / 256 % 256]
  }

  function U16(s: seq<byte>): (n: nat)
    requires |s| >= 2
    ensures n < 0x10000
  {
    var low: int, high: int := s[0], s[1];
    low + 256 * high
  }

  /** Two's complement. */
  function Le32(v: int): (s: seq<byte>)
    ensures |s| == 4
  {
    Le16(v % 0x1_0000_0000 % 0x10000) + Le16(v % 0x1_0000_0000 / 0x10000)
  }

  function I32(s: seq<byte>): (v: int)
    requires |s| >= 4
    ensures -0x8000_0000 <= v < 0x8000_0000
  {
    var u := U16(s) + 0x10000 * U16(s[2..]);
    if u >= 0x8000_0000 then u - 0x1_0000_0000 else u
  }

  lemma U16Reads(n: nat, t: seq<byte>)
    requires n < 0x10000
    ensures U16(Le16(n) + t) == n
  {
  }

  lemma I32Reads(v: int, t: seq<byte>)
    requires -0x8000_0000 <= v < 0x8000_0000
    ensures I32(Le32(v) + t) == v
  {
    var u := v % 0x1_0000_0000;
    var s := Le32(v) + t;
    assert u == v || u == v + 0x1_0000_0000;
    assert s == Le16(u % 0x10000) + (Le16(u / 0x10000) + t) && s[2..] == Le16(u / 0x10000) + t;
    U16Reads(u % 0x10000, Le16(u / 0x10000) + t);
    U16Reads(u / 0x10000, t);
  }

  // ----- Writing -----

  function ArgBytes(a: Arg): seq<byte> {
    match a
    case Number(v) => [TNUMBER] + Le32(v)
    case Text(bytes) => [TSTRING] + Le16(|bytes|) + bytes
    case Nil => [TNIL]
  }

  function ArgsBytes(args: seq<Arg>): seq<byte> {
    if args == [] then [] else ArgBytes(args[0]) + ArgsBytes(args[1..])
  }

  function Body(m: Message): seq<byte> {
    Le16(|m.action|) + m.action + Le16(|m.args|) + ArgsBytes(m.args)
  }

  function Frame(m: Message): seq<byte> {
    Le16(|Body(m)| + 2) + Body(m)
  }

  // ----- Where the bytes are -----

  /** One argument: its type code, and an integer low byte first, or a length low byte first and the bytes. */
  lemma ArgLayout(a: Arg)
    ensures var b: seq<int> := ArgBytes(a);
      match a
      case Number(v) =>
        |b| == 5 && b[0] == 3
        && (-0x8000_0000 <= v < 0x8000_0000 ==>
              b[1] + 0x100 * b[2] + 0x1_0000 * b[3] + 0x100_0000 * b[4] == if v >= 0 then v else v + 0x1_0000_0000)
      case Text(bytes) => |b| == 3 + |bytes| && b[0] == 4 && b[3..] == bytes && (|bytes| < 0x1_0000 ==> b[1] + 0x100 * b[2] == |bytes|)
      case Nil => b == [0]
  {
    if a.Number? {
      NumberLayout(a.v);
    }
  }

  lemma NumberLayout(v: int)
    ensures var b: seq<int> := Le32(v);
      |b| == 4 && b[0] + 0x100 * b[1] + 0x1_0000 * b[2] + 0x100_0000 * b[3] == v % 0x1_0000_0000
  {
    var u := v % 0x1_0000_0000;
    var low, high := u % 0x10000, u / 0x10000;
    assert low == low % 256 + 256 * (low / 256) && high == high % 256 + 256 * (high / 256);
    assert u == low + 0x10000 * high;
  }

  /** A frame: its whole length, the action's length, the action, the number of arguments, and the arguments one by one. */
  lemma FrameLayout(m: Message)
    ensures var f: seq<int>, n := Frame(m), |m.action|;
      && |f| >= 6 + n
      && (|f| < 0x1_0000 ==> f[0] + 0x100 * f[1] == |f|)
      && (n < 0x1_0000 ==> f[2] + 0x100 * f[3] == n)
      && f[4..4 + n] == m.action
      && (|m.args| < 0x1_0000 ==> f[4 + n] + 0x100 * f[5 + n] == |m.args|)
      && f[6 + n..] == Flatten(EachArg(m.args))
  {
    hide ArgBytes, ArgsBytes, Le16;
    ArgsLayout(m.args);
    Le16Is(|Body(m)| + 2);
    Le16Is(|m.action|);
    Le16Is(|m.args|);
    FieldsAt(Le16(|Body(m)| + 2), Le16(|m.action|), m.action, Le16(|m.args|), ArgsBytes(m.args));
  }

  lemma Le16Is(n: nat)
    ensures var b: seq<int> := Le16(n); n < 0x1_0000 ==> b[0] + 0x100 * b[1] == n
  {
  }

  lemma FieldsAt(a: seq<byte>, b: seq<byte>, c: seq<byte>, d: seq<byte>, e: seq<byte>)
    requires |a| == |b| == |d| == 2
    ensures var f, n := a + (b + c + d + e), |c|;
      && f[0] == a[0] && f[1] == a[1] && f[2] == b[0] && f[3] == b[1] && f[4 + n] == d[0] && f[5 + n] == d[1]
      && f[4..4 + n] == c && f[6 + n..] == e
  {
  }

  function EachArg(args: seq<Arg>): seq<seq<byte>> {
    seq(|args|, i requires 0 <= i < |args| => ArgBytes(args[i]))
  }

  lemma {:induction false} ArgsLayout(args: seq<Arg>)
    ensures ArgsBytes(args) == Flatten(EachArg(args))
  {
    hide ArgBytes;
    if args != [] {
      ArgsLayout(args[1..]);
      assert EachArg(args)[1..] == EachArg(args[1..]);
    }
  }

  function Frames(ms: seq<Message>): seq<byte> {
    if ms == [] then [] else Frame(ms[0]) + Frames(ms[1..])
  }

  // ----- Reading -----

  function ReadArg(s: seq<byte>): Parsed<Arg> {
    if s == [] then Undefined
    else if s[0] == TNUMBER then if |s| < 5 then Undefined else Ok(Number(I32(s[1..])), s[5..])
    else if s[0] == TSTRING then
      if |s| < 3 || |s| - 3 < U16(s[1..]) then Undefined
      else Ok(Text(s[3..3 + U16(s[1..])]), s[3 + U16(s[1..])..])
    else if s[0] == TNIL then Ok(Nil, s[1..])
    else Undefined
  }

  function ReadArgs(s: seq<byte>, n: nat): Parsed<seq<Arg>>
    decreases n
  {
    if n == 0 then Ok([], s)
    else
      match ReadArg(s)
      case Undefined => Undefined
      case Ok(a, rest) =>
        match ReadArgs(rest, n - 1)
        case Undefined => Undefined
        case Ok(args, rest') => Ok([a] + args, rest')
  }

  function ReadBody(s: seq<byte>): Parsed<Message> {
    if |s| < 2 || |s| - 4 < U16(s) then Undefined
    else
      var k := 2 + U16(s);
      match ReadArgs(s[k + 2..], U16(s[k..]))
      case Undefined => Undefined
      case Ok(args, rest) => Ok(Message(s[2..k], args), rest)
  }

  /** The messages of the complete frames at the front of a buffer, and the bytes of the frame that is still incomplete. */
  datatype Stream = Stream(messages: seq<Message>, rest: seq<byte>) | Broken

  function Prepend(ms: seq<Message>, st: Stream): Stream {
    match st
    case Stream(messages, rest) => Stream(ms + messages, rest)
    case Broken => Broken
  }

  predicate Incomplete(s: seq<byte>) {
    |s| < 2 || |s| < U16(s)
  }

  function Packets(s: seq<byte>): Stream
    decreases |s|
  {
    if Incomplete(s) then Stream([], s)
    else
      var plen := U16(s);
      if plen < 2 || ReadBody(s[2..plen]) == Undefined then Broken
      else Prepend([ReadBody(s[2..plen]).value], Packets(s[plen..]))
  }

  // ----- Reading back what was written -----

  /** A message post can send: a frame of at most 65535 bytes, numbers of 32 bits. */
  ghost predicate Sendable(m: Message) {
    |Frame(m)| < 0x10000 && forall i :: 0 <= i < |m.args| ==> Fits(m.args[i])
  }

  predicate Fits(a: Arg) {
    a.Number? ==> -0x8000_0000 <= a.v < 0x8000_0000
  }

  lemma NumberReads(v: int, t: seq<byte>)
    requires -0x8000_0000 <= v < 0x8000_0000
    ensures ReadArg(ArgBytes(Number(v)) + t) == Ok(Number(v), t)
  {
    hide Le32, I32;
    var s := ArgBytes(Number(v)) + t;
    assert s[1..] == Le32(v) + t && s[5..] == t;
    I32Reads(v, t);
  }

  lemma TextReads(bytes: seq<byte>, t: seq<byte>)
    requires |bytes| < 0x10000
    ensures ReadArg(ArgBytes(Text(bytes)) + t) == Ok(Text(bytes), t)
  {
    hide Le16, U16, I32;
    var s := ArgBytes(Text(bytes)) + t;
    assert s[1..] == Le16(|bytes|) + (bytes + t) && s[3..] == bytes + t;
    U16Reads(|bytes|, bytes + t);
    assert s[3..3 + |bytes|] == bytes && s[3 + |bytes|..] == t;
  }

  lemma ArgReads(a: Arg, t: seq<byte>)
    requires Fits(a) && |ArgBytes(a)| < 0x10000
    ensures ReadArg(ArgBytes(a) + t) == Ok(a, t)
  {
    if a.Number? {
      NumberReads(a.v, t);
    } else if a.Text? {
      TextReads(a.bytes, t);
    } else {
      assert ([TNIL] + t)[1..] == t;
    }
  }

  lemma {:induction false} ArgsRead(args: seq<Arg>, t: seq<byte>)
    requires |ArgsBytes(args)| < 0x10000 && forall i :: 0 <= i < |args| ==> Fits(args[i])
    ensures ReadArgs(ArgsBytes(args) + t, |args|) == Ok(args, t)
  {
    hide ReadArg, ArgBytes, Fits;
    if args == [] {
      assert [] + t == t;
    } else {
      var rest := ArgsBytes(args[1..]);
      assert ArgsBytes(args) + t == ArgBytes(args[0]) + (rest + t);
      ArgReads(args[0], rest + t);
      ArgsRead(args[1..], t);
      assert [args[0]] + args[1..] == args;
    }
  }

  lemma {:induction false} CountFits(args: seq<Arg>)
    ensures |args| <= |ArgsBytes(args)|
  {
    if args != [] {
      CountFits(args[1..]);
    }
  }

  lemma BodyReads(m: Message)
    requires Sendable(m)
    ensures ReadBody(Body(m)) == Ok(m, [])
  {
    hide ArgsBytes, ReadArgs, Le16, U16, Fits;
    var s, k := Body(m), 2 + |m.action|;
    var tail := Le16(|m.args|) + ArgsBytes(m.args);
    CountFits(m.args);
    assert s == Le16(|m.action|) + (m.action + tail);
    U16Reads(|m.action|, m.action + tail);
    assert s[2..k] == m.action && s[k..] == tail && s[k + 2..] == ArgsBytes(m.args) + [];
    U16Reads(|m.args|, ArgsBytes(m.args));
    ArgsRead(m.args, []);
  }

  /** One frame at the front is one message. */
  lemma FrameReads(m: Message, t: seq<byte>)
    requires Sendable(m)
    ensures Packets(Frame(m) + t) == Prepend([m], Packets(t))
  {
    hide ArgsBytes, Body, ReadBody, Le16, U16;
    var s := Frame(m) + t;
    assert s == Le16(|Body(m)| + 2) + (Body(m) + t);
    U16Reads(|Body(m)| + 2, Body(m) + t);
    assert s[2..|Body(m)| + 2] == Body(m) && s[|Body(m)| + 2..] == t;
    BodyReads(m);
  }

  /** Frames one after the other decode to the messages they were made of, with nothing left over. */
  lemma {:induction false} RoundTrip(ms: seq<Message>)
    requires forall i :: 0 <= i < |ms| ==> Sendable(ms[i])
    ensures Packets(Frames(ms)) == Stream(ms, [])
  {
    if ms != [] {
      FrameReads(ms[0], Frames(ms[1..]));
      RoundTrip(ms[1..]);
      assert [ms[0]] + ms[1..] == ms;
    }
  }

  // ----- Any chunking -----

  lemma PrependTwice(a: seq<Message>, b: seq<Message>, st: Stream)
    ensures Prepend(a, Prepend(b, st)) == Prepend(a + b, st)
  {
    if st.Stream? {
      assert a + (b + st.messages) == a + b + st.messages;
    }
  }

  lemma NoPacket(s: seq<byte>)
    requires Incomplete(s)
    ensures Packets(s) == Stream([], s)
  {
  }

  /** A complete frame at the front. */
  lemma FirstPacket(s: seq<byte>)
    requires !Incomplete(s)
    ensures Packets(s) ==
      if U16(s) < 2 || ReadBody(s[2..U16(s)]) == Undefined then Broken
      else Prepend([ReadBody(s[2..U16(s)]).value], Packets(s[U16(s)..]))
  {
    hide ReadBody, U16;
  }

  /** Bytes behind a complete frame do not change it. */
  lemma FrameExtends(a: seq<byte>, b: seq<byte>)
    requires !Incomplete(a)
    ensures var n := U16(a);
      && !Incomplete(a + b) && U16(a + b) == n && (a + b)[n..] == a[n..] + b
      && (n >= 2 ==> (a + b)[2..n] == a[2..n])
  {
  }

  /** Bytes that come later only matter to the frame that was incomplete. */
  lemma {:induction false} PacketsExtend(a: seq<byte>, b: seq<byte>)
    ensures Packets(a + b) == if Packets(a).Broken? then Broken else Prepend(Packets(a).messages, Packets(Packets(a).rest + b))
    decreases |a|
  {
    hide ReadBody, U16, Packets;
    if Incomplete(a) {
      NoPacket(a);
      var st := Packets(a + b);
      assert st.Stream? ==> [] + st.messages == st.messages;
    } else {
      FirstPacket(a);
      FrameExtends(a, b);
      FirstPacket(a + b);
      var plen := U16(a);
      if plen >= 2 && ReadBody(a[2..plen]) != Undefined {
        PacketsExtend(a[plen..], b);
        var p := Packets(a[plen..]);
        if p.Stream? {
          PrependTwice([ReadBody(a[2..plen]).value], p.messages, Packets(p.rest + b));
        }
      }
    }
  }

  /** A frame reads back exactly when its length fits the 16 bits it is written in. */
  lemma ReadsBack(m: Message)
    requires forall i :: 0 <= i < |m.args| ==> Fits(m.args[i])
    ensures Packets(Frame(m)) == Stream([m], []) <==> |Frame(m)| < 0x10000
  {
    hide ArgsBytes, Body, ReadBody, Le16, U16;
    var s := Frame(m);
    if |s| < 0x10000 {
      FrameReads(m, []);
      assert s + [] == s;
    } else if !Incomplete(s) && Packets(s).Stream? {
      var st := Packets(s[U16(s)..]);
      assert st.messages == [] ==> st.rest == s[U16(s)..];
    }
  }

  lemma FramesFirst(ms: seq<Message>)
    requires ms != []
    ensures Frames(ms) == Frame(ms[0]) + Frames(ms[1..]) && Frames([]) == []
  {
    hide Frame;
  }

  /** A prefix of some frames yields the first messages, and the beginning of the next frame. */
  lemma {:induction false} PrefixReads(ms: seq<Message>, s: seq<byte>)
    requires (forall i :: 0 <= i < |ms| ==> Sendable(ms[i])) && s <= Frames(ms)
    ensures var st := Packets(s);
      && st.Stream? && st.messages <= ms && s == Frames(st.messages) + st.rest
      && (if |st.messages| < |ms| then |st.rest| < |Frame(ms[|st.messages|])| else st.rest == [])
    decreases |ms|
  {
    hide Frame, Packets, Incomplete;
    if ms == [] {
      NoBytes();
      assert [] + s == s;
    } else {
      hide Frames;
      FramesFirst(ms);
      var f := Frame(ms[0]);
      if |s| < |f| {
        assert s == f[..|s|];
        PartOfFrame(ms[0], |s|);
        NoPacket(s);
        assert [] + s == s;
      } else {
        PrefixNext(ms, s, s[|f|..]);
      }
    }
  }

  lemma NoBytes()
    ensures Packets([]) == Stream([], [])
  {
  }

  /** The first frame is complete. */
  lemma {:induction false} PrefixNext(ms: seq<Message>, s: seq<byte>, t: seq<byte>)
    requires (forall i :: 0 <= i < |ms| ==> Sendable(ms[i])) && s <= Frames(ms)
    requires ms != [] && |s| >= |Frame(ms[0])| && t == s[|Frame(ms[0])|..]
    ensures var st := Packets(s);
      && st.Stream? && st.messages <= ms && s == Frames(st.messages) + st.rest
      && (if |st.messages| < |ms| then |st.rest| < |Frame(ms[|st.messages|])| else st.rest == [])
    decreases |ms|, 0
  {
    hide Frame, Frames, Packets, Sendable;
    FramesFirst(ms);
    var f := Frame(ms[0]);
    assert s == f + t && t <= Frames(ms[1..]);
    FrameReads(ms[0], t);
    PrefixReads(ms[1..], t);
    var rest := Packets(t).messages;
    var all := [ms[0]] + rest;
    FramesFirst(all);
    assert all[1..] == rest;
    assert f + (Frames(rest) + Packets(t).rest) == f + Frames(rest) + Packets(t).rest;
    assert |all| < |ms| ==> ms[|all|] == ms[1..][|rest|];
  }

  lemma PartOfFrame(m: Message, n: nat)
    requires Sendable(m) && n < |Frame(m)|
    ensures Incomplete(Frame(m)[..n])
  {
    if n >= 2 {
      U16Reads(|Body(m)| + 2, Body(m));
      assert Frame(m)[..n][..2] == Frame(m)[..2];
    }
  }
}
