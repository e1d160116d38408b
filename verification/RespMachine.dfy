/**
 The reader's explicit task stack as a value, one processItem call as a step, and the proof
 that stepping never changes what the recursive parser would make of the stream.
 */
module RespMachine {
  import opened Bytes
  import opened RespSpec

  /** An array being filled: the items it has and the number it needs. */
  datatype Frame = Frame(items: seq<Reply>, count: nat)

  /** Unread bytes, arrays being filled (outermost first), and the type read for the current item, or -1. */
  datatype Machine = Machine(unread: seq<byte>, frames: seq<Frame>, ty: int)

  /** What one step does. Stuck keeps a type byte it has read. */
  datatype Result =
    | Stuck(m: Machine)
    | Next(m: Machine)
    | Emit(reply: Reply, unread: seq<byte>)
    | Failed(error: ProtocolError)

  ghost predicate FramesOk(frames: seq<Frame>) {
    |frames| <= MAX_DEPTH && forall i :: 0 <= i < |frames| ==> |frames[i].items| < frames[i].count
  }

  ghost predicate Ok(m: Machine) {
    && FramesOk(m.frames)
    && m.ty in {-1, STRING, ARRAY, INTEGER, STATUS, ERROR}
    && (m.ty == ARRAY ==> |m.frames| < MAX_DEPTH)
  }

  /** A finished item goes into the innermost array, and arrays it fills are finished in turn. */
  function Complete(frames: seq<Frame>, r: Reply, rest: seq<byte>): (res: Result)
    ensures if res.Emit? then res.unread == rest else res.Next? && res.m.unread == rest && res.m.ty == -1
    decreases |frames|
  {
    if frames == [] then Emit(r, rest)
    else
      var outer, f := frames[..|frames| - 1], frames[|frames| - 1];
      if |f.items| + 1 == f.count then Complete(outer, Array(f.items + [r]), rest)
      else Next(Machine(rest, outer + [Frame(f.items + [r], f.count)], -1))
  }

  function StepTyped(m: Machine): Result
    requires m.ty in {STRING, ARRAY, INTEGER, STATUS, ERROR}
  {
    if m.ty == ARRAY && |m.frames| == MAX_DEPTH then Failed(TooDeep)
    else
      var k := Crlf(m.unread);
      if k == -1 then Stuck(m)
      else
        var line, rest := m.unread[..k], m.unread[k + 2..];
        var n := LineNumber(line);
        if m.ty == STRING then
          if n < 0 then Complete(m.frames, Nil, rest)
          else if n + 2 <= |rest| then Complete(m.frames, Str(rest[..n]), rest[n + 2..])
          else Stuck(m)
        else if m.ty == ARRAY then
          if n == -1 then Complete(m.frames, Nil, rest)
          else if n < 0 then Complete(m.frames, NegArray(n), rest)
          else if n == 0 then Complete(m.frames, Array([]), rest)
          else Next(Machine(rest, m.frames + [Frame([], n)], -1))
        else Complete(m.frames, LineReply(m.ty, line), rest)
  }

  function Step(m: Machine): Result
    requires m.ty in {-1, STRING, ARRAY, INTEGER, STATUS, ERROR}
  {
    if m.ty >= 0 then StepTyped(m)
    else if m.unread == [] then Stuck(m)
    else if TypeOf(m.unread[0]) < 0 then Failed(BadType(m.unread[0]))
    else StepTyped(Machine(m.unread[1..], m.frames, TypeOf(m.unread[0])))
  }

  lemma StepLine(m: Machine)
    requires m.ty in {INTEGER, STATUS, ERROR}
    ensures var k := Crlf(m.unread);
      StepTyped(m) == if k == -1 then Stuck(m) else Complete(m.frames, LineReply(m.ty, m.unread[..k]), m.unread[k + 2..])
  {
  }

  lemma StepBulk(m: Machine)
    requires m.ty == STRING
    ensures var k := Crlf(m.unread);
      if k == -1 then StepTyped(m) == Stuck(m)
      else
        var n, rest := LineNumber(m.unread[..k]), m.unread[k + 2..];
        StepTyped(m) == if n < 0 then Complete(m.frames, Nil, rest)
          else if n + 2 <= |rest| then Complete(m.frames, Str(rest[..n]), rest[n + 2..])
          else Stuck(m)
  {
  }

  lemma StepArray(m: Machine)
    requires m.ty == ARRAY
    ensures var k := Crlf(m.unread);
      if |m.frames| == MAX_DEPTH then StepTyped(m) == Failed(TooDeep)
      else if k == -1 then StepTyped(m) == Stuck(m)
      else
        var n, rest := LineNumber(m.unread[..k]), m.unread[k + 2..];
        StepTyped(m) == if n > 0 then Next(Machine(rest, m.frames + [Frame([], n)], -1))
          else Complete(m.frames, if n == -1 then Nil else if n == 0 then Array([]) else NegArray(n), rest)
  {
  }

  // ----- What a machine state stands for -----

  /** The recursive parser's view of the item being read, once the bytes t have arrived too. */
  function Current(m: Machine, t: seq<byte>): Outcome<Reply>
    requires Ok(m)
  {
    if m.ty < 0 then ParseItem(m.unread + t, |m.frames|)
    else ParseTyped(m.ty, m.unread + t, |m.frames|)
  }

  /** Finishing the enclosing arrays around the outcome of the item being read. */
  function Plug(frames: seq<Frame>, o: Outcome<Reply>): Outcome<Reply>
    requires FramesOk(frames)
    decreases |frames|
  {
    if frames == [] || !o.Done? then o
    else
      var outer, f := frames[..|frames| - 1], frames[|frames| - 1];
      var items := f.items + [o.value];
      Plug(outer, Gather(items, ParseItems(o.rest, f.count - |items|, |frames|)))
  }

  /** The outcome of the whole reply in progress. */
  function Resume(m: Machine, t: seq<byte>): Outcome<Reply>
    requires Ok(m)
  {
    Plug(m.frames, Current(m, t))
  }

  /** The rest of the stream after an outcome. */
  function StreamOf(o: Outcome<Reply>): Stream {
    match o
    case More => Stream([], None)
    case Fail(e) => Stream([], Some(e))
    case Done(r, rest) => Prepend([r], ParseStream(rest))
  }

  ghost predicate ResultOk(res: Result) {
    match res
    case Stuck(m) => Ok(m)
    case Next(m) => Ok(m)
    case Emit(_, _) => true
    case Failed(_) => true
  }

  /** Unread bytes left by a step. */
  function Left(res: Result): nat {
    match res
    case Stuck(m) => |m.unread|
    case Next(m) => |m.unread|
    case Emit(_, rest) => |rest|
    case Failed(_) => 0
  }

  /** The outcome of the reply in progress, as a step leaves it. */
  function Continue(res: Result, t: seq<byte>): Outcome<Reply>
    requires ResultOk(res)
  {
    match res
    case Stuck(m) => Resume(m, t)
    case Next(m) => Resume(m, t)
    case Emit(r, rest) => Done(r, rest + t)
    case Failed(e) => Fail(e)
  }

  /** After history, with emitted already handed out, state m is right about every possible future. */
  ghost predicate Tracks(history: seq<byte>, emitted: seq<Reply>, m: Machine) {
    && Ok(m)
    && forall t :: ParseStream(history + t) == Prepend(emitted, StreamOf(Resume(m, t)))
  }

  /** After history, with emitted already handed out, the stream has failed for good. */
  ghost predicate HasFailed(history: seq<byte>, emitted: seq<Reply>, e: ProtocolError) {
    forall t :: ParseStream(history + t) == Stream(emitted, Some(e))
  }

  // ----- Bytes that arrive later do not change what has been decided -----

  lemma {:induction false} CrlfExtends(s: seq<byte>, t: seq<byte>)
    requires Crlf(s) != -1
    ensures Crlf(s + t) == Crlf(s)
    ensures (s + t)[..Crlf(s)] == s[..Crlf(s)]
    ensures (s + t)[Crlf(s) + 2..] == s[Crlf(s) + 2..] + t
  {
    var k := Crlf(s);
    assert CrlfAt(s + t, k);
    assert forall i :: 0 <= i < k ==> CrlfAt(s + t, i) == CrlfAt(s, i);
  }

  /** Items to come, after those an array has: the next one, then the others. */
  lemma GatherNext(items: seq<Reply>, s: seq<byte>, n: nat, depth: nat)
    requires n > 0 && depth <= MAX_DEPTH
    ensures var o := ParseItem(s, depth);
      Gather(items, ParseItems(s, n, depth)) == match o
        case Done(r, rest) => Gather(items + [r], ParseItems(rest, n - 1, depth))
        case More => More
        case Fail(e) => Fail(e)
  {
    hide ParseItem, ParseTyped;
    var o := ParseItem(s, depth);
    if o.Done? {
      var tail := ParseItems(o.rest, n - 1, depth);
      if tail.Done? {
        assert items + [o.value] + tail.value == items + ([o.value] + tail.value);
      }
    }
  }

  /** An array with room left carries on with its next item. */
  lemma {:induction false} PlugFrame(outer: seq<Frame>, f: Frame, s: seq<byte>)
    requires FramesOk(outer) && |outer| < MAX_DEPTH && |f.items| < f.count
    ensures FramesOk(outer + [f])
    ensures Plug(outer + [f], ParseItem(s, |outer| + 1))
         == Plug(outer, Gather(f.items, ParseItems(s, f.count - |f.items|, |outer| + 1)))
  {
    hide ParseItem, ParseItems, Gather;
    var frames := outer + [f];
    assert frames[..|frames| - 1] == outer && frames[|frames| - 1] == f;
    GatherNext(f.items, s, f.count - |f.items|, |frames|);
  }

  /** An array that is full once r is in it becomes the item of the array around it. */
  lemma PlugFull(outer: seq<Frame>, f: Frame, r: Reply, rest: seq<byte>)
    requires FramesOk(outer + [f]) && |f.items| + 1 == f.count
    ensures FramesOk(outer)
    ensures Plug(outer + [f], Done(r, rest)) == Plug(outer, Done(Array(f.items + [r]), rest))
  {
    hide ParseItem, ParseTyped;
    var frames := outer + [f];
    assert frames[..|frames| - 1] == outer && frames[|frames| - 1] == f;
    assert forall i :: 0 <= i < |outer| ==> outer[i] == frames[i];
    var items := f.items + [r];
    assert items + [] == items;
    assert Gather(items, ParseItems(rest, 0, |frames|)) == Done(Array(items), rest);
  }

  /** Finishing an item leaves the outcome of the whole reply as it was. */
  lemma {:induction false} CompleteSound(frames: seq<Frame>, r: Reply, rest: seq<byte>, t: seq<byte>)
    requires FramesOk(frames)
    ensures var res := Complete(frames, r, rest);
      && (res.Emit? || res.Next?) && ResultOk(res) && Left(res) == |rest|
      && Continue(res, t) == Plug(frames, Done(r, rest + t))
    decreases |frames|
  {
    hide ParseItem, ParseTyped, ParseItems;
    if frames != [] {
      var outer, f := frames[..|frames| - 1], frames[|frames| - 1];
      var items := f.items + [r];
      assert frames == outer + [f];
      if |items| == f.count {
        hide Plug;
        PlugFull(outer, f, r, rest + t);
        CompleteSound(outer, Array(items), rest, t);
      } else {
        PlugFrame(outer, Frame(items, f.count), rest + t);
      }
    }
  }

  lemma {:induction false} StepArraySound(m: Machine, t: seq<byte>)
    requires FramesOk(m.frames) && m.ty == ARRAY && |m.frames| < MAX_DEPTH && Crlf(m.unread) != -1
    ensures var res := StepTyped(m);
      && ResultOk(res) && !res.Stuck? && Left(res) < |m.unread|
      && Continue(res, t) == Plug(m.frames, ParseTyped(ARRAY, m.unread + t, |m.frames|))
  {
    hide Crlf, LineNumber, Complete, Plug, ParseItem;
    CrlfExtends(m.unread, t);
    var k := Crlf(m.unread);
    var n, rest := LineNumber(m.unread[..k]), m.unread[k + 2..];
    if n > 0 {
      PlugFrame(m.frames, Frame([], n), rest + t);
    } else {
      var none: seq<Reply> := [];
      assert none + none == none;
      var r := if n == -1 then Nil else if n < 0 then NegArray(n) else Array([]);
      assert ArrayBody(n, rest + t, |m.frames|) == Done(r, rest + t);
      CompleteSound(m.frames, r, rest, t);
    }
  }

  lemma {:induction false} StepTypedSound(m: Machine, t: seq<byte>)
    requires FramesOk(m.frames) && m.ty in {STRING, ARRAY, INTEGER, STATUS, ERROR}
    ensures var res := StepTyped(m);
      && ResultOk(res)
      && (if res.Stuck? then res.m == m else res.Failed? || Left(res) < |m.unread|)
      && Continue(res, t) == Plug(m.frames, ParseTyped(m.ty, m.unread + t, |m.frames|))
  {
    hide Crlf, LineNumber, Complete, ParseItem, ParseItems, ArrayBody;
    var k := Crlf(m.unread);
    if k == -1 || (m.ty == ARRAY && |m.frames| == MAX_DEPTH) {
    } else if m.ty == ARRAY {
      StepArraySound(m, t);
    } else {
      CrlfExtends(m.unread, t);
      var n, rest := LineNumber(m.unread[..k]), m.unread[k + 2..];
      if m.ty != STRING {
        CompleteSound(m.frames, LineReply(m.ty, m.unread[..k]), rest, t);
      } else if n < 0 {
        CompleteSound(m.frames, Nil, rest, t);
      } else if n + 2 <= |rest| {
        assert (rest + t)[..n] == rest[..n] && (rest + t)[n + 2..] == rest[n + 2..] + t;
        CompleteSound(m.frames, Str(rest[..n]), rest[n + 2..], t);
      }
    }
  }

  /**
   One step preserves the outcome of the reply in progress whatever arrives later; it consumes
   bytes unless it is stuck.
   */
  lemma {:induction false} StepSound(m: Machine, t: seq<byte>)
    requires Ok(m)
    ensures var res := Step(m);
      && ResultOk(res)
      && (res.Stuck? || res.Failed? || Left(res) < |m.unread|)
      && Continue(res, t) == Resume(m, t)
  {
    if m.ty >= 0 {
      StepTypedSound(m, t);
    } else if m.unread != [] {
      var s := m.unread + t;
      assert s[0] == m.unread[0] && s[1..] == m.unread[1..] + t;
      if TypeOf(s[0]) >= 0 {
        StepTypedSound(Machine(m.unread[1..], m.frames, TypeOf(s[0])), t);
      }
    }
  }

  lemma {:induction false} StuckTyped(ty: int, s: seq<byte>, frames: seq<Frame>)
    requires ty in {STRING, ARRAY, INTEGER, STATUS, ERROR} && FramesOk(frames)
    requires ty == ARRAY ==> |frames| < MAX_DEPTH
    requires StepTyped(Machine(s, frames, ty)).Stuck?
    ensures ParseTyped(ty, s, |frames|) == More
  {
  }

  /** A stuck machine is stuck because the recursive parser needs more bytes too. */
  lemma {:induction false} StuckNeedsMore(m: Machine)
    requires Ok(m) && Step(m).Stuck?
    ensures Ok(Step(m).m)
    ensures Resume(m, []) == More && Resume(Step(m).m, []) == More
  {
    StepSound(m, []);
    assert m.unread + [] == m.unread;
    if m.ty < 0 && m.unread != [] {
      StuckTyped(TypeOf(m.unread[0]), m.unread[1..], m.frames);
    } else if m.ty >= 0 {
      StuckTyped(m.ty, m.unread, m.frames);
    }
  }

  lemma EmptyNeedsMore(m: Machine)
    requires Ok(m) && m.unread == []
    ensures Resume(m, []) == More
  {
    StuckNeedsMore(m);
  }

  // ----- The same facts about whole streams -----

  lemma {:induction false} TracksInit()
    ensures Tracks([], [], Machine([], [], -1))
  {
    forall t ensures ParseStream([] + t) == Prepend([], StreamOf(Resume(Machine([], [], -1), t))) {
      assert [] + t == t;
      assert [] + ParseStream(t).replies == ParseStream(t).replies;
    }
  }

  lemma {:induction false} TracksFeed(history: seq<byte>, emitted: seq<Reply>, m: Machine, chunk: seq<byte>)
    requires Tracks(history, emitted, m)
    ensures Tracks(history + chunk, emitted, m.(unread := m.unread + chunk))
  {
    hide ParseStream, StreamOf, Plug, ParseItem, ParseTyped;
    var m' := m.(unread := m.unread + chunk);
    forall t ensures ParseStream(history + chunk + t) == Prepend(emitted, StreamOf(Resume(m', t))) {
      assert history + chunk + t == history + (chunk + t);
      assert m.unread + chunk + t == m.unread + (chunk + t);
    }
  }

  lemma TracksOk(history: seq<byte>, emitted: seq<Reply>, m: Machine)
    requires Tracks(history, emitted, m)
    ensures Ok(m)
  {
  }

  lemma {:induction false} FailedFeed(history: seq<byte>, emitted: seq<Reply>, e: ProtocolError, chunk: seq<byte>)
    requires HasFailed(history, emitted, e)
    ensures HasFailed(history + chunk, emitted, e)
  {
    forall t ensures ParseStream(history + chunk + t) == Stream(emitted, Some(e)) {
      assert history + chunk + t == history + (chunk + t);
    }
  }

  lemma {:induction false} TracksEmit(history: seq<byte>, emitted: seq<Reply>, m: Machine, t: seq<byte>)
    requires Tracks(history, emitted, m) && Step(m).Emit?
    ensures var res := Step(m);
      ParseStream(history + t)
        == Prepend(emitted + [res.reply], StreamOf(Resume(Machine(res.unread, [], -1), t)))
  {
    StepSound(m, t);
    var res := Step(m);
    var tail := ParseStream(res.unread + t);
    assert StreamOf(Resume(m, t)) == Prepend([res.reply], tail);
    assert emitted + ([res.reply] + tail.replies) == emitted + [res.reply] + tail.replies;
    assert StreamOf(ParseItem(res.unread + t, 0)) == tail;
  }

  /** One step keeps the machine right about the whole stream. */
  lemma {:induction false} TracksStep(history: seq<byte>, emitted: seq<Reply>, m: Machine)
    requires Tracks(history, emitted, m)
    ensures var res := Step(m);
      && (res.Stuck? ==> Tracks(history, emitted, res.m))
      && (res.Next? ==> Tracks(history, emitted, res.m) && |res.m.unread| < |m.unread|)
      && (res.Emit? ==> Tracks(history, emitted + [res.reply], Machine(res.unread, [], -1)))
      && (res.Failed? ==> HasFailed(history, emitted, res.error))
  {
    var res := Step(m);
    StepSound(m, []);
    if res.Emit? {
      forall t ensures ParseStream(history + t)
        == Prepend(emitted + [res.reply], StreamOf(Resume(Machine(res.unread, [], -1), t)))
      {
        TracksEmit(history, emitted, m, t);
      }
    } else if res.Failed? {
      forall t ensures ParseStream(history + t) == Stream(emitted, Some(res.error)) {
        StepSound(m, t);
        assert emitted + [] == emitted;
      }
    } else {
      forall t ensures ParseStream(history + t) == Prepend(emitted, StreamOf(Resume(res.m, t))) {
        StepSound(m, t);
      }
    }
  }

  /** When nothing more can be read, the emitted replies are all the replies of the stream so far. */
  lemma {:induction false} TracksStuck(history: seq<byte>, emitted: seq<Reply>, m: Machine)
    requires Tracks(history, emitted, m) && Resume(m, []) == More
    ensures ParseStream(history) == Stream(emitted, None)
  {
    assert history + [] == history && emitted + [] == emitted;
  }

  lemma FailedForGood(history: seq<byte>, emitted: seq<Reply>, e: ProtocolError, t: seq<byte>)
    requires HasFailed(history, emitted, e)
    ensures ParseStream(history + t) == Stream(emitted, Some(e))
  {
  }

  lemma {:induction false} FailedStream(history: seq<byte>, emitted: seq<Reply>, e: ProtocolError)
    requires HasFailed(history, emitted, e)
    ensures ParseStream(history) == Stream(emitted, Some(e))
  {
    assert history + [] == history;
  }
}
