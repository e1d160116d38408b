/** Whole runs of the reader: a stream split into chunks, drained after each one. */
module RespRuns {
  import opened Bytes
  import opened RespSpec
  import opened RespMachine
  import opened RespTree
  import opened RespReader

  // ----- Runs of the abstract machine -----

  /** The replies read until the machine is stuck or the stream fails; None stands for a failed machine. */
  datatype Drained = Drained(replies: seq<Reply>, state: Option<Machine>, failure: Option<ProtocolError>)

  ghost function Drain(m: Machine): Drained
    requires Ok(m)
    decreases |m.unread|
  {
    StepSound(m, []);
    match Step(m)
    case Stuck(m') => Drained([], Some(m'), None)
    case Failed(e) => Drained([], None, Some(e))
    case Next(m') => Drain(m')
    case Emit(r, rest) =>
      var d := Drain(Machine(rest, [], -1));
      d.(replies := [r] + d.replies)
  }

  lemma {:induction false} DrainTracks(history: seq<byte>, emitted: seq<Reply>, m: Machine)
    requires Tracks(history, emitted, m)
    ensures var d := Drain(m);
      && (d.failure.None? ==> d.state.Some? && Tracks(history, emitted + d.replies, d.state.value))
      && (d.failure.None? ==> ParseStream(history) == Stream(emitted + d.replies, None))
      && (d.failure.Some? ==> HasFailed(history, emitted + d.replies, d.failure.value))
    decreases |m.unread|
  {
    hide Tracks, HasFailed, ParseStream, Step, Resume;
    TracksOk(history, emitted, m);
    TracksStep(history, emitted, m);
    StepSound(m, []);
    match Step(m)
    case Stuck(m') =>
      StuckNeedsMore(m);
      assert emitted + [] == emitted;
      TracksStuck(history, emitted, m');
    case Failed(e) =>
      assert emitted + [] == emitted;
    case Next(m') =>
      DrainTracks(history, emitted, m');
    case Emit(r, rest) =>
      var m' := Machine(rest, [], -1);
      DrainTracks(history, emitted + [r], m');
      assert emitted + ([r] + Drain(m').replies) == emitted + [r] + Drain(m').replies;
  }

  lemma PrependTwice(a: seq<Reply>, b: seq<Reply>, st: Stream)
    ensures Prepend(a, Prepend(b, st)) == Prepend(a + b, st)
  {
    assert a + (b + st.replies) == a + b + st.replies;
  }

  /** Feeding each chunk in turn and draining after it. */
  ghost function Run(m: Machine, chunks: seq<seq<byte>>): Stream
    requires Ok(m)
    decreases |chunks|
  {
    if chunks == [] then Stream([], None)
    else
      var d := Drain(m.(unread := m.unread + chunks[0]));
      if d.failure.Some? then Stream(d.replies, d.failure)
      else if d.state.Some? && Ok(d.state.value) then Prepend(d.replies, Run(d.state.value, chunks[1..]))
      else Stream([], None)
  }

  lemma {:induction false} RunTracks(history: seq<byte>, emitted: seq<Reply>, m: Machine, chunks: seq<seq<byte>>)
    requires Tracks(history, emitted, m) && ParseStream(history) == Stream(emitted, None)
    ensures ParseStream(history + Flatten(chunks)) == Prepend(emitted, Run(m, chunks))
    decreases |chunks|
  {
    hide Tracks, HasFailed, Ok, ParseStream, Drain;
    if chunks == [] {
      assert history + [] == history;
      assert emitted + [] == emitted;
    } else {
      TracksOk(history, emitted, m);
      var m' := m.(unread := m.unread + chunks[0]);
      TracksFeed(history, emitted, m, chunks[0]);
      TracksOk(history + chunks[0], emitted, m');
      DrainTracks(history + chunks[0], emitted, m');
      var d, rest := Drain(m'), Flatten(chunks[1..]);
      assert Flatten(chunks) == chunks[0] + rest;
      assert history + (chunks[0] + rest) == history + chunks[0] + rest;
      if d.failure.None? {
        TracksOk(history + chunks[0], emitted + d.replies, d.state.value);
        RunTracks(history + chunks[0], emitted + d.replies, d.state.value, chunks[1..]);
        PrependTwice(emitted, d.replies, Run(d.state.value, chunks[1..]));
      } else {
        FailedForGood(history + chunks[0], emitted + d.replies, d.failure.value, rest);
      }
    }
  }

  /** More bytes only add replies behind those already there, and none once the stream has failed. */
  lemma {:induction false} StreamGrows(a: seq<byte>, b: seq<byte>)
    ensures ParseStream(a).replies <= ParseStream(a + b).replies
    ensures ParseStream(a).failure.Some? ==> ParseStream(a + b) == ParseStream(a)
  {
    hide Tracks, HasFailed, ParseStream, Drain;
    TracksInit();
    TracksFeed([], [], INITIAL, a);
    assert [] + a == a;
    DrainTracks(a, [], Machine(a, [], -1));
    var d := Drain(Machine(a, [], -1));
    assert [] + d.replies == d.replies;
    if d.failure.Some? {
      FailedForGood(a, d.replies, d.failure.value, b);
      FailedStream(a, d.replies, d.failure.value);
    } else {
      TracksStream(a, d.replies, d.state.value, b);
    }
  }

  lemma TracksStream(history: seq<byte>, emitted: seq<Reply>, m: Machine, t: seq<byte>)
    requires Tracks(history, emitted, m)
    ensures emitted <= ParseStream(history + t).replies
  {
  }

  const INITIAL := Machine([], [], -1)

  lemma EmptyStream()
    ensures ParseStream([]) == Stream([], None)
  {
  }

  /** However a stream is split, the stack machine reads what the recursive parser reads in it. */
  lemma {:induction false} RunRefinesParser(chunks: seq<seq<byte>>)
    ensures Run(INITIAL, chunks) == ParseStream(Flatten(chunks))
  {
    hide Tracks, ParseStream, Run;
    TracksInit();
    EmptyStream();
    RunTracks([], [], INITIAL, chunks);
    assert [] + Flatten(chunks) == Flatten(chunks);
    assert [] + Run(INITIAL, chunks).replies == Run(INITIAL, chunks).replies;
  }

  /** Two splits of the same stream give the same replies in the same order and the same final error. */
  lemma {:induction false} ChunkIndependence(chunks: seq<seq<byte>>, others: seq<seq<byte>>)
    requires Flatten(chunks) == Flatten(others)
    ensures Run(INITIAL, chunks) == Run(INITIAL, others)
  {
    RunRefinesParser(chunks);
    RunRefinesParser(others);
  }

  // ----- Runs of the reader object -----

  /** The objects are whole trees that spell out the replies. */
  ghost predicate AllWhole(objs: seq<ReplyObject>, replies: seq<Reply>, trees: seq<Parts>)
    reads set i, o | 0 <= i < |trees| && o in Objects(trees[i]) :: o
  {
    |objs| == |replies| == |trees| && forall i :: 0 <= i < |objs| ==> Whole(objs[i], replies[i], trees[i])
  }

  /** The trees share no object with one another, nor with the reader. */
  ghost predicate Apart(trees: seq<Parts>, repr: set<object>) {
    && (forall i :: 0 <= i < |trees| ==> Objects(trees[i]) !! repr)
    && (forall i, j :: 0 <= i < j < |trees| ==> Objects(trees[i]) !! Objects(trees[j]))
  }

  /** Takes the next reply, if there is one. */
  method TakeReply(reader: RedisReader, replies0: seq<ReplyObject>, ghost trees0: seq<Parts>)
    returns (replies: seq<ReplyObject>, ghost trees: seq<Parts>, done: bool)
    requires reader.Valid() && AllWhole(replies0, reader.emitted, trees0) && Apart(trees0, reader.Repr)
    modifies reader.Repr
    ensures reader.Valid() && fresh(reader.Repr - old(reader.Repr)) && reader.history == old(reader.history)
    ensures AllWhole(replies, reader.emitted, trees) && Apart(trees, reader.Repr)
    ensures |reader.emitted| <= |ParseStream(reader.history).replies|
    ensures if done then ParseStream(reader.history) == Stream(reader.emitted, reader.err)
      else |reader.emitted| == |old(reader.emitted)| + 1
  {
    hide RedisReader.Valid, ParseStream, Whole;
    var status, r, tree := reader.GetReply();
    reader.EmittedSoFar();
    replies, trees, done := replies0, trees0, r == null;
    if r != null {
      replies, trees := replies + [r], trees + [tree];
    }
  }

  /** Takes all the replies there are. */
  method TakeAll(reader: RedisReader, replies0: seq<ReplyObject>, ghost trees0: seq<Parts>)
    returns (replies: seq<ReplyObject>, ghost trees: seq<Parts>)
    requires reader.Valid() && AllWhole(replies0, reader.emitted, trees0) && Apart(trees0, reader.Repr)
    modifies reader.Repr
    ensures reader.Valid() && fresh(reader.Repr - old(reader.Repr)) && reader.history == old(reader.history)
    ensures AllWhole(replies, reader.emitted, trees) && Apart(trees, reader.Repr)
    ensures ParseStream(reader.history) == Stream(reader.emitted, reader.err)
  {
    hide RedisReader.Valid, ParseStream, AllWhole, Apart;
    replies, trees := replies0, trees0;
    var done := false;
    reader.EmittedSoFar();
    while !done
      invariant reader.Valid() && fresh(reader.Repr - old(reader.Repr)) && reader.history == old(reader.history)
      invariant AllWhole(replies, reader.emitted, trees) && Apart(trees, reader.Repr)
      invariant |reader.emitted| <= |ParseStream(reader.history).replies|
      invariant done ==> ParseStream(reader.history) == Stream(reader.emitted, reader.err)
      decreases !done, |ParseStream(reader.history).replies| - |reader.emitted|
    {
      replies, trees, done := TakeReply(reader, replies, trees);
    }
  }

  /** Feeds the chunks one by one, taking all replies there are after each. */
  method ReadStream(chunks: seq<seq<byte>>)
    returns (replies: seq<ReplyObject>, failure: Option<ProtocolError>, ghost trees: seq<Parts>)
    ensures AllWhole(replies, ParseStream(Flatten(chunks)).replies, trees)
    ensures forall i, j :: 0 <= i < j < |trees| ==> Objects(trees[i]) !! Objects(trees[j])
    ensures failure == ParseStream(Flatten(chunks)).failure
  {
    hide RedisReader.Valid, ParseStream, Whole;
    EmptyStream();
    var reader := new RedisReader();
    replies, trees := [], [];
    for k := 0 to |chunks|
      invariant reader.Valid() && fresh(reader.Repr)
      invariant reader.history == Flatten(chunks[..k])
      invariant AllWhole(replies, reader.emitted, trees) && Apart(trees, reader.Repr)
      invariant ParseStream(reader.history) == Stream(reader.emitted, reader.err)
    {
      var fed := reader.Feed(chunks[k]);
      FlattenLast(chunks[..k + 1]);
      assert chunks[..k + 1][..k] == chunks[..k];
      replies, trees := TakeAll(reader, replies, trees);
    }
    failure := reader.err;
    assert chunks[..|chunks|] == chunks;
  }

  /** The objects of some trees. */
  ghost function AllObjects(trees: seq<Parts>): set<ReplyObject> {
    if trees == [] then {} else AllObjects(trees[..|trees| - 1]) + trees[|trees| - 1].objs
  }

  lemma {:induction false} AllObjectsHold(trees: seq<Parts>, i: nat)
    requires i < |trees|
    ensures trees[i].objs <= AllObjects(trees)
  {
    var n := |trees| - 1;
    if i < n {
      AllObjectsHold(trees[..n], i);
    }
  }

  lemma {:induction false} AllObjectsApart(trees: seq<Parts>)
    requires trees != [] && forall i, j :: 0 <= i < j < |trees| ==> Objects(trees[i]) !! Objects(trees[j])
    ensures AllObjects(trees) - trees[|trees| - 1].objs == AllObjects(trees[..|trees| - 1])
  {
    ObjectsApart(trees[..|trees| - 1], trees[|trees| - 1]);
  }

  lemma {:induction false} ObjectsApart(trees: seq<Parts>, p: Parts)
    requires forall i :: 0 <= i < |trees| ==> Objects(trees[i]) !! Objects(p)
    ensures AllObjects(trees) !! p.objs
  {
    if trees != [] {
      var n := |trees| - 1;
      ObjectsApart(trees[..n], p);
      forall o | o in trees[n].objs ensures o !in p.objs {
        assert o in Objects(trees[n]) && o !in Objects(p);
      }
    }
  }

  /** What freeing one of some whole trees takes. */
  lemma WholeParts(replies: seq<ReplyObject>, values: seq<Reply>, trees: seq<Parts>, k: nat)
    requires AllWhole(replies, values, trees) && k < |trees|
    ensures |replies| == |trees| && Linked(trees[k].objs, trees[k].slots) && Held(trees[k].slots)
    ensures replies[k] in trees[k].objs && Under(trees[k].objs, replies[k]) == trees[k].objs
  {
    hide Linked, Held, Under;
    assert Whole(replies[k], values[k], trees[k]);
  }

  /** Frees one of some replies, which leaves the others as they are. */
  method FreeOne(replies: seq<ReplyObject>, ghost values: seq<Reply>, ghost trees: seq<Parts>, k: nat, ghost live: set<ReplyObject>)
    returns (ghost left: set<ReplyObject>)
    requires AllWhole(replies, values, trees) && k < |trees| && trees[k].objs <= live
    ensures AllWhole(replies, values, trees) && left == live - trees[k].objs
  {
    hide Linked, Held, Under;
    WholeParts(replies, values, trees, k);
    left := FreeReplyObject(replies[k], trees[k], live);
  }

  /** Frees some replies: all their objects, each once. */
  method FreeAll(replies: seq<ReplyObject>, ghost values: seq<Reply>, ghost trees: seq<Parts>) returns (ghost left: set<ReplyObject>)
    requires AllWhole(replies, values, trees)
    requires forall i, j :: 0 <= i < j < |trees| ==> Objects(trees[i]) !! Objects(trees[j])
    ensures left == {}
  {
    hide AllWhole, Objects;
    SameCount(replies, values, trees);
    left := AllObjects(trees);
    var count := |replies|;
    assert trees[..count] == trees;
    while count > 0
      invariant count <= |replies| && left == AllObjects(trees[..count])
      invariant AllWhole(replies, values, trees)
    {
      ghost var some := trees[..count];
      count := count - 1;
      AllObjectsHold(some, count);
      AllObjectsApart(some);
      assert some[..count] == trees[..count];
      left := FreeOne(replies, values, trees, count, left);
    }
  }

  lemma SameCount(replies: seq<ReplyObject>, values: seq<Reply>, trees: seq<Parts>)
    requires AllWhole(replies, values, trees)
    ensures |replies| == |values| == |trees|
  {
  }

  /** A reader's whole life: every reply of a stream is read and then freed; no object is freed twice, none is left. */
  method ReadAndFree(chunks: seq<seq<byte>>) returns (count: nat, ghost left: set<ReplyObject>)
    ensures count == |ParseStream(Flatten(chunks)).replies| && left == {}
  {
    hide ParseStream, Whole, Objects;
    var replies, failure;
    ghost var trees;
    replies, failure, trees := ReadStream(chunks);
    count := |replies|;
    left := FreeAll(replies, ParseStream(Flatten(chunks)).replies, trees);
  }

  lemma {:induction false} FlattenLast(chunks: seq<seq<byte>>)
    requires chunks != []
    ensures Flatten(chunks) == Flatten(chunks[..|chunks| - 1]) + chunks[|chunks| - 1]
  {
    var n := |chunks| - 1;
    if n > 0 {
      FlattenLast(chunks[1..]);
      assert chunks[1..][..n - 1] == chunks[..n][1..];
    }
  }
}
