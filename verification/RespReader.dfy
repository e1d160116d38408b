/**
 The incremental reply reader: a nine-slot task stack, a cursor into a growing buffer, and a
 reply tree whose parent slots are filled in place.

 Ghost state says what the reader owes: history is every byte fed so far and emitted every reply
 handed out so far. Valid() keeps them in step with the recursive parser of RespSpec, so it holds
 over any sequence of calls, however the bytes are split.
 */
module RespReader {
  import opened Bytes
  import opened RespSpec
  import opened RespMachine
  import opened RespTree
  import S = Sds

  const REDIS_OK := 0
  const REDIS_ERR := -1

  // Consumed bytes are discarded once there are this many.
  const DISCARD := 1024
  const MAX_BUF := 1024 * 16

  /** Index of the first CR LF within the len bytes at from, or -1; may look at the byte after them. */
  method SeekNewline(s: array<byte>, from: nat, len: nat) returns (k: int)
    requires from + len < s.Length && s[from + len] == NUL
    ensures k == Crlf(s[from..from + len])
  {
    var pos, last: int := 0, len - 1;
    ghost var view := s[from..from + len];
    while pos < last
      invariant 0 <= pos && (pos <= last + 1 || pos == 0)
      invariant forall i :: 0 <= i < pos ==> !CrlfAt(view, i)
    {
      while pos < last && s[from + pos] != CR
        invariant 0 <= pos <= last
        invariant forall i :: 0 <= i < pos ==> !CrlfAt(view, i)
      {
        pos := pos + 1;
      }
      if s[from + pos] != CR {
        CrlfUnique(view, -1);
        return -1;
      } else if s[from + pos + 1] == LF {
        assert CrlfAt(view, pos);
        CrlfUnique(view, pos);
        return pos;
      } else {
        pos := pos + 1;
      }
    }
    CrlfUnique(view, -1);
    k := -1;
  }

  lemma CrlfUnique(s: seq<byte>, k: int)
    requires k == -1 || CrlfAt(s, k)
    requires forall i :: 0 <= i < (if k == -1 then |s| - 1 else k) ==> !CrlfAt(s, i)
    ensures k == Crlf(s)
  {
    var j := Crlf(s);
    assert j != -1 ==> CrlfAt(s, j);
    assert k != -1 ==> CrlfAt(s, k);
  }

  /** The number that starts at p and runs to the first CR; -1 for unexpected input. */
  method ReadLongLong(s: array<byte>, p: nat, ghost end: nat) returns (r: int)
    requires p <= end < s.Length && s[end] == CR
    ensures r == LineNumber(s[p..end])
  {
    var v, mult, q := 0, 1, p;
    ghost var line := s[p..end];
    if s[q] == '-' as int {
      mult := -1;
      q := q + 1;
    } else if s[q] == '+' as int {
      mult := 1;
      q := q + 1;
    }
    ghost var whole := Digits(s[q..end], 0);
    assert s[q..end] == if q == p then line else line[1..];
    while s[q] != CR
      decreases end - q
      invariant p <= q <= end
      invariant Digits(s[q..end], v) == whole
    {
      assert s[q..end][1..] == s[q + 1..end];
      if IsDigit(s[q]) {
        v := v * 10 + (s[q] - '0' as int);
        q := q + 1;
      } else {
        return -1;
      }
    }
    r := mult * v;
  }

  /**
   Frees an object and everything under it, each exactly once: live is what has been allocated and not yet freed,
   and only a live object may be freed.
   */
  method FreeReplyObject(o: ReplyObject, ghost p: Parts, ghost live: set<ReplyObject>) returns (ghost left: set<ReplyObject>)
    requires Linked(p.objs, p.slots) && Held(p.slots) && o in p.objs && Under(p.objs, o) <= live
    ensures left == live - Under(p.objs, o)
    decreases MAX_DEPTH - o.depth
  {
    hide Linked;
    left := live;
    UnderArray(p.objs, p.slots, o);
    LinkedObject(p.objs, p.slots, o);
    if o.ty == ARRAY {
      if o.element != null {
        var j := 0;
        while j < o.elements
          invariant 0 <= j <= o.elements
          invariant left == live - UnderSome(p.objs, p.slots[o][..j])
        {
          UnderNext(p.objs, p.slots, o, j);
          if o.element[j] != null {
            LinkedSlot(p.objs, p.slots, o, j);
            left := FreeReplyObject(o.element[j], p, left);
          }
          j := j + 1;
        }
        assert p.slots[o][..j] == p.slots[o];
      }
    }
    assert o in left;
    left := left - {o};
  }

  class RedisReader {
    var err: Option<ProtocolError>
    var buf: S.Sds?
    var pos: nat
    var len: nat
    var maxbuf: nat
    var rstack: array<Task>
    var ridx: int
    var reply: ReplyObject?

    ghost var objs: set<ReplyObject>       // made for the unfinished reply and not yet freed
    ghost var val: map<ReplyObject, Reply> // the finished ones among them, and what they denote
    ghost var slots: map<ReplyObject, seq<ReplyObject?>> // what the slots of the array objects hold
    ghost var frames: seq<Frame>           // the arrays being filled
    ghost var history: seq<byte>
    ghost var emitted: seq<Reply>
    ghost var Repr: set<object>

    ghost predicate Layout()
      reads this, Repr
    {
      && this in Repr && rstack in Repr && rstack.Length == MAX_DEPTH + 1
      && (buf != null ==> buf in Repr && buf.buf in Repr)
      && (buf != null ==> forall o :: o in slots ==> o.element as object? != buf.buf)
      && (forall o :: o in objs ==> o in Repr)
      && (buf != null ==> buf.Valid() && len == buf.len && pos <= len)
      && (forall o :: o in slots ==> o.element != null && o.element in Repr && o.element[..] == slots[o])
      && (forall o, p :: o in slots && p in slots && o.element == p.element ==> o == p)
    }

    lemma Shape()
      requires Layout()
      ensures this in Repr && rstack in Repr && rstack.Length == MAX_DEPTH + 1
      ensures buf != null ==> buf in Repr && buf.buf in Repr && buf.Valid() && len == buf.len && pos <= len
    {
    }

    ghost function Unread(): seq<byte>
      reads this, buf, if buf == null then {} else {buf.buf}
    {
      if buf != null && pos <= len <= buf.buf.Length then buf.buf[pos..len] else []
    }

    ghost function Snap(): Snapshot
      reads this, rstack
    {
      Snapshot(rstack[..], ridx, frames, objs, val, slots)
    }

    ghost function Abs(): Machine
      reads this, rstack, buf, if buf == null then {} else {buf.buf}
    {
      Machine(Unread(), frames, if 0 <= ridx < rstack.Length then rstack[ridx].ty else -1)
    }

    /** The element vectors of the array objects. */
    ghost function Vectors(): set<array<ReplyObject?>>
      reads this
    {
      VectorsOf(slots)
    }

    lemma VectorsHere()
      requires Layout()
      ensures forall o :: o in slots ==> o.element != null && o.element in Vectors() && o.element[..] == slots[o]
      ensures forall a :: a in Vectors() ==> a in Repr
    {
    }

    /** What making an object leaves alone. */
    ghost function Others(): (Option<ProtocolError>, (S.Sds?, nat, nat), int, ReplyObject?, (seq<byte>, seq<Reply>))
      reads this
    {
      (err, (buf, pos, len), ridx, reply, (history, emitted))
    }

    /** Writes one slot of an array object. */
    method SetSlot(parent: ReplyObject, idx: nat, r: ReplyObject)
      requires Layout() && parent in slots && idx < |slots[parent]|
      modifies this`slots, parent.element
      ensures Layout() && Unread() == old(Unread()) && Others() == old(Others())
      ensures slots == old(slots)[parent := old(slots)[parent][idx := r]]
    {
      hide S.Sds.Valid;
      slots := slots[parent := slots[parent][idx := r]];
      parent.element[idx] := r;
    }

    /** Puts a new object into the slot it was made for. */
    method FillSlot(task: Task, r: ReplyObject, ghost v: Option<Reply>)
      requires Layout() && Tree(Snap(), null) && Fits(Snap(), r, v)
      requires task == rstack[ridx]
      modifies this`slots, Vectors()
      ensures Layout() && Unread() == old(Unread()) && Others() == old(Others())
      ensures slots == Filled(old(Snap()), r, v)
    {
      hide Tree, S.Sds.Valid, Layout, Unread;
      Shape();
      VectorsHere();
      TopLevel(Snap(), null);
      if task.parent != -1 {
        var parent := rstack[task.parent].obj;
        assert parent.ty == ARRAY;
        SetSlot(parent, task.idx, r);
      }
    }

    /** The state after a leaf object for the current task has been made and linked. */
    twostate predicate Created(new r: ReplyObject, v: Reply)
      reads this, Repr, rstack, buf, if buf == null then {} else {buf.buf}
    {
      && old(Layout()) && Layout() && Unread() == old(Unread()) && Others() == old(Others()) && Repr == old(Repr) + {r}
      && frames == old(frames) && rstack[..] == old(rstack[..])
      && Tree(Snap(), r) && r in val && val[r] == v
    }

    method LinkLeaf(task: Task, r: ReplyObject, ghost v: Reply)
      requires Layout() && Tree(Snap(), null) && Fits(Snap(), r, Some(v))
      requires task == rstack[ridx]
      modifies this`objs, this`val, this`slots, this`Repr, Vectors()
      ensures Created(r, v)
    {
      hide Tree, S.Sds.Valid, Stacked, Fits, Filled, Layout, Unread;
      Shape();
      ghost var s' := Attached(Snap(), r, Some(v));
      AttachTree(Snap(), r, Some(v));
      FillSlot(task, r, Some(v));
      AddLeaf(r, v);
      assert Snap() == s';
    }

    /** A new object without slots joins the others. */
    ghost method AddLeaf(r: ReplyObject, v: Reply)
      requires Layout()
      modifies this`objs, this`val, this`Repr
      ensures Layout() && Repr == old(Repr) + {r}
      ensures Snap() == old(Snap()).(objs := old(objs) + {r}, val := old(val)[r := v])
      ensures Unread() == old(Unread()) && Others() == old(Others())
    {
      hide S.Sds.Valid;
      objs := objs + {r};
      val := val[r := v];
      Repr := Repr + {r};
    }

    method CreateStringObject(task: Task, str: seq<byte>) returns (r: ReplyObject)
      requires Layout() && Tree(Snap(), null) && ridx >= 0 && task == rstack[ridx]
      requires task.ty in {STRING, STATUS, ERROR}
      modifies this`objs, this`val, this`slots, this`Repr, Vectors()
      ensures fresh(r) && Created(r, if task.ty == STRING then Str(str) else LineReply(task.ty, str))
    {
      hide Tree;
      TopLevel(Snap(), null);
      r := new ReplyObject(task.ty, 0, str, 0, if ridx > 0 then rstack[ridx - 1].obj else null, task.idx);
      LinkLeaf(task, r, if task.ty == STRING then Str(str) else LineReply(task.ty, str));
    }

    method CreateIntegerObject(task: Task, value: int) returns (r: ReplyObject)
      requires Layout() && Tree(Snap(), null) && ridx >= 0 && task == rstack[ridx]
      modifies this`objs, this`val, this`slots, this`Repr, Vectors()
      ensures fresh(r) && Created(r, Integer(value))
    {
      hide Tree;
      TopLevel(Snap(), null);
      r := new ReplyObject(INTEGER, value, [], 0, if ridx > 0 then rstack[ridx - 1].obj else null, task.idx);
      LinkLeaf(task, r, Integer(value));
    }

    method CreateNilObject(task: Task) returns (r: ReplyObject)
      requires Layout() && Tree(Snap(), null) && ridx >= 0 && task == rstack[ridx]
      modifies this`objs, this`val, this`slots, this`Repr, Vectors()
      ensures fresh(r) && Created(r, Nil)
    {
      hide Tree;
      TopLevel(Snap(), null);
      r := new ReplyObject(NIL, 0, [], 0, if ridx > 0 then rstack[ridx - 1].obj else null, task.idx);
      LinkLeaf(task, r, Nil);
    }

    /** The state after an array object with slots to fill has been made and linked. */
    twostate predicate CreatedArray(new r: ReplyObject, elements: int)
      reads this, Repr, rstack, buf, if buf == null then {} else {buf.buf}
    {
      && old(Layout()) && Layout() && Unread() == old(Unread()) && Others() == old(Others())
      && r.element != null && r.elements == elements && Repr == old(Repr) + {r, r.element}
      && frames == old(frames) && rstack[..] == old(rstack[..])
      && Tree(Snap(), r) && r !in val && r.ty == ARRAY
      && r.depth == ridx && r in slots && slots[r] == seq(r.elements, _ => null)
    }

    method LinkArray(task: Task, r: ReplyObject)
      requires Layout() && Tree(Snap(), null) && Fits(Snap(), r, None)
      requires task == rstack[ridx]
      requires r.element != null && r.element !in Repr && r.element.Length == r.elements
      requires forall j :: 0 <= j < r.elements ==> r.element[j] == null
      modifies this`objs, this`slots, this`Repr, Vectors()
      ensures Layout() && Unread() == old(Unread()) && Others() == old(Others()) && Repr == old(Repr) + {r, r.element}
      ensures Snap() == Attached(old(Snap()), r, None) && Tree(Snap(), r)
    {
      hide Tree, S.Sds.Valid, Stacked, Fits, Filled, Layout, Unread;
      Shape();
      VectorsHere();
      ghost var s' := Attached(Snap(), r, None);
      AttachTree(Snap(), r, None);
      FillSlot(task, r, None);
      assert r.element[..] == seq(r.elements, _ => null);
      AddVector(r);
      assert Snap() == s';
    }

    /** A new array object and its element vector join the others. */
    ghost method AddVector(r: ReplyObject)
      requires Layout() && r.element != null && r.element !in Repr && r.elements >= 0
      requires r.element[..] == seq(r.elements, _ => null)
      modifies this`objs, this`slots, this`Repr
      ensures Layout() && Repr == old(Repr) + {r, r.element}
      ensures Snap() == old(Snap()).(objs := old(objs) + {r}, slots := old(slots)[r := seq(r.elements, _ => null)])
      ensures Unread() == old(Unread()) && Others() == old(Others())
    {
      hide S.Sds.Valid;
      objs := objs + {r};
      slots := slots[r := seq(r.elements, _ => null)];
      Repr := Repr + {r, r.element};
    }

    method CreateArrayObject(task: Task, elements: int) returns (r: ReplyObject)
      requires Layout() && Tree(Snap(), null) && ridx >= 0 && task == rstack[ridx]
      modifies this`objs, this`val, this`slots, this`Repr, Vectors()
      ensures fresh(r) && (elements > 0 ==> fresh(r.element))
      ensures elements <= 0 ==> Created(r, if elements == 0 then Array([]) else NegArray(elements))
      ensures elements > 0 ==> CreatedArray(r, elements)
    {
      hide Tree;
      TopLevel(Snap(), null);
      r := new ReplyObject(ARRAY, 0, [], elements, if ridx > 0 then rstack[ridx - 1].obj else null, task.idx);
      if elements > 0 {
        LinkArray(task, r);
      } else {
        LinkLeaf(task, r, if elements == 0 then Array([]) else NegArray(elements));
      }
    }

    /** The array around a finished object is full: back to its own task. */
    method LeaveTask(ghost cur: ReplyObject)
      requires Layout() && Tree(Snap(), cur) && cur in val && Full(Snap(), cur)
      modifies this`ridx, this`val, this`frames
      ensures Layout() && Unread() == old(Unread())
      ensures Snap() == Popped(old(Snap()), cur)
    {
      hide Tree, S.Sds.Valid, Stacked;
      ghost var s' := Popped(Snap(), cur);
      ridx := ridx - 1;
      val, frames := s'.val, s'.frames;
    }

    /** The next item of the same array: its type can be anything. */
    method AdvanceTask(ghost cur: ReplyObject)
      requires Layout() && Tree(Snap(), cur) && cur in val && Roomy(Snap(), cur)
      modifies this`frames, rstack
      ensures Layout() && Unread() == old(Unread())
      ensures Snap() == Advanced(old(Snap()), cur)
    {
      hide Tree, S.Sds.Valid;
      ghost var s' := Advanced(Snap(), cur);
      var task := rstack[ridx];
      rstack[ridx] := task.(ty := -1, elements := -1, idx := task.idx + 1);
      frames := s'.frames;
    }

    /** The root task is done. */
    method LeaveRoot()
      requires Layout() && ridx == 0
      modifies this`ridx
      ensures Layout() && Unread() == old(Unread()) && Snap() == old(Snap()).(ridx := -1)
    {
      hide S.Sds.Valid;
      ridx := ridx - 1;
    }

    /** Finished work for the current task: cur has been made for it. */
    method MoveToNextTask(ghost cur: ReplyObject)
      requires Layout() && Tree(Snap(), cur) && cur in val && ridx >= 0
      modifies this`ridx, this`val, this`frames, rstack
      ensures Layout() && Unread() == old(Unread())
      ensures var res := Complete(old(frames), old(val)[cur], old(Unread()));
        var root := old(Root(Snap(), cur));
        && (res.Next? ==> Tree(Snap(), null) && ridx >= 0 && Abs() == res.m && Root(Snap(), null) == root)
        && (res.Emit? ==> Tree(Snap(), root) && ridx == -1 && root in val && val[root] == res.reply)
    {
      hide Tree, S.Sds.Valid, Stacked, Full, Roomy, Level, Layout;
      Shape();
      ghost var c: ReplyObject := cur;
      while ridx >= 0
        invariant Layout() && Tree(Snap(), c) && c in val && ridx >= 0
        invariant Unread() == old(Unread()) && Root(Snap(), c) == old(Root(Snap(), cur))
        invariant Complete(frames, val[c], Unread()) == old(Complete(frames, val[cur], Unread()))
        decreases ridx
      {
        ghost var s := Snap();
        TopTask(s, c);
        if ridx == 0 {
          LeaveStack(s, c);
          LeaveRoot();
          return;
        }
        var task, prv := rstack[ridx], rstack[ridx - 1];
        assert prv.ty == ARRAY;
        if task.idx == prv.elements - 1 {
          PopTree(s, c);
          LeaveTask(c);
          c := prv.obj;
        } else {
          AdvanceTree(s, c);
          assert task.idx < prv.elements;
          AdvanceTask(c);
          return;
        }
      }
    }

    // ----- One item -----

    /** Between two steps: the tree hangs off reply, and the abstract machine is well formed. */
    ghost predicate Working()
      reads this, Repr, rstack, buf, if buf == null then {} else {buf.buf}
    {
      Holding() && Ok(Abs())
    }

    lemma StackTop()
      requires Holding() && ridx >= 0
      ensures ridx < rstack.Length == MAX_DEPTH + 1 && |frames| == ridx && FramesOk(frames)
    {
      TopTask(Snap(), null);
      TopLevel(Snap(), null);
      TreeFrames(Snap(), null);
    }

    ghost predicate Holding()
      reads this, Repr, rstack, buf, if buf == null then {} else {buf.buf}
    {
      && err.None? && buf != null && Layout()
      && Tree(Snap(), null) && reply == Root(Snap(), null)
    }

    /** A whole reply has been read and not yet handed out. */
    ghost predicate Finished(v: Reply)
      reads this, Repr, rstack, buf, if buf == null then {} else {buf.buf}
    {
      && err.None? && buf != null && Layout() && ridx == -1
      && reply != null && Tree(Snap(), reply) && reply in val && val[reply] == v
    }

    /** After an error: no buffer, no reply, nothing left unfreed. */
    ghost predicate Dead()
      reads this
    {
      && err.Some? && buf == null && pos == len == 0 && ridx == -1 && reply == null
      && objs == {} && val == map[] && slots == map[] && frames == []
      && this in Repr && rstack in Repr && rstack.Length == MAX_DEPTH + 1
    }

    /** The reader is where the abstract step says. */
    ghost predicate Reached(res: Result, status: int)
      reads this, Repr, rstack, buf, if buf == null then {} else {buf.buf}
    {
      match res
      case Stuck(m) => status == REDIS_ERR && Working() && ridx >= 0 && Abs() == m
      case Next(m) => status == REDIS_OK && Working() && ridx >= 0 && Abs() == m
      case Emit(v, rest) => status == REDIS_OK && Finished(v) && Unread() == rest
      case Failed(e) => status == REDIS_ERR && Dead() && err == Some(e)
    }

    /** The tail shared by every finished item. */
    method FinishItem(obj: ReplyObject, ghost v: Reply)
      requires err.None? && buf != null && Layout() && ridx >= 0
      requires Tree(Snap(), obj) && obj in val && val[obj] == v
      requires ridx > 0 ==> reply == Root(Snap(), obj)
      modifies this`ridx, this`val, this`frames, this`reply, rstack
      ensures Repr == old(Repr) && history == old(history) && emitted == old(emitted)
      ensures Reached(Complete(old(frames), v, old(Unread())), REDIS_OK)
    {
      hide Tree, S.Sds.Valid;
      TopTask(Snap(), obj);
      ghost var root := Root(Snap(), obj);
      if ridx == 0 {
        reply := obj;
      }
      MoveToNextTask(obj);
      ghost var res := Complete(old(frames), v, old(Unread()));
      if res.Next? {
        TopLevel(Snap(), null);
        TreeFrames(Snap(), null);
      }
    }

    /** Frees the unfinished reply. */
    method FreePending()
      requires Holding()
      modifies this`objs, this`reply
      ensures objs == {} && reply == null && buf != null && this in Repr && rstack in Repr && rstack.Length == MAX_DEPTH + 1
    {
      hide Tree, Linked, S.Sds.Valid;
      if reply != null {
        UnderRoot(Snap());
        objs := FreeReplyObject(reply, Parts(objs, slots), objs);
        reply := null;
      } else {
        EmptyWhenRootless(Snap());
      }
    }

    method SetError(e: ProtocolError)
      requires Holding()
      modifies this
      ensures Dead() && err == Some(e)
      ensures Repr == old(Repr) && history == old(history) && emitted == old(emitted)
    {
      hide Holding;
      FreePending();
      val, slots, frames := map[], map[], [];
      if buf != null {
        buf := null;
        pos, len := 0, 0;
      }
      ridx := -1;
      err := Some(e);
    }

    method ReadBytes(bytes: nat) returns (p: int)
      requires buf != null && Layout()
      modifies this`pos
      ensures Layout()
      ensures bytes <= old(|Unread()|) ==> p == old(pos) && pos == old(pos) + bytes && Unread() == old(Unread())[bytes..]
      ensures bytes > old(|Unread()|) ==> p == -1 && pos == old(pos)
    {
      if len - pos >= bytes {
        p := pos;
        pos := pos + bytes;
      } else {
        p := -1;
      }
    }

    /** Length of the next line, or -1. */
    method NextLine() returns (n: int)
      requires buf != null && Layout()
      ensures n == Crlf(Unread())
      ensures n != -1 ==> pos + n + 2 <= len < buf.buf.Length
      ensures n != -1 ==> buf.buf[pos..pos + n] == Unread()[..n] && buf.buf[pos + n] == CR
      ensures n != -1 ==> buf.buf[pos + n + 2..len] == Unread()[n + 2..]
    {
      BufferEnd();
      n := SeekNewline(buf.buf, pos, len - pos);
      if n != -1 {
        BufferLine(n);
      }
    }

    /** Position and length of the next line, or -1. */
    method ReadLine() returns (p: nat, n: int)
      requires buf != null && Layout()
      modifies this`pos
      ensures Layout() && n == old(Crlf(Unread()))
      ensures n == -1 ==> pos == old(pos)
      ensures n != -1 ==> p == old(pos) && pos == p + n + 2 <= len < buf.buf.Length && Unread() == old(Unread())[n + 2..]
      ensures n != -1 ==> buf.buf[p..p + n] == old(Unread())[..n] && buf.buf[p + n] == CR
    {
      hide S.Sds.Valid, Crlf;
      p := pos;
      n := NextLine();
      if n != -1 {
        pos := pos + n + 2;
      }
    }

    /** The object a line of n bytes at p stands for. */
    method LineObject(task: Task, p: nat, n: nat) returns (obj: ReplyObject)
      requires Layout() && Tree(Snap(), null) && ridx >= 0 && task == rstack[ridx]
      requires task.ty in {INTEGER, STATUS, ERROR}
      requires buf != null && p + n < buf.buf.Length && buf.buf[p + n] == CR
      modifies this`objs, this`val, this`slots, this`Repr, Vectors()
      ensures fresh(obj) && Created(obj, LineReply(task.ty, old(buf.buf[p..p + n])))
    {
      hide Tree, S.Sds.Valid;
      if task.ty == INTEGER {
        var value := ReadLongLong(buf.buf, p, p + n);
        obj := CreateIntegerObject(task, value);
      } else {
        obj := CreateStringObject(task, buf.buf[p..p + n]);
      }
    }

    method ProcessLineItem() returns (status: int)
      requires Working() && ridx >= 0 && rstack[ridx].ty in {INTEGER, STATUS, ERROR}
      modifies this, rstack, Vectors()
      ensures fresh(Repr - old(Repr)) && history == old(history) && emitted == old(emitted)
      ensures Reached(StepTyped(old(Abs())), status)
    {
      hide Tree, S.Sds.Valid, StepTyped, Complete, LineReply, Crlf, Reached, Finished, Ok, Layout, Unread;
      StackTop();
      StepLine(Abs());
      StayStuck();
      var cur := rstack[ridx];
      var p, n := ReadLine();
      if n != -1 {
        var obj := LineObject(cur, p, n);
        FinishItem(obj, LineReply(cur.ty, buf.buf[p..p + n]));
        return REDIS_OK;
      }
      status := REDIS_ERR;
    }

    /** Skips the bytes of an item for which obj has been made, and finishes it. */
    method Consume(bytelen: nat, obj: ReplyObject, ghost v: Reply)
      requires err.None? && buf != null && Layout() && ridx >= 0 && pos + bytelen <= len && bytelen <= |Unread()|
      requires Tree(Snap(), obj) && obj in val && val[obj] == v
      requires ridx > 0 ==> reply == Root(Snap(), obj)
      modifies this`pos, this`ridx, this`val, this`frames, this`reply, rstack
      ensures Repr == old(Repr) && history == old(history) && emitted == old(emitted)
      ensures Reached(Complete(old(frames), v, old(Unread())[bytelen..]), REDIS_OK)
    {
      hide Tree, Complete;
      assert buf.buf[pos + bytelen..len] == Unread()[bytelen..];
      pos := pos + bytelen;
      FinishItem(obj, v);
    }

    method ProcessBulkItem() returns (status: int)
      requires Working() && ridx >= 0 && rstack[ridx].ty == STRING
      modifies this, rstack, Vectors()
      ensures fresh(Repr - old(Repr)) && history == old(history) && emitted == old(emitted)
      ensures Reached(StepTyped(old(Abs())), status)
    {
      hide Tree, S.Sds.Valid, StepTyped, Complete, Crlf, LineNumber, Reached, Finished, Ok, Layout, Unread;
      StackTop();
      StepBulk(Abs());
      StayStuck();
      var n := NextLine();
      if n != -1 {
        var size := ReadLongLong(buf.buf, pos, pos + n);
        if size < 0 {
          status := TakeNil(n);
          return;
        } else if pos + n + 2 + size + 2 <= len {
          status := TakeBulk(n, size);
          return;
        }
      }
      status := REDIS_ERR;
    }

    /** A negative length: a nil, of which there is nothing more to read. */
    method TakeNil(n: nat) returns (status: int)
      requires Working() && ridx >= 0 && rstack[ridx].ty == STRING
      requires n == Crlf(Unread()) && LineNumber(Unread()[..n]) < 0
      modifies this, rstack, Vectors()
      ensures fresh(Repr - old(Repr)) && history == old(history) && emitted == old(emitted)
      ensures Reached(StepTyped(old(Abs())), status)
    {
      hide Tree, S.Sds.Valid, StepTyped, Complete, Crlf, Reached, Finished, Ok, FramesOk, Layout, Unread;
      Shape();
      BufferEnd();
      TopTask(Snap(), null);
      ghost var res := StepTyped(Abs());
      StepBulk(Abs());
      BufferLine(n);
      var obj := CreateNilObject(rstack[ridx]);
      Consume(n + 2, obj, Nil);
      assert Reached(res, REDIS_OK);
      status := REDIS_OK;
    }

    /** The whole bulk payload is in the buffer. */
    method TakeBulk(n: nat, size: nat) returns (status: int)
      requires Working() && ridx >= 0 && rstack[ridx].ty == STRING
      requires n == Crlf(Unread()) && size == LineNumber(Unread()[..n]) && pos + n + 2 + size + 2 <= len
      modifies this, rstack, Vectors()
      ensures fresh(Repr - old(Repr)) && history == old(history) && emitted == old(emitted)
      ensures Reached(StepTyped(old(Abs())), status)
    {
      hide Tree, S.Sds.Valid, StepTyped, Complete, Crlf, Reached, Finished, Ok, FramesOk, Layout, Unread;
      Shape();
      BufferEnd();
      TopTask(Snap(), null);
      ghost var res := StepTyped(Abs());
      StepBulk(Abs());
      BufferBulk(n, size);
      var bytelen := n + 2 + size + 2;
      ghost var payload, rest := Unread()[n + 2..][..size], Unread()[bytelen..];
      assert res == Complete(frames, Str(payload), rest);
      var obj := CreateStringObject(rstack[ridx], buf.buf[pos + n + 2..pos + n + 2 + size]);
      assert val[obj] == Str(payload) && Unread()[bytelen..] == rest;
      Consume(bytelen, obj, Str(payload));
      assert Reached(res, REDIS_OK);
      status := REDIS_OK;
    }

    lemma StayStuck()
      requires Working() && ridx >= 0
      ensures Reached(Stuck(Abs()), REDIS_ERR)
    {
    }

    lemma BufferEnd()
      requires buf != null && Layout()
      ensures len < buf.buf.Length && buf.buf[len] == NUL
    {
    }

    lemma BufferLine(n: int)
      requires buf != null && Layout() && n == Crlf(Unread()) != -1
      ensures pos + n + 2 <= len && n + 2 <= |Unread()|
      ensures buf.buf[pos..pos + n] == Unread()[..n] && buf.buf[pos + n] == CR
      ensures buf.buf[pos + n + 2..len] == Unread()[n + 2..]
    {
      var s := Unread();
      assert s == buf.buf[pos..len] && CrlfAt(s, n);
      assert s[..n] == buf.buf[pos..pos + n] && s[n + 2..] == buf.buf[pos + n + 2..len];
      assert buf.buf[pos + n] == s[n];
    }

    lemma BufferBulk(n: int, size: nat)
      requires buf != null && Layout() && n == Crlf(Unread()) != -1 && pos + n + 2 + size + 2 <= len
      ensures n + 2 + size + 2 <= |Unread()| && Unread()[n + 2..][size + 2..] == Unread()[n + 2 + size + 2..]
      ensures buf.buf[pos + n + 2..pos + n + 2 + size] == Unread()[n + 2..][..size]
      ensures buf.buf[pos + n + 2 + size + 2..len] == Unread()[n + 2..][size + 2..]
    {
      hide Crlf, Layout;
      Shape();
      var s := Unread();
      BufferIs(n + 2, n + 2 + size);
      BufferIs(n + 2 + size + 2, |s|);
      assert s[n + 2..][..size] == s[n + 2..n + 2 + size];
      assert s[n + 2..][size + 2..] == s[n + 2 + size + 2..|s|];
    }

    /** A stretch of the unread bytes, in the buffer. */
    lemma BufferIs(i: nat, j: nat)
      requires buf != null && pos <= len <= buf.buf.Length && i <= j <= |Unread()|
      ensures buf.buf[pos + i..pos + j] == Unread()[i..j]
    {
      var s := Unread();
      forall k | i <= k < j ensures buf.buf[pos + k] == s[k] {
      }
    }

    /** A new array becomes the innermost one. */
    method PushTask(r: ReplyObject)
      requires Layout() && Tree(Snap(), r) && Pushable(Snap(), r)
      modifies this`ridx, this`frames, rstack
      ensures Layout() && Unread() == old(Unread())
      ensures Repr == old(Repr) && history == old(history) && emitted == old(emitted)
      ensures Snap() == Pushed(old(Snap()), r) && ridx == old(ridx) + 1
      ensures Abs() == Machine(old(Unread()), old(frames) + [Frame([], r.elements)], -1)
      ensures (err, buf, reply) == old((err, buf, reply))
    {
      hide Tree, S.Sds.Valid;
      ghost var s' := Pushed(Snap(), r);
      rstack[ridx] := rstack[ridx].(elements := r.elements, obj := r);
      ridx := ridx + 1;
      rstack[ridx] := Task(-1, -1, 0, null, ridx - 1);
      frames := s'.frames;
    }

    method ProcessMultiBulkItem() returns (status: int)
      requires Holding() && ridx >= 0 && rstack[ridx].ty == ARRAY
      modifies this, rstack, Vectors()
      ensures fresh(Repr - old(Repr)) && history == old(history) && emitted == old(emitted)
      ensures Reached(StepTyped(old(Abs())), status)
    {
      hide Tree, S.Sds.Valid, StepTyped, Complete, Crlf, Reached, Finished, LineNumber, Layout, Unread;
      StackTop();
      ghost var res := StepTyped(Abs());
      StepArray(Abs());
      if ridx == MAX_DEPTH {
        SetError(TooDeep);
        AfterError(TooDeep);
        return REDIS_ERR;
      }
      StayStuck();
      var p, n := ReadLine();
      if n != -1 {
        var elements := ReadLongLong(buf.buf, p, p + n);
        status := TakeCount(elements);
        assert Reached(res, REDIS_OK);
        return;
      }
      status := REDIS_ERR;
    }

    /** The array header has been read. */
    method TakeCount(elements: int) returns (status: int)
      requires Holding() && 0 <= ridx < MAX_DEPTH && rstack[ridx].ty == ARRAY
      modifies this, rstack, Vectors()
      ensures status == REDIS_OK
      ensures fresh(Repr - old(Repr)) && history == old(history) && emitted == old(emitted)
      ensures Reached(
        if elements > 0 then Next(Machine(old(Unread()), old(frames) + [Frame([], elements)], -1))
        else Complete(old(frames), if elements == -1 then Nil else if elements == 0 then Array([]) else NegArray(elements), old(Unread())),
        REDIS_OK)
    {
      hide Tree, S.Sds.Valid, Complete, Reached, Layout;
      if elements > 0 {
        status := OpenArray(elements);
      } else {
        status := TakeEmpty(elements);
      }
    }

    /** An array count that calls for no items: nil for -1, an array object otherwise. */
    method TakeEmpty(elements: int) returns (status: int)
      requires Holding() && 0 <= ridx && rstack[ridx].ty == ARRAY && elements <= 0
      modifies this, rstack, Vectors()
      ensures status == REDIS_OK
      ensures fresh(Repr - old(Repr)) && history == old(history) && emitted == old(emitted)
      ensures var r := if elements == -1 then Nil else if elements == 0 then Array([]) else NegArray(elements);
        Reached(Complete(old(frames), r, old(Unread())), REDIS_OK)
    {
      hide Tree, S.Sds.Valid, Complete, Reached;
      TopTask(Snap(), null);
      var obj;
      if elements == -1 {
        obj := CreateNilObject(rstack[ridx]);
      } else {
        obj := CreateArrayObject(rstack[ridx], elements);
      }
      FinishItem(obj, if elements == -1 then Nil else if elements == 0 then Array([]) else NegArray(elements));
      status := REDIS_OK;
    }

    /** A non-empty array: its items come next. */
    method OpenArray(elements: nat) returns (status: int)
      requires Holding() && 0 <= ridx < MAX_DEPTH && rstack[ridx].ty == ARRAY && elements > 0
      modifies this, rstack, Vectors()
      ensures status == REDIS_OK
      ensures fresh(Repr - old(Repr)) && history == old(history) && emitted == old(emitted)
      ensures Reached(Next(Machine(old(Unread()), old(frames) + [Frame([], elements)], -1)), REDIS_OK)
    {
      hide Tree, S.Sds.Valid, Reached, Ok, FramesOk, Stacked, Layout, Unread;
      Shape();
      var root := ridx == 0;
      TopTask(Snap(), null);
      ghost var m := Machine(Unread(), frames + [Frame([], elements)], -1);
      var obj := CreateArrayObject(rstack[ridx], elements);
      TopLevel(Snap(), obj);
      PushItem(obj, root);
      ArriveNext(m);
      status := REDIS_OK;
    }

    /** Pushes the task for the first item of obj, which is the reply if it is the root. */
    method PushItem(obj: ReplyObject, root: bool)
      requires err.None? && buf != null && Layout() && Tree(Snap(), obj) && Pushable(Snap(), obj)
      requires root == (ridx == 0) && (!root ==> reply == Root(Snap(), obj))
      modifies this`ridx, this`frames, this`reply, rstack
      ensures Holding() && ridx == old(ridx) + 1
      ensures Repr == old(Repr) && history == old(history) && emitted == old(emitted)
      ensures Abs() == Machine(old(Unread()), old(frames) + [Frame([], obj.elements)], -1)
    {
      hide Tree, S.Sds.Valid, Pushed;
      PushTree(Snap(), obj);
      TopTask(Snap(), obj);
      PushTask(obj);
      if root {
        reply := obj;
      }
    }

    lemma ArriveNext(m: Machine)
      requires Holding() && ridx >= 0 && Abs() == m && m.ty == -1
      ensures Reached(Next(m), REDIS_OK)
    {
      TopLevel(Snap(), null);
      TreeFrames(Snap(), null);
    }

    lemma AfterError(e: ProtocolError)
      requires Dead() && err == Some(e)
      ensures Reached(Failed(e), REDIS_ERR)
    {
    }

    /** Records the type of the current item. */
    method SetType(ty: int)
      requires Holding() && ridx >= 0
      modifies rstack
      ensures Holding() && Unread() == old(Unread()) && rstack[ridx].ty == ty
      ensures Abs() == old(Abs()).(ty := ty)
    {
      hide Tree, S.Sds.Valid;
      RetypeTree(Snap(), ty);
      ghost var s' := Retyped(Snap(), ty);
      rstack[ridx] := rstack[ridx].(ty := ty);
      assert Snap() == s';
    }

    method ProcessItem() returns (status: int)
      requires Working() && ridx >= 0
      modifies this, rstack, Vectors()
      ensures fresh(Repr - old(Repr)) && history == old(history) && emitted == old(emitted)
      ensures Reached(Step(old(Abs())), status)
    {
      hide Tree, S.Sds.Valid, StepTyped, Reached;
      TopTask(Snap(), null);
      if rstack[ridx].ty < 0 {
        StayStuck();
        var p := ReadBytes(1);
        if p != -1 {
          var ty := TypeOf(buf.buf[p]);
          if ty < 0 {
            SetError(BadType(buf.buf[p]));
            AfterError(err.value);
            return REDIS_ERR;
          }
          SetType(ty);
        } else {
          return REDIS_ERR;
        }
      }
      status := ProcessTyped();
    }

    /** Processes the current item according to its type. */
    method ProcessTyped() returns (status: int)
      requires Holding() && 0 <= ridx < rstack.Length
      requires rstack[ridx].ty in {STRING, ARRAY, INTEGER, STATUS, ERROR}
      modifies this, rstack, Vectors()
      ensures fresh(Repr - old(Repr)) && history == old(history) && emitted == old(emitted)
      ensures Reached(StepTyped(old(Abs())), status)
    {
      hide Tree, S.Sds.Valid, StepTyped, Reached;
      TopLevel(Snap(), null);
      TreeFrames(Snap(), null);
      var ty := rstack[ridx].ty;
      if ty == STRING {
        status := ProcessBulkItem();
      } else if ty == ARRAY {
        status := ProcessMultiBulkItem();
      } else {
        status := ProcessLineItem();
      }
    }

    // ----- The public operations -----

    /**
     Holds between any two calls: with history fed and emitted handed out, the reader is right
     about every future of the stream; after an error it has freed everything it made.
     */
    ghost predicate Valid()
      reads this, Repr, rstack, buf, if buf == null then {} else {buf.buf}
    {
      && this in Repr
      && (match err
          case None => Working() && Tracks(history, emitted, Abs())
          case Some(e) => Dead() && HasFailed(history, emitted, e))
    }

    constructor ()
      ensures Valid() && fresh(Repr)
      ensures history == [] && emitted == [] && err.None?
    {
      err, pos, len, maxbuf, ridx, reply := None, 0, 0, MAX_BUF, -1, null;
      buf := new S.Sds.NewLen([]);
      rstack := new Task[MAX_DEPTH + 1](_ => Task(0, 0, 0, null, -1));
      objs, val, slots, frames, history, emitted := {}, map[], map[], [], [], [];
      new;
      Repr := {this, rstack, buf, buf.buf};
      hide S.Sds.Valid, Layout, Tree, Tracks;
      NothingYet();
    }

    lemma NothingYet()
      requires Repr == {this, rstack, buf, if buf == null then this else buf.buf} && rstack.Length == MAX_DEPTH + 1
      requires err.None? && buf != null && buf.Valid() && buf.len == len == pos == 0 && ridx == -1 && reply == null
      requires objs == {} && val == map[] && slots == map[] && frames == [] && history == [] && emitted == []
      ensures Valid()
    {
      hide S.Sds.Valid, Tree, Tracks;
      assert Layout();
      hide Layout;
      assert Unread() == [];
      NoTree(rstack[..]);
      TracksInit();
    }

    /** Appends bytes to the buffer; refused, with nothing changed, once there has been an error. */
    method Feed(chunk: seq<byte>) returns (status: int)
      requires Valid()
      modifies Repr
      ensures Valid() && fresh(Repr - old(Repr))
      ensures status == (if err.None? then REDIS_OK else REDIS_ERR) && err == old(err)
      ensures history == old(history) + chunk && emitted == old(emitted)
    {
      hide Tree, Tracks, HasFailed, Ok, S.Sds.Valid;
      history := history + chunk;
      if err.Some? {
        FailedFeed(old(history), emitted, err.value, chunk);
        return REDIS_ERR;
      }
      TracksFeed(old(history), emitted, Abs(), chunk);
      if |chunk| >= 1 {
        Copy(chunk);
        TracksOk(history, emitted, Abs());
      } else {
        assert Unread() + chunk == Unread();
      }
      status := REDIS_OK;
    }

    /** Copies a chunk to the end of the buffer. */
    method Copy(chunk: seq<byte>)
      requires Holding()
      modifies Repr
      ensures Holding() && fresh(Repr - old(Repr))
      ensures (err, history, emitted) == old((err, history, emitted))
      ensures Abs() == old(Abs()).(unread := old(Unread()) + chunk)
    {
      hide Tree;
      if len == 0 && maxbuf != 0 && buf.free > maxbuf {
        RenewBuffer();
      }
      Append(chunk);
    }

    /** An empty buffer that has grown large is replaced by a small one. */
    method RenewBuffer()
      requires Holding() && len == 0
      modifies this`buf, this`pos, this`Repr
      ensures Holding() && fresh(Repr - old(Repr)) && fresh(buf) && fresh(buf.buf)
      ensures Abs() == old(Abs())
    {
      hide Tree;
      buf := new S.Sds.NewLen([]);
      pos := 0;
      Repr := Repr + {buf, buf.buf};
    }

    method Append(chunk: seq<byte>)
      requires Holding()
      modifies this`len, this`Repr, buf, buf.buf
      ensures Holding() && fresh(Repr - old(Repr))
      ensures Abs() == old(Abs()).(unread := old(Unread()) + chunk)
    {
      hide Tree;
      ghost var content := buf.Contents();
      assert Unread() == content[pos..];
      buf.CatLen(chunk);
      len := buf.len;
      Repr := Repr + {buf.buf};
      assert (content + chunk)[pos..] == content[pos..] + chunk;
    }

    /** The reader has no reply to give until more bytes arrive. */
    ghost predicate Waiting()
      reads this, Repr, rstack, buf, if buf == null then {} else {buf.buf}
    {
      Working() && ridx >= 0 && Tracks(history, emitted, Abs()) && Resume(Abs(), []) == More
    }

    /** A reply is ready that the stream indeed has next. */
    ghost predicate Ready(v: Reply)
      reads this, Repr, rstack, buf, if buf == null then {} else {buf.buf}
    {
      Finished(v) && Tracks(history, emitted + [v], Machine(Unread(), [], -1))
    }

    ghost predicate Broken()
      reads this
    {
      Dead() && HasFailed(history, emitted, err.value)
    }

    /** Processes items until a reply is complete, bytes run out, or the stream is in error. */
    method ProcessItems() returns (ghost v: Reply)
      requires Working() && ridx >= 0 && Tracks(history, emitted, Abs())
      modifies Repr
      ensures fresh(Repr - old(Repr)) && history == old(history) && emitted == old(emitted)
      ensures Waiting() || Ready(v) || Broken()
    {
      hide Tree, S.Sds.Valid, Step, Tracks, HasFailed, Resume;
      v := Nil;
      while ridx >= 0
        invariant fresh(Repr - old(Repr)) && history == old(history) && emitted == old(emitted)
        invariant if ridx >= 0 then Working() && Tracks(history, emitted, Abs()) else Ready(v)
        decreases ridx >= 0, |Unread()|
      {
        ghost var m := Abs();
        ghost var res := Step(m);
        TracksStep(history, emitted, m);
        var status := ProcessItem();
        if status != REDIS_OK {
          if res.Stuck? {
            TracksOk(history, emitted, m);
            StuckNeedsMore(m);
          }
          return;
        }
        if res.Emit? {
          v := res.reply;
        }
      }
    }

    /** The finished reply becomes the caller's. */
    method HandOver(ghost v: Reply) returns (r: ReplyObject, ghost parts: Parts)
      requires Ready(v)
      modifies this
      ensures Valid() && err.None? && Repr <= old(Repr)
      ensures history == old(history) && emitted == old(emitted) + [v]
      ensures Whole(r, v, parts) && Objects(parts) !! Repr && Objects(parts) <= old(Repr)
    {
      hide Tree, Known, Linked, Under, S.Sds.Valid, Tracks;
      ghost var s := Snap();
      FinishedKnown(s, reply);
      r := reply;
      parts := Parts(objs, slots);
      reply := null;
      Release(v);
      KnownDenotes(s, r, Objects(parts));
    }

    /** Forgets the objects of a finished reply. */
    ghost method Forget()
      requires Layout()
      modifies this`objs, this`val, this`slots, this`Repr
      ensures Layout() && Repr == old(Repr - objs - Vectors()) && Unread() == old(Unread())
      ensures objs == {} && val == map[] && slots == map[]
    {
      hide S.Sds.Valid;
      Repr := Repr - objs - Vectors();
      objs, val, slots := {}, map[], map[];
    }

    /** Lets go of the objects of a finished reply. */
    ghost method Release(v: Reply)
      requires err.None? && buf != null && Layout() && ridx == -1 && frames == [] && reply == null
      requires Tracks(history, emitted + [v], Machine(Unread(), [], -1))
      modifies this`emitted, this`objs, this`val, this`slots, this`Repr
      ensures Valid() && Repr == old(Repr - objs - Vectors()) && emitted == old(emitted) + [v]
    {
      hide Tree, S.Sds.Valid, Tracks, HasFailed;
      TracksOk(history, emitted + [v], Machine(Unread(), [], -1));
      Forget();
      emitted := emitted + [v];
      NoTree(rstack[..]);
    }

    /** Puts a task for the root item on an empty stack. */
    method Start()
      requires Working() && ridx == -1
      modifies this`ridx, rstack
      ensures Working() && ridx == 0 && Abs() == old(Abs())
    {
      hide Tree, S.Sds.Valid;
      StartTree(Snap());
      ghost var s := Snap();
      rstack[0] := Task(-1, -1, -1, null, -1);
      ridx := 0;
      assert Snap() == s.(tasks := s.tasks[0 := Task(-1, -1, -1, null, -1)], ridx := 0);
    }

    /** Once enough has been consumed, moves what is unread to the front of the buffer. */
    method Discard()
      requires err.None? && buf != null && Layout()
      modifies this`pos, this`len, buf, buf.buf
      ensures Layout() && Unread() == old(Unread()) && Snap() == old(Snap())
    {
      if pos >= DISCARD {
        ghost var content := buf.Contents();
        assert Unread() == content[pos..];
        buf.Range(pos, -1);
        assert S.RangeOf(content, pos, -1) == content[pos..];
        pos := 0;
        len := buf.len;
      }
    }

    lemma StreamFailed()
      requires Valid() && err.Some?
      ensures ParseStream(history) == Stream(emitted, err)
    {
      hide Dead, HasFailed;
      FailedStream(history, emitted, err.value);
    }

    lemma NothingUnread()
      requires Valid() && err.None? && len == 0
      ensures ParseStream(history) == Stream(emitted, None)
    {
      hide Tree, S.Sds.Valid, Tracks, Resume;
      EmptyNeedsMore(Abs());
      TracksStuck(history, emitted, Abs());
    }

    /** Carries on with the reply in progress, or starts the next one. */
    method Proceed() returns (ghost v: Reply)
      requires Valid() && err.None?
      modifies Repr
      ensures fresh(Repr - old(Repr)) && this in Repr && history == old(history) && emitted == old(emitted)
      ensures if err.Some? then Valid() else Waiting() || Ready(v)
    {
      hide Tree, Layout, S.Sds.Valid, Tracks, HasFailed, Resume;
      Shape();
      TopLevel(Snap(), null);
      if ridx == -1 {
        Start();
      }
      v := ProcessItems();
      if buf != null {
        Shape();
      }
    }

    /** Discarding what has been consumed changes neither the tree nor what is unread. */
    method Trim(ghost v: Reply)
      requires Waiting() || Ready(v)
      modifies this`pos, this`len, buf, buf.buf
      ensures if ridx == -1 then Ready(v) else Waiting()
    {
      hide Tree, Layout, S.Sds.Valid, Tracks, Resume;
      Discard();
    }

    /** Hands over the reply that is ready, if one is. */
    method Answer(ghost v: Reply) returns (r: ReplyObject?, ghost parts: Parts)
      requires Waiting() || Ready(v)
      modifies Repr
      ensures Valid() && err.None? && Repr <= old(Repr) && history == old(history)
      ensures r != null ==> Objects(parts) !! Repr && Objects(parts) <= old(Repr)
      ensures r != null ==> emitted == old(emitted) + [v] && Whole(r, v, parts)
      ensures r == null ==> emitted == old(emitted) && ParseStream(history) == Stream(emitted, None)
    {
      hide Tree, S.Sds.Valid, Tracks, Layout, Resume;
      Shape();
      Trim(v);
      if ridx == -1 {
        hide Ready;
        r, parts := HandOver(v);
      } else {
        TracksStuck(history, emitted, Abs());
        r, parts := null, Parts({}, map[]);
      }
    }

    /**
     The next reply of the stream, as a tree that spells it out and is the caller's to free, or null when the stream so far
     has no further reply; an error exactly when the stream so far is in error.
     */
    method GetReply() returns (status: int, r: ReplyObject?, ghost parts: Parts)
      requires Valid()
      modifies Repr
      ensures Valid() && fresh(Repr - old(Repr)) && history == old(history)
      ensures status == if err.None? then REDIS_OK else REDIS_ERR
      ensures r != null ==> status == REDIS_OK && Objects(parts) !! Repr && fresh(Objects(parts) - old(Repr))
      ensures r != null ==> |emitted| > 0 && emitted[..|emitted| - 1] == old(emitted)
      ensures r != null ==> Whole(r, emitted[|emitted| - 1], parts)
      ensures r == null ==> emitted == old(emitted) && ParseStream(history) == Stream(emitted, err)
    {
      hide Holding, Working, Waiting, Ready, Broken, Valid, HasFailed, Tracks;
      r, parts := null, Parts({}, map[]);
      if err.Some? {
        StreamFailed();
        return REDIS_ERR, null, parts;
      }
      if len == 0 {
        NothingUnread();
        return REDIS_OK, null, parts;
      }
      ghost var v := Proceed();
      if err.Some? {
        StreamFailed();
        return REDIS_ERR, null, parts;
      }
      r, parts := Answer(v);
      status := REDIS_OK;
    }

    /** What has been handed out is a prefix of what the stream has. */
    lemma EmittedSoFar()
      requires Valid()
      ensures emitted <= ParseStream(history).replies
    {
      assert history + [] == history;
    }
  }
}
